/** The circular doubly-linked list with a sentinel head that the queue is
    built on, and the list primitives it uses (INIT_LIST_HEAD, list_add,
    list_add_tail, list_del_init, list_empty, list_is_singular).

    Nodes live in an arena: a node is a slot number, its links are the slot
    numbers of its neighbours, and slot 0 is the sentinel head, which carries
    no payload. Every other slot is an element_t, whose payload is a C string. */
module List {
  import opened CString

  /** The slot of the sentinel head. */
  const Head: nat := 0

  /** The slot at position i of the cycle that starts after the head; the
      positions just before the first and just after the last are the head. */
  function At(nodes: seq<nat>, i: int): nat {
    if 0 <= i < |nodes| then nodes[i] else Head
  }

  /** Cutting nodes[q..q + d] out of nodes moves every later position down by d. */
  lemma AtOfSlice(nodes: seq<nat>, q: nat, d: nat, j: nat)
    requires q + d <= |nodes|
    ensures At(nodes[..q] + nodes[q + d..], q + j) == At(nodes, q + d + j)
  {
  }

  /** A slot of nodes is not found at any other position, nor at the head. */
  lemma NotAtOther(nodes: seq<nat>, size: nat, i: nat, j: int)
    requires InArena(nodes, size) && Distinct(nodes) && i < |nodes| && i != j
    ensures nodes[i] != At(nodes, j)
  {
  }

  /** Every slot of nodes is an element slot of an arena of the given size. */
  ghost predicate InArena(nodes: seq<nat>, size: nat) {
    forall i :: 0 <= i < |nodes| ==> Head < nodes[i] < size
  }

  /** No slot occurs twice in nodes. */
  ghost predicate Distinct(nodes: seq<nat>) {
    forall i, j :: 0 <= i < j < |nodes| ==> nodes[i] != nodes[j]
  }

  /** The slot at position m, if there is one, occurs nowhere else in nodes. */
  ghost predicate Unique(nodes: seq<nat>, m: int) {
    0 <= m < |nodes| ==> forall k :: 0 <= k < |nodes| && k != m ==> nodes[k] != nodes[m]
  }

  /** Distinct slots are each unique. */
  lemma DistinctUnique(nodes: seq<nat>, m: int)
    requires Distinct(nodes)
    ensures Unique(nodes, m)
  {
  }

  /** Following next from the head visits head, nodes[0], ..., nodes[|nodes| - 1], head. */
  ghost predicate NextLinked(next: seq<nat>, nodes: seq<nat>) {
    && (forall i {:trigger next[nodes[i]]} :: 0 <= i < |nodes| ==>
          nodes[i] < |next| && next[nodes[i]] == At(nodes, i + 1))
    && 1 <= |next| && next[Head] == At(nodes, 0)
  }

  /** Following prev from the head visits the same cycle backwards. */
  ghost predicate PrevLinked(prev: seq<nat>, nodes: seq<nat>) {
    && (forall i {:trigger prev[nodes[i]]} :: 0 <= i < |nodes| ==>
          nodes[i] < |prev| && prev[nodes[i]] == At(nodes, i - 1))
    && 1 <= |prev| && prev[Head] == At(nodes, |nodes| - 1)
  }

  /** A slot not yet in the list keeps the slots distinct when added at either end. */
  lemma AddFresh(nodes: seq<nat>, size: nat, x: nat)
    requires InArena(nodes, size) && Distinct(nodes) && Head < x < size && x !in nodes
    ensures InArena([x] + nodes, size) && Distinct([x] + nodes)
    ensures InArena(nodes + [x], size) && Distinct(nodes + [x])
  {
    var a, b := [x] + nodes, nodes + [x];
    forall i, j | 0 <= i < j < |a| ensures a[i] != a[j] {
      assert a[j] == nodes[j - 1];
      if i > 0 { assert a[i] == nodes[i - 1]; }
    }
    forall i, j | 0 <= i < j < |b| ensures b[i] != b[j] {
      assert b[i] == nodes[i];
      if j < |nodes| { assert b[j] == nodes[j]; }
    }
  }

  /** Splicing a detached slot in after the head (list_add): next side. */
  lemma AddNext(next: seq<nat>, nodes: seq<nat>, x: nat)
    requires 1 <= |next| && InArena(nodes, |next|) && NextLinked(next, nodes)
    requires Head < x < |next| && x !in nodes && InArena([x] + nodes, |next|)
    ensures NextLinked(next[x := next[Head]][Head := x], [x] + nodes)
  {
    var nx, ns := next[x := next[Head]][Head := x], [x] + nodes;
    forall i | 0 <= i < |ns| ensures nx[ns[i]] == At(ns, i + 1) {
      if i == 0 {
        assert ns[0] == x && At(ns, 1) == At(nodes, 0);
      } else {
        var y := nodes[i - 1];
        assert ns[i] == y != x;
        assert next[y] == At(nodes, i);
      }
    }
  }

  /** Splicing a detached slot in after the head (list_add): prev side. */
  lemma AddPrev(prev: seq<nat>, nodes: seq<nat>, x: nat, first: nat)
    requires InArena(nodes, |prev|) && Unique(nodes, 0) && PrevLinked(prev, nodes)
    requires Head < x < |prev| && x !in nodes && InArena([x] + nodes, |prev|)
    requires first == At(nodes, 0)
    ensures PrevLinked(prev[x := Head][first := x], [x] + nodes)
  {
    var px, ns := prev[x := Head][first := x], [x] + nodes;
    forall i | 0 <= i < |ns| ensures px[ns[i]] == At(ns, i - 1) {
      if i > 0 {
        var y := nodes[i - 1];
        assert ns[i] == y != x;
        assert prev[y] == At(nodes, i - 2);
        if i > 1 { assert y != first; }
      }
    }
    assert px[Head] == At(ns, |ns| - 1) by {
      if nodes == [] { assert first == Head; } else { assert first == nodes[0] != Head; }
    }
  }

  /** Splicing a detached slot in before the head (list_add_tail): next side. */
  lemma AddTailNext(next: seq<nat>, nodes: seq<nat>, x: nat, last: nat)
    requires InArena(nodes, |next|) && Unique(nodes, |nodes| - 1) && NextLinked(next, nodes)
    requires Head < x < |next| && x !in nodes && InArena(nodes + [x], |next|)
    requires last == At(nodes, |nodes| - 1)
    ensures NextLinked(next[x := Head][last := x], nodes + [x])
  {
    var nx, ns := next[x := Head][last := x], nodes + [x];
    forall i | 0 <= i < |ns| ensures nx[ns[i]] == At(ns, i + 1) {
      if i < |nodes| {
        var y := nodes[i];
        assert ns[i] == y != x;
        assert next[y] == At(nodes, i + 1);
        if i < |nodes| - 1 { assert y != last; }
      }
    }
    assert nx[Head] == At(ns, 0) by {
      if nodes == [] { assert last == Head; } else { assert last == nodes[|nodes| - 1] != Head; }
    }
  }

  /** Splicing a detached slot in before the head (list_add_tail): prev side. */
  lemma AddTailPrev(prev: seq<nat>, nodes: seq<nat>, x: nat)
    requires 1 <= |prev| && InArena(nodes, |prev|) && PrevLinked(prev, nodes)
    requires Head < x < |prev| && x !in nodes && InArena(nodes + [x], |prev|)
    ensures PrevLinked(prev[x := prev[Head]][Head := x], nodes + [x])
  {
    var px, ns := prev[x := prev[Head]][Head := x], nodes + [x];
    forall i | 0 <= i < |ns| ensures px[ns[i]] == At(ns, i - 1) {
      if i < |nodes| {
        var y := nodes[i];
        assert ns[i] == y != x;
        assert prev[y] == At(nodes, i - 1);
      } else {
        assert ns[i] == x && At(ns, i - 1) == At(nodes, |nodes| - 1);
      }
    }
  }

  /** Taking out position i keeps the remaining slots distinct and in the arena. */
  lemma RemoveKeepsDistinct(nodes: seq<nat>, size: nat, i: nat)
    requires InArena(nodes, size) && Distinct(nodes) && i < |nodes|
    ensures var ns := nodes[..i] + nodes[i + 1..];
            InArena(ns, size) && Distinct(ns) && nodes[i] !in ns
            && forall j :: 0 <= j < |ns| ==> ns[j] == if j < i then nodes[j] else nodes[j + 1]
  {
    var ns := nodes[..i] + nodes[i + 1..];
    assert forall j :: 0 <= j < |ns| ==> ns[j] == if j < i then nodes[j] else nodes[j + 1];
    assert nodes[i] !in ns by {
      forall j | 0 <= j < |ns| ensures ns[j] != nodes[i] { }
    }
  }

  /** Unlinking position i (list_del): next side. p is the slot before it and
      q the slot after it. */
  lemma DelNext(next: seq<nat>, nodes: seq<nat>, i: nat, p: nat, q: nat)
    requires InArena(nodes, |next|) && Unique(nodes, i) && Unique(nodes, i - 1)
    requires NextLinked(next, nodes) && i < |nodes| && p == At(nodes, i - 1) && q == At(nodes, i + 1)
    ensures var x := nodes[i];
            NextLinked(next[p := q][x := x], nodes[..i] + nodes[i + 1..])
  {
    var x, ns := nodes[i], nodes[..i] + nodes[i + 1..];
    var nx := next[p := q][x := x];
    assert next[x] == q;
    forall j | 0 <= j < |ns| ensures ns[j] < |nx| && nx[ns[j]] == At(ns, j + 1) {
      DelNextAt(next, nodes, i, p, j);
    }
    DelNextHead(next, nodes, i, p, q);
  }

  /** The next side of list_del at the head: it links to the new first slot. */
  lemma DelNextHead(next: seq<nat>, nodes: seq<nat>, i: nat, p: nat, q: nat)
    requires InArena(nodes, |next|) && 1 <= |next| && next[Head] == At(nodes, 0)
    requires i < |nodes| && p == At(nodes, i - 1) && q == At(nodes, i + 1)
    ensures var ns := nodes[..i] + nodes[i + 1..];
            next[p := q][nodes[i] := nodes[i]][Head] == At(ns, 0)
  {
    var ns := nodes[..i] + nodes[i + 1..];
    if i == 0 {
      if 0 < |ns| { assert ns[0] == nodes[1]; }
    } else {
      assert p != Head && ns[0] == nodes[0];
    }
  }

  /** The next side of list_del at one remaining position j. */
  lemma DelNextAt(next: seq<nat>, nodes: seq<nat>, i: nat, p: nat, j: nat)
    requires InArena(nodes, |next|) && Unique(nodes, i) && Unique(nodes, i - 1) && NextLinked(next, nodes)
    requires i < |nodes| && p == At(nodes, i - 1) && j < |nodes| - 1
    ensures var x, ns := nodes[i], nodes[..i] + nodes[i + 1..];
            var nx := next[p := next[x]][x := x];
            ns[j] < |nx| && nx[ns[j]] == At(ns, j + 1)
  {
    var x, ns := nodes[i], nodes[..i] + nodes[i + 1..];
    var nx := next[p := next[x]][x := x];
    var k := if j < i then j else j + 1;
    var y := nodes[k];
    assert ns[j] == y != x;
    assert next[y] == At(nodes, k + 1);
    assert next[x] == At(nodes, i + 1);
    if j + 1 < i {
      assert y != p && ns[j + 1] == nodes[j + 1];
    } else if j + 1 == i {
      assert y == p;
      if j + 1 < |ns| { assert ns[j + 1] == nodes[i + 1]; }
    } else {
      assert y != p;
      if j + 1 < |ns| { assert ns[j + 1] == nodes[j + 2]; }
    }
  }

  /** Unlinking position i (list_del): prev side. p is the slot before it and
      q the slot after it. */
  lemma DelPrev(prev: seq<nat>, nodes: seq<nat>, i: nat, p: nat, q: nat)
    requires InArena(nodes, |prev|) && Unique(nodes, i) && Unique(nodes, i + 1)
    requires PrevLinked(prev, nodes) && i < |nodes| && p == At(nodes, i - 1) && q == At(nodes, i + 1)
    ensures var x := nodes[i];
            PrevLinked(prev[q := p][x := x], nodes[..i] + nodes[i + 1..])
  {
    var x, ns := nodes[i], nodes[..i] + nodes[i + 1..];
    var px := prev[q := p][x := x];
    assert prev[x] == p;
    forall j | 0 <= j < |ns| ensures ns[j] < |px| && px[ns[j]] == At(ns, j - 1) {
      DelPrevAt(prev, nodes, i, q, j);
    }
    DelPrevHead(prev, nodes, i, p, q);
  }

  /** The prev side of list_del at the head: it links to the new last slot. */
  lemma DelPrevHead(prev: seq<nat>, nodes: seq<nat>, i: nat, p: nat, q: nat)
    requires InArena(nodes, |prev|) && 1 <= |prev| && prev[Head] == At(nodes, |nodes| - 1)
    requires i < |nodes| && p == At(nodes, i - 1) && q == At(nodes, i + 1)
    ensures var ns := nodes[..i] + nodes[i + 1..];
            prev[q := p][nodes[i] := nodes[i]][Head] == At(ns, |ns| - 1)
  {
    var ns := nodes[..i] + nodes[i + 1..];
    if i == |nodes| - 1 {
      if 0 < |ns| { assert ns[|ns| - 1] == nodes[i - 1]; }
    } else {
      assert q != Head;
      assert ns[|ns| - 1] == nodes[i + 1..][|ns| - 1 - i] == nodes[|nodes| - 1];
    }
  }

  /** The prev side of list_del at one remaining position j. */
  lemma DelPrevAt(prev: seq<nat>, nodes: seq<nat>, i: nat, q: nat, j: nat)
    requires InArena(nodes, |prev|) && Unique(nodes, i) && Unique(nodes, i + 1) && PrevLinked(prev, nodes)
    requires i < |nodes| && q == At(nodes, i + 1) && j < |nodes| - 1
    ensures var x, ns := nodes[i], nodes[..i] + nodes[i + 1..];
            var px := prev[q := prev[x]][x := x];
            ns[j] < |px| && px[ns[j]] == At(ns, j - 1)
  {
    var x, ns := nodes[i], nodes[..i] + nodes[i + 1..];
    var px := prev[q := prev[x]][x := x];
    var k := if j < i then j else j + 1;
    var y := nodes[k];
    assert ns[j] == y != x;
    assert prev[y] == At(nodes, k - 1);
    assert prev[x] == At(nodes, i - 1);
    if j < i {
      assert y != q;
      if j > 0 { assert ns[j - 1] == nodes[j - 1]; }
    } else if j == i {
      assert y == q;
      if j > 0 { assert ns[j - 1] == nodes[i - 1]; }
    } else {
      assert y != q && ns[j - 1] == nodes[j];
    }
  }

  /** The whole list invariant, on the arena's values: the links form the cycle
      through nodes, each element slot holds the string of its position, and
      every such string is a C string. */
  ghost predicate Shaped(next: seq<nat>, prev: seq<nat>, value: seq<seq<char>>,
                         nodes: seq<nat>, contents: seq<seq<char>>)
  {
    && |next| == |prev| == |value| >= 1
    && |contents| == |nodes|
    && InArena(nodes, |next|)
    && Distinct(nodes)
    && NextLinked(next, nodes)
    && PrevLinked(prev, nodes)
    && (forall i {:trigger value[nodes[i]]} :: 0 <= i < |nodes| ==> value[nodes[i]] == contents[i])
    && (forall i :: 0 <= i < |contents| ==> IsCString(contents[i]))
  }

  /** list_add keeps the invariant and puts the slot first. */
  lemma AddShaped(next: seq<nat>, prev: seq<nat>, value: seq<seq<char>>,
                  nodes: seq<nat>, contents: seq<seq<char>>, x: nat)
    requires Shaped(next, prev, value, nodes, contents)
    requires Head < x < |next| && x !in nodes && IsCString(value[x])
    ensures Shaped(next[x := next[Head]][Head := x], prev[x := Head][next[Head] := x], value,
                   [x] + nodes, [value[x]] + contents)
  {
    AddFresh(nodes, |next|, x);
    DistinctUnique(nodes, 0);
    AddNext(next, nodes, x);
    AddPrev(prev, nodes, x, next[Head]);
    var ns, cs := [x] + nodes, [value[x]] + contents;
    forall i | 0 <= i < |ns| ensures value[ns[i]] == cs[i] {
      if i > 0 { assert value[nodes[i - 1]] == contents[i - 1]; }
    }
  }

  /** list_add_tail keeps the invariant and puts the slot last. */
  lemma AddTailShaped(next: seq<nat>, prev: seq<nat>, value: seq<seq<char>>,
                      nodes: seq<nat>, contents: seq<seq<char>>, x: nat)
    requires Shaped(next, prev, value, nodes, contents)
    requires Head < x < |next| && x !in nodes && IsCString(value[x])
    ensures Shaped(next[x := Head][prev[Head] := x], prev[x := prev[Head]][Head := x], value,
                   nodes + [x], contents + [value[x]])
  {
    AddFresh(nodes, |next|, x);
    DistinctUnique(nodes, |nodes| - 1);
    AddTailNext(next, nodes, x, prev[Head]);
    AddTailPrev(prev, nodes, x);
    var ns, cs := nodes + [x], contents + [value[x]];
    forall i | 0 <= i < |ns| ensures value[ns[i]] == cs[i] {
      if i < |nodes| { assert value[nodes[i]] == contents[i]; }
    }
  }

  /** list_del_init keeps the invariant and takes out position i. */
  lemma DelShaped(next: seq<nat>, prev: seq<nat>, value: seq<seq<char>>,
                  nodes: seq<nat>, contents: seq<seq<char>>, i: nat)
    requires Shaped(next, prev, value, nodes, contents) && i < |nodes|
    ensures var x := nodes[i];
            Shaped(next[prev[x] := next[x]][x := x], prev[next[x] := prev[x]][x := x], value,
                   nodes[..i] + nodes[i + 1..], contents[..i] + contents[i + 1..])
  {
    RemoveKeepsDistinct(nodes, |next|, i);
    DistinctUnique(nodes, i - 1);
    DistinctUnique(nodes, i);
    DistinctUnique(nodes, i + 1);
    var x := nodes[i];
    assert next[x] == At(nodes, i + 1) && prev[x] == At(nodes, i - 1);
    DelNext(next, nodes, i, prev[x], next[x]);
    DelPrev(prev, nodes, i, prev[x], next[x]);
    DelPayloads(value, nodes, contents, i);
  }

  /** Taking out position i keeps every remaining slot's payload at its position. */
  lemma DelPayloads(value: seq<seq<char>>, nodes: seq<nat>, contents: seq<seq<char>>, i: nat)
    requires |contents| == |nodes| && i < |nodes| && InArena(nodes, |value|)
    requires forall j {:trigger value[nodes[j]]} :: 0 <= j < |nodes| ==> value[nodes[j]] == contents[j]
    requires forall j :: 0 <= j < |contents| ==> IsCString(contents[j])
    ensures var ns, cs := nodes[..i] + nodes[i + 1..], contents[..i] + contents[i + 1..];
            && (forall j {:trigger value[ns[j]]} :: 0 <= j < |ns| ==> value[ns[j]] == cs[j])
            && (forall j :: 0 <= j < |cs| ==> IsCString(cs[j]))
  {
    var ns, cs := nodes[..i] + nodes[i + 1..], contents[..i] + contents[i + 1..];
    forall j | 0 <= j < |ns| ensures value[ns[j]] == cs[j] && IsCString(cs[j]) {
      if j < i {
        assert ns[j] == nodes[j] && cs[j] == contents[j];
      } else {
        assert ns[j] == nodes[j + 1] && cs[j] == contents[j + 1];
      }
    }
  }

  /** A snapshot of the arena: the links and the payload of every slot. */
  datatype Arena = Arena(next: seq<nat>, prev: seq<nat>, value: seq<seq<char>>)

  /** Slot y is an element slot below size that is not in the list nodes: an
      element not linked yet, or one a caller holds after removing it. */
  ghost predicate Detached(y: nat, nodes: seq<nat>, size: nat) {
    Head < y < size && y !in nodes
  }

  /** Arena b agrees with arena a on the links and payload of every slot
      detached from nodes below size. */
  ghost predicate SameDetached(nodes: seq<nat>, size: nat, a: Arena, b: Arena) {
    && size <= |a.next| && size <= |a.prev| && size <= |a.value|
    && size <= |b.next| && size <= |b.prev| && size <= |b.value|
    && forall y: nat :: Detached(y, nodes, size) ==>
         b.next[y] == a.next[y] && b.prev[y] == a.prev[y] && b.value[y] == a.value[y]
  }

  /** From list nodes0 in arena a0 to list nodes in arena a, elements have only
      been deleted: no slot joined the list, every slot that left it has had
      its payload released, and every slot detached before is as it was. */
  ghost predicate Trimmed(nodes0: seq<nat>, a0: Arena, nodes: seq<nat>, a: Arena) {
    && (forall y :: y in nodes ==> y in nodes0)
    && |a.value| == |a0.value|
    && SameDetached(nodes0, |a0.value|, a0, a)
    && (forall y :: y in nodes0 && y !in nodes ==> y < |a.value| && a.value[y] == [])
  }

  /** Deleting in two steps only deletes. */
  lemma TrimmedTrans(n0: seq<nat>, a0: Arena, n1: seq<nat>, a1: Arena, n2: seq<nat>, a2: Arena)
    requires Trimmed(n0, a0, n1, a1) && Trimmed(n1, a1, n2, a2) && InArena(n0, |a0.value|)
    ensures Trimmed(n0, a0, n2, a2)
  {
    forall y: nat | Detached(y, n0, |a0.value|)
      ensures a2.next[y] == a0.next[y] && a2.prev[y] == a0.prev[y] && a2.value[y] == a0.value[y]
    {
      assert Detached(y, n1, |a1.value|);
    }
    forall y | y in n0 && y !in n2 ensures y < |a2.value| && a2.value[y] == [] {
      if y !in n1 {
        var i :| 0 <= i < |n0| && n0[i] == y;
        assert Detached(y, n1, |a1.value|);
      }
    }
  }

  /** Unlinking the element at position i of nodes, with every detached slot
      kept (arena m), and then releasing its payload (arena b) only deletes. */
  lemma DeleteTrims(nodes: seq<nat>, i: nat, a: Arena, m: Arena, b: Arena)
    requires i < |nodes| && nodes[i] < |a.value| == |m.value| && SameDetached(nodes, |a.value|, a, m)
    requires b == Arena(m.next, m.prev, m.value[nodes[i] := []])
    ensures Trimmed(nodes, a, nodes[..i] + nodes[i + 1..], b)
  {
    var ns := nodes[..i] + nodes[i + 1..];
    forall y | y in ns ensures y in nodes {
      var j :| 0 <= j < |ns| && ns[j] == y;
      if j < i { assert nodes[j] == y; } else { assert nodes[j + 1] == y; }
    }
    forall y | y in nodes && y !in ns ensures y == nodes[i] {
    }
  }

  class ListHead {
    var next: seq<nat>
    var prev: seq<nat>
    /** The payload of every element slot; value[Head] is unused. */
    var value: seq<seq<char>>

    /** The element slots reached from the head by following next, in order. */
    ghost var Nodes: seq<nat>
    /** The strings the queue holds, first to last. */
    ghost var Contents: seq<seq<char>>

    /** The link invariant: walking next from the head visits every element
        of Nodes once and comes back to the head, and prev walks the same
        cycle backwards. */
    ghost predicate Valid()
      reads this
    {
      Shaped(next, prev, value, Nodes, Contents)
    }

    /** The arena as it stands. */
    ghost function Snapshot(): (a: Arena)
      reads this
      ensures a.next == next && a.prev == prev && a.value == value
    {
      Arena(next, prev, value)
    }

    /** Since the old state, every slot detached from the old list (an
        element handed to a caller, or one not linked yet) has kept its links
        and its payload. */
    twostate predicate KeepsDetached()
      reads this
    {
      SameDetached(old(Nodes), old(|value|), old(Snapshot()), Snapshot())
    }

    /** Since the old state, elements have only been deleted from the list and
        released, and every detached slot is as it was. */
    twostate predicate OnlyDeletes()
      reads this
    {
      Trimmed(old(Nodes), old(Snapshot()), Nodes, Snapshot())
    }

    /** Every node of the cycle, head included, is the prev of its next and
        the next of its prev. */
    lemma LinksAreInverse()
      requires Valid()
      ensures prev[next[Head]] == Head && next[prev[Head]] == Head
      ensures forall i :: 0 <= i < |Nodes| ==>
        prev[next[Nodes[i]]] == Nodes[i] && next[prev[Nodes[i]]] == Nodes[i]
    {
      var n := |Nodes|;
      forall i | 0 <= i < n
        ensures prev[next[Nodes[i]]] == Nodes[i] && next[prev[Nodes[i]]] == Nodes[i]
      {
        if i + 1 < n { assert next[Nodes[i]] == Nodes[i + 1]; }
        if i > 0 { assert prev[Nodes[i]] == Nodes[i - 1]; }
      }
      if n > 0 {
        assert next[Head] == Nodes[0] && prev[Head] == Nodes[n - 1];
      }
    }

    /** An allocated head initialised by INIT_LIST_HEAD: it links to itself. */
    constructor ()
      ensures Valid() && Nodes == [] && Contents == []
      ensures next == [Head] && prev == [Head]
    {
      next, prev, value := [Head], [Head], [[NUL]];
      Nodes, Contents := [], [];
    }

    /** list_empty: the head's next is the head itself. */
    function IsEmpty(): (b: bool)
      reads this
      requires Valid()
      ensures b <==> Contents == []
    {
      next[Head] == Head
    }

    /** list_is_singular: not empty, and the first element is also the last. */
    function IsSingular(): (b: bool)
      reads this
      requires Valid()
      ensures b <==> |Contents| == 1
    {
      assert |Nodes| > 1 ==> Nodes[0] != Nodes[|Nodes| - 1];
      !IsEmpty() && next[Head] == prev[Head]
    }

    /** A new element slot holding the string v, linked to nothing. */
    method NewSlot(v: seq<char>) returns (x: nat)
      requires Valid()
      modifies this
      ensures Valid() && Nodes == old(Nodes) && Contents == old(Contents)
      ensures x == old(|next|) && value == old(value) + [v]
      ensures next == old(next) + [x] && prev == old(prev) + [x]
    {
      x := |next|;
      next, prev, value := next + [x], prev + [x], value + [v];
    }

    /** list_add(x, head): x becomes the first element. */
    method Add(x: nat)
      requires Valid() && Head < x < |next| && x !in Nodes && IsCString(value[x])
      modifies this
      ensures Valid() && Nodes == [x] + old(Nodes) && Contents == [value[x]] + old(Contents)
      ensures value == old(value)
      ensures next == old(next[x := next[Head]][Head := x])
      ensures prev == old(prev[x := Head][next[Head] := x])
    {
      var first := next[Head];
      AddShaped(next, prev, value, Nodes, Contents, x);
      next := next[x := first][Head := x];
      prev := prev[x := Head][first := x];
      Nodes, Contents := [x] + Nodes, [value[x]] + Contents;
    }

    /** list_add_tail(x, head): x becomes the last element. */
    method AddTail(x: nat)
      requires Valid() && Head < x < |next| && x !in Nodes && IsCString(value[x])
      modifies this
      ensures Valid() && Nodes == old(Nodes) + [x] && Contents == old(Contents) + [value[x]]
      ensures value == old(value)
      ensures next == old(next[x := Head][prev[Head] := x])
      ensures prev == old(prev[x := prev[Head]][Head := x])
    {
      var last := prev[Head];
      AddTailShaped(next, prev, value, Nodes, Contents, x);
      next := next[x := Head][last := x];
      prev := prev[x := last][Head := x];
      Nodes, Contents := Nodes + [x], Contents + [value[x]];
    }

    /** list_del_init(x): unlinks the element at position i, which then links
        to itself; the other elements keep their order. */
    method DelInit(x: nat, ghost i: nat)
      requires Valid() && i < |Nodes| && Nodes[i] == x
      modifies this
      ensures Valid()
      ensures Nodes == old(Nodes[..i] + Nodes[i + 1..])
      ensures Contents == old(Contents[..i] + Contents[i + 1..])
      ensures value == old(value)
      ensures next == old(next[prev[x] := next[x]][x := x])
      ensures prev == old(prev[next[x] := prev[x]][x := x])
      ensures KeepsDetached()
    {
      var p, q := prev[x], next[x];
      DelShaped(next, prev, value, Nodes, Contents, i);
      next := next[p := q][x := x];
      prev := prev[q := p][x := x];
      Nodes, Contents := Nodes[..i] + Nodes[i + 1..], Contents[..i] + Contents[i + 1..];
    }

    /** Releases the payload of a detached element slot. */
    method Release(x: nat)
      requires Valid() && Head < x < |next| && x !in Nodes
      modifies this
      ensures Valid() && Nodes == old(Nodes) && Contents == old(Contents)
      ensures next == old(next) && prev == old(prev) && value == old(value)[x := []]
    {
      value := value[x := []];
    }
  }
}
