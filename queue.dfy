/** The queue operations of queue.c. A queue is a ListHead (the sentinel of a
    circular list of element_t); a NULL queue pointer is a null ListHead?.
    Allocation failure is the parameter allocOk: false means malloc returned
    NULL. */
module Queue {
  import opened CString
  import opened List
  import opened QueueSpec

  datatype Option<T> = None | Some(value: T)

  /** q_new: an empty queue whose head links to itself, or NULL when the
      allocation fails. */
  method New(allocOk: bool) returns (head: ListHead?)
    ensures allocOk <==> head != null
    ensures head != null ==> fresh(head) && head.Valid() && head.Contents == []
    ensures head != null ==> head.next[Head] == Head && head.prev[Head] == Head
  {
    if !allocOk {
      return null;
    }
    head := new ListHead();
  }

  /** q_free: every element is unlinked and its payload released; nothing is
      left in the queue, and elements held by callers are untouched. */
  method Free(head: ListHead?)
    requires head != null ==> head.Valid()
    modifies head
    ensures head != null ==> head.Valid() && head.Contents == [] && head.OnlyDeletes()
  {
    if head == null {
      return;
    }
    ghost var nodes0, arena0 := head.Nodes, head.Snapshot();
    var entry := head.next[Head];
    while entry != Head
      invariant head.Valid()
      invariant entry == At(head.Nodes, 0)
      invariant Trimmed(nodes0, arena0, head.Nodes, head.Snapshot())
      decreases |head.Nodes|
    {
      var safe := head.next[entry];
      ghost var nodes1, arena1 := head.Nodes, head.Snapshot();
      DeleteElement(head, entry, 0);
      TrimmedTrans(nodes0, arena0, nodes1, arena1, head.Nodes, head.Snapshot());
      entry := safe;
    }
  }

  /** q_new_element: a new, unlinked element holding a copy of the C string in
      str, terminator included; None when an allocation fails. */
  method NewElement(head: ListHead, str: seq<char>, allocOk: bool) returns (e: Option<nat>)
    requires head.Valid() && NUL in str
    modifies head
    ensures head.Valid() && head.Nodes == old(head.Nodes) && head.Contents == old(head.Contents)
    ensures allocOk <==> e.Some?
    ensures e.Some? ==> e.value == old(|head.next|) && Head < e.value < |head.next|
    ensures e.Some? ==> e.value !in head.Nodes && head.value[e.value] == CStringOf(str)
    ensures e.Some? ==> head.value == old(head.value) + [CStringOf(str)]
    ensures e.Some? ==> head.next == old(head.next) + [e.value] && head.prev == old(head.prev) + [e.value]
    ensures e.None? ==> unchanged(head)
  {
    if !allocOk {
      return None;
    }
    var copy := StrNCpy(str, StrLen(str) + 1);
    WholeCopy(str);
    var x := head.NewSlot(copy);
    return Some(x);
  }

  /** q_insert_head: false, with nothing changed, for a NULL queue or a failed
      allocation; otherwise the copy of s becomes the first element. */
  method InsertHead(head: ListHead?, s: seq<char>, allocOk: bool) returns (ok: bool)
    requires head != null ==> head.Valid() && NUL in s
    modifies head
    ensures ok <==> head != null && allocOk
    ensures head != null ==> head.Valid()
    ensures ok ==> head.Contents == [CStringOf(s)] + old(head.Contents)
    ensures ok ==> head.Nodes == [old(|head.value|)] + old(head.Nodes)
    ensures ok ==> head.value == old(head.value) + [CStringOf(s)]
    ensures head != null ==> head.KeepsDetached()
    ensures head != null && !ok ==> unchanged(head)
  {
    if head == null {
      return false;
    }
    var e := NewElement(head, s, allocOk);
    if e.None? {
      return false;
    }
    head.Add(e.value);
    return true;
  }

  /** q_insert_tail: false, with nothing changed, for a NULL queue or a failed
      allocation; otherwise the copy of s becomes the last element. */
  method InsertTail(head: ListHead?, s: seq<char>, allocOk: bool) returns (ok: bool)
    requires head != null ==> head.Valid() && NUL in s
    modifies head
    ensures ok <==> head != null && allocOk
    ensures head != null ==> head.Valid()
    ensures ok ==> head.Contents == old(head.Contents) + [CStringOf(s)]
    ensures ok ==> head.Nodes == old(head.Nodes) + [old(|head.value|)]
    ensures ok ==> head.value == old(head.value) + [CStringOf(s)]
    ensures head != null ==> head.KeepsDetached()
    ensures head != null && !ok ==> unchanged(head)
  {
    if head == null {
      return false;
    }
    var e := NewElement(head, s, allocOk);
    if e.None? {
      return false;
    }
    head.AddTail(e.value);
    return true;
  }

  /** q_remove_head: NULL, with nothing changed, for a NULL or empty queue;
      otherwise the first element is unlinked (and left linking to itself) and
      handed to the caller, and when sp is given its string is copied out
      truncated to bufsize - 1 characters and terminated. */
  method RemoveHead(head: ListHead?, sp: array?<char>, bufsize: nat) returns (e: Option<nat>)
    requires head != null ==> head.Valid()
    requires sp != null ==> 1 <= bufsize <= sp.Length
    modifies head, sp
    ensures head == null || old(head.Contents) == [] ==> e == None
    ensures head != null && old(head.Contents) == [] ==> unchanged(head)
    ensures e == None && sp != null ==> unchanged(sp)
    ensures head != null ==> head.Valid() && head.KeepsDetached()
    ensures head != null && old(head.Contents) != [] ==>
      && e == Some(old(head.Nodes[0])) && Head < e.value < |head.value|
      && head.Contents == old(head.Contents[1..])
      && head.Nodes == old(head.Nodes[1..])
      && head.value == old(head.value)
      && head.value[e.value] == old(head.Contents[0])
      && head.next[e.value] == e.value && head.prev[e.value] == e.value
      && (sp != null ==> CopiedOut(sp[..], old(sp[..]), old(head.Contents[0]), bufsize))
  {
    if head == null || head.IsEmpty() {
      return None;
    }
    var x := head.next[Head];
    ghost var nodes0, contents0 := head.Nodes, head.Contents;
    assert head.value[x] == contents0[0];
    head.DelInit(x, 0);
    assert head.Nodes == nodes0[1..] by { assert nodes0[..0] == []; }
    assert head.value[x] == contents0[0] && head.next[x] == x && head.prev[x] == x;
    if sp != null {
      ghost var unlinked, nodes1, contents1 := head.Snapshot(), head.Nodes, head.Contents;
      CopyOut(sp, head.value[x], bufsize);
      assert head.Snapshot() == unlinked && head.Nodes == nodes1 && head.Contents == contents1;
    }
    return Some(x);
  }

  /** q_remove_tail: as q_remove_head, for the last element. */
  method RemoveTail(head: ListHead?, sp: array?<char>, bufsize: nat) returns (e: Option<nat>)
    requires head != null ==> head.Valid()
    requires sp != null ==> 1 <= bufsize <= sp.Length
    modifies head, sp
    ensures head == null || old(head.Contents) == [] ==> e == None
    ensures head != null && old(head.Contents) == [] ==> unchanged(head)
    ensures e == None && sp != null ==> unchanged(sp)
    ensures head != null ==> head.Valid() && head.KeepsDetached()
    ensures head != null && old(head.Contents) != [] ==>
      && e == Some(old(head.Nodes[|head.Nodes| - 1])) && Head < e.value < |head.value|
      && head.Contents == old(head.Contents[..|head.Contents| - 1])
      && head.Nodes == old(head.Nodes[..|head.Nodes| - 1])
      && head.value == old(head.value)
      && head.value[e.value] == old(head.Contents[|head.Contents| - 1])
      && head.next[e.value] == e.value && head.prev[e.value] == e.value
      && (sp != null ==> CopiedOut(sp[..], old(sp[..]), old(head.Contents[|head.Contents| - 1]), bufsize))
  {
    if head == null || head.IsEmpty() {
      return None;
    }
    var x := head.prev[Head];
    ghost var contents0, last := head.Contents, |head.Nodes| - 1;
    assert head.value[x] == contents0[last];
    head.DelInit(x, last);
    assert head.value[x] == contents0[last] && head.next[x] == x && head.prev[x] == x;
    if sp != null {
      ghost var unlinked, nodes1, contents1 := head.Snapshot(), head.Nodes, head.Contents;
      CopyOut(sp, head.value[x], bufsize);
      assert head.Snapshot() == unlinked && head.Nodes == nodes1 && head.Contents == contents1;
    }
    return Some(x);
  }

  /** The copy-out of q_remove_head and q_remove_tail:
      strncpy(sp, value, bufsize - 1) and then sp[bufsize - 1] = '\0'. */
  method CopyOut(sp: array<char>, value: seq<char>, bufsize: nat)
    requires IsCString(value) && 1 <= bufsize <= sp.Length
    modifies sp
    ensures CopiedOut(sp[..], old(sp[..]), value, bufsize)
  {
    assert value[|value| - 1] == NUL;
    StrNCpyInto(sp, value, bufsize - 1);
    sp[bufsize - 1] := NUL;
  }

  /** q_size: 0 for a NULL queue, otherwise the number of elements, counted by
      walking the list once. */
  method Size(head: ListHead?) returns (len: int)
    requires head != null ==> head.Valid()
    ensures len == if head == null then 0 else |head.Contents|
  {
    if head == null {
      return 0;
    }
    len := 0;
    var li := head.next[Head];
    while li != Head
      invariant 0 <= len <= |head.Nodes|
      invariant li == At(head.Nodes, len)
      decreases |head.Nodes| - len
    {
      len := len + 1;
      li := head.next[li];
    }
  }

  /** q_delete_element: unlinks the element at position i and releases it. */
  method DeleteElement(head: ListHead, node: nat, ghost i: nat)
    requires head.Valid() && i < |head.Nodes| && head.Nodes[i] == node
    modifies head
    ensures head.Valid()
    ensures head.Nodes == old(head.Nodes[..i] + head.Nodes[i + 1..])
    ensures head.Contents == old(head.Contents[..i] + head.Contents[i + 1..])
    ensures head.value == old(head.value)[node := []] && |head.next| == old(|head.next|)
    ensures head.OnlyDeletes()
  {
    ghost var nodes0, arena0 := head.Nodes, head.Snapshot();
    head.DelInit(node, i);
    ghost var unlinked := head.Snapshot();
    head.Release(node);
    DeleteTrims(nodes0, i, arena0, unlinked, head.Snapshot());
  }

  /** q_delete_mid: false for a NULL or empty queue; otherwise the element at
      index n / 2 of the n elements is deleted. */
  method DeleteMid(head: ListHead?) returns (ok: bool)
    requires head != null ==> head.Valid()
    modifies head
    ensures ok <==> head != null && old(head.Contents) != []
    ensures head != null ==> head.Valid()
    ensures ok ==> head.Contents == RemoveAt(old(head.Contents), MidIndex(|old(head.Contents)|))
    ensures ok ==> head.OnlyDeletes()
    ensures head != null && !ok ==> unchanged(head)
  {
    if head == null || head.IsEmpty() {
      return false;
    }
    var slowMid := MiddleNode(head);
    DeleteElement(head, slowMid, MidIndex(|head.Nodes|));
    return true;
  }

  /** The walk of q_delete_mid: a slow cursor moves one step for every two of
      a fast one, until the fast one reaches the head or the last element;
      the slow one then stands on the element at index n / 2. */
  method MiddleNode(head: ListHead) returns (slowMid: nat)
    requires head.Valid() && head.Nodes != []
    ensures slowMid == head.Nodes[MidIndex(|head.Nodes|)]
  {
    ghost var n := |head.Nodes|;
    slowMid := head.next[Head];
    var fast := head.next[Head];
    ghost var t := 0;
    while fast != Head && head.next[fast] != Head
      invariant 0 <= 2 * t <= n && t < n
      invariant slowMid == head.Nodes[t]
      invariant fast == At(head.Nodes, 2 * t)
      decreases n - 2 * t
    {
      slowMid := head.next[slowMid];
      fast := head.next[head.next[fast]];
      t := t + 1;
    }
  }

  /** q_delete_dup: false for a NULL or empty queue; otherwise every run of two
      or more adjacent equal strings is deleted and every other element stays,
      in order. */
  method DeleteDup(head: ListHead?) returns (ok: bool)
    requires head != null ==> head.Valid()
    modifies head
    ensures ok <==> head != null && old(head.Contents) != []
    ensures head != null ==> head.Valid()
    ensures ok ==> head.Contents == DeleteDups(old(head.Contents)) && head.OnlyDeletes()
    ensures head != null && (!ok || |old(head.Contents)| == 1) ==> unchanged(head)
  {
    if head == null || head.IsEmpty() {
      return false;
    }
    if head.IsSingular() {
      DeleteDupsOfRun(head.Contents);
      return true;
    }
    ghost var s, nodes0, arena0 := head.Contents, head.Nodes, head.Snapshot();
    var from, to := head.next[Head], head.next[head.next[Head]];
    ghost var p, R := 0, [];
    assert s[..0] == [] && s[0..] == s;
    while from != Head && to != Head
      invariant Scanning(head, s, p, R, from, to)
      invariant Trimmed(nodes0, arena0, head.Nodes, head.Snapshot())
      decreases |s| - p
    {
      ghost var nodes1, arena1 := head.Nodes, head.Snapshot();
      from, to, p, R := DeleteDupPass(head, from, to, s, p, R);
      TrimmedTrans(nodes0, arena0, nodes1, arena1, head.Nodes, head.Snapshot());
    }
    DeleteDupsFinish(s, p, R, head.Contents);
    return true;
  }

  /** The state of q_delete_dup's outer loop over the original contents s:
      what is kept of s[..p] is R, the queue holds R followed by s[p..], from
      is the element just after R, and to the one after from. The flag delete
      is false whenever this holds. */
  ghost predicate Scanning(head: ListHead, s: seq<seq<char>>, p: nat, R: seq<seq<char>>, from: nat, to: nat)
    reads head
  {
    && head.Valid()
    && p <= |s| && (p == 0 || p == |s| || s[p - 1] != s[p])
    && R == DeleteDups(s[..p]) && head.Contents == R + s[p..]
    && from == At(head.Nodes, |R|)
    && (from != Head ==> to == At(head.Nodes, |R| + 1))
  }

  /** One pass of q_delete_dup's outer loop: scans the run that starts at
      from, deletes it when it has two or more elements, and moves from and
      to on past it. */
  method DeleteDupPass(head: ListHead, from0: nat, to0: nat, ghost s: seq<seq<char>>, ghost p0: nat, ghost R0: seq<seq<char>>)
    returns (from: nat, to: nat, ghost p: nat, ghost R: seq<seq<char>>)
    requires Scanning(head, s, p0, R0, from0, to0) && from0 != Head && to0 != Head
    modifies head
    ensures Scanning(head, s, p, R, from, to) && p0 < p
    ensures head.OnlyDeletes()
  {
    from, to := from0, to0;
    ghost var q, c0 := |R0|, head.Contents;
    assert head.value[head.Nodes[q]] == c0[q];
    assert head.value[head.Nodes[q + 1]] == c0[q + 1];
    var eFrom, eTo := head.value[from], head.value[to];
    CStringLength(eFrom);
    CStringLength(eTo);
    var n := if StrLen(eFrom) > StrLen(eTo) then StrLen(eFrom) + 1 else StrLen(eTo) + 1;
    var delete;
    ghost var k;
    to, delete, k := ScanRun(head, q, eFrom, to, eTo, n);
    if delete {
      delete := false;
      from := DeleteRun(head, from, to, q, k);
    }
    R, p := DeleteDupsRunStep(s, p0, R0, q, c0, k, head.Contents);
    from := to;
    if from != Head {
      assert head.next[head.Nodes[|R|]] == At(head.Nodes, |R| + 1);
    }
    to := head.next[to];
  }

  /** The inner scan of q_delete_dup: starting from the element after position
      q, moves to past every element whose string compares equal to eFrom, the
      string at q. k is the length of the run at q; delete says it is two or more. */
  method ScanRun(head: ListHead, ghost q: nat, eFrom: seq<char>, to0: nat, eTo0: seq<char>, n: int)
    returns (to: nat, delete: bool, ghost k: nat)
    requires head.Valid() && q + 1 < |head.Nodes|
    requires eFrom == head.Contents[q] && to0 == head.Nodes[q + 1] && eTo0 == head.Contents[q + 1]
    requires |eFrom| <= n
    ensures 1 <= k <= |head.Contents| - q
    ensures forall j :: q <= j < q + k ==> head.Contents[j] == eFrom
    ensures q + k == |head.Contents| || head.Contents[q + k] != eFrom
    ensures to == At(head.Nodes, q + k)
    ensures delete <==> k > 1
  {
    var c := head.Contents;
    to, delete, k := to0, false, 1;
    var eTo := eTo0;
    StrNCmpExact(eFrom, eTo, n);
    while to != Head && StrNCmp(eFrom, eTo, n) == 0
      invariant 1 <= k <= |c| - q
      invariant forall j :: q <= j < q + k ==> c[j] == eFrom
      invariant to == At(head.Nodes, q + k)
      invariant to != Head ==> eTo == c[q + k]
      invariant to != Head ==> (StrNCmp(eFrom, eTo, n) == 0 <==> eFrom == eTo)
      invariant delete <==> k > 1
      decreases |c| - q - k
    {
      delete := true;
      assert head.next[head.Nodes[q + k]] == At(head.Nodes, q + k + 1);
      to := head.next[to];
      eTo := head.value[to];
      k := k + 1;
      if to != Head {
        assert head.value[head.Nodes[q + k]] == c[q + k];
        StrNCmpExact(eFrom, eTo, n);
      }
    }
  }

  /** The deletion loop of q_delete_dup: deletes every element from `from` up
      to, not including, `to`: the k elements from position q on. */
  method DeleteRun(head: ListHead, from0: nat, to: nat, ghost q: nat, ghost k: nat) returns (from: nat)
    requires head.Valid() && 1 <= k && q + k <= |head.Nodes|
    requires from0 == head.Nodes[q] && to == At(head.Nodes, q + k)
    modifies head
    ensures head.Valid()
    ensures head.Nodes == Cut(old(head.Nodes), q, k) && head.Contents == Cut(old(head.Contents), q, k)
    ensures from == to == At(head.Nodes, q)
    ensures head.OnlyDeletes()
  {
    ghost var nodes0, contents0, arena0 := head.Nodes, head.Contents, head.Snapshot();
    from := from0;
    var tmp := from;
    ghost var d := 0;
    assert Cut(nodes0, q, 0) == nodes0 && Cut(contents0, q, 0) == contents0;
    RunAvoidsEnd(nodes0, |head.next|, q, k);
    while from != to
      invariant head.Valid()
      invariant 0 <= d <= k
      invariant head.Nodes == Cut(nodes0, q, d)
      invariant head.Contents == Cut(contents0, q, d)
      invariant from == tmp == At(nodes0, q + d)
      invariant from == to <==> d == k
      invariant Trimmed(nodes0, arena0, head.Nodes, head.Snapshot())
      decreases k - d
    {
      ghost var nodes1, arena1 := head.Nodes, head.Snapshot();
      from, d := DeleteOfRun(head, tmp, nodes0, contents0, q, d, k);
      TrimmedTrans(nodes0, arena0, nodes1, arena1, head.Nodes, head.Snapshot());
      tmp := from;
    }
    AtOfSlice(nodes0, q, k, 0);
  }

  /** One turn of the deletion loop: with d of the k elements from position q
      of nodes0 deleted, the next one, at position q, is deleted too, making
      d' deleted, and from moves on to its successor. */
  method DeleteOfRun(head: ListHead, tmp: nat, ghost nodes0: seq<nat>, ghost contents0: seq<seq<char>>,
                     ghost q: nat, ghost d: nat, ghost k: nat) returns (from: nat, ghost d': nat)
    requires head.Valid() && |contents0| == |nodes0| && d < k && q + k <= |nodes0|
    requires forall j :: q <= j < q + k ==> nodes0[j] != At(nodes0, q + k)
    requires head.Nodes == Cut(nodes0, q, d) && head.Contents == Cut(contents0, q, d)
    requires tmp == At(nodes0, q + d)
    modifies head
    ensures head.Valid()
    ensures d' == d + 1 && d' <= k
    ensures head.Nodes == Cut(nodes0, q, d') && head.Contents == Cut(contents0, q, d')
    ensures from == At(nodes0, q + d')
    ensures from == At(nodes0, q + k) <==> d' == k
    ensures head.OnlyDeletes()
  {
    d' := d + 1;
    RunStep(nodes0, contents0, q, d, k);
    assert head.next[head.Nodes[q]] == At(head.Nodes, q + 1);
    from := head.next[tmp];
    DeleteElement(head, tmp, q);
  }

  /** No slot of a run of k positions from q is the slot just after the run. */
  lemma RunAvoidsEnd(nodes: seq<nat>, size: nat, q: nat, k: nat)
    requires InArena(nodes, size) && Distinct(nodes) && q + k <= |nodes|
    ensures forall j :: q <= j < q + k ==> nodes[j] != At(nodes, q + k)
  {
    forall j | q <= j < q + k
      ensures nodes[j] != At(nodes, q + k)
    {
      NotAtOther(nodes, size, j, q + k);
    }
  }

  /** The facts one turn of the deletion loop needs: with d of the k elements
      from position q cut out, the next one is at position q, its successor
      comes next, and deleting it cuts out one more. */
  lemma RunStep(nodes0: seq<nat>, contents0: seq<seq<char>>, q: nat, d: nat, k: nat)
    requires |contents0| == |nodes0| && d < k && q + k <= |nodes0|
    requires forall j :: q <= j < q + k ==> nodes0[j] != At(nodes0, q + k)
    ensures var nodes := Cut(nodes0, q, d);
            && q < |nodes| && nodes[q] == At(nodes0, q + d)
            && At(nodes, q + 1) == At(nodes0, q + d + 1)
            && nodes[..q] + nodes[q + 1..] == Cut(nodes0, q, d + 1)
    ensures var contents := Cut(contents0, q, d);
            contents[..q] + contents[q + 1..] == Cut(contents0, q, d + 1)
    ensures At(nodes0, q + d + 1) == At(nodes0, q + k) <==> d + 1 == k
  {
    AtOfSlice(nodes0, q, d, 0);
    AtOfSlice(nodes0, q, d, 1);
    SliceStep(nodes0, q, d);
    SliceStep(contents0, q, d);
  }

  /** Taking position q out of s[..q] + s[q + d..] gives s[..q] + s[q + d + 1..],
      and shifts every later position down by one. */
  lemma SliceStep<T>(s: seq<T>, q: nat, d: nat)
    requires q + d < |s|
    ensures var t := s[..q] + s[q + d..];
            t[..q] + t[q + 1..] == s[..q] + s[q + d + 1..]
  {
    var t := s[..q] + s[q + d..];
    assert t[..q] == s[..q];
    assert t[q + 1..] == s[q + d + 1..];
  }

  /** Inserting at the head and then removing from the head hands back the
      inserted string and leaves the queue as it was. */
  method InsertRemoveHead(head: ListHead, s: seq<char>) returns (e: Option<nat>)
    requires head.Valid() && NUL in s
    modifies head
    ensures head.Valid() && head.Contents == old(head.Contents)
    ensures e.Some? && e.value < |head.value| && head.value[e.value] == CStringOf(s)
  {
    var ok := InsertHead(head, s, true);
    e := RemoveHead(head, null, 0);
  }

  /** Inserting at the tail and then removing from the tail hands back the
      inserted string and leaves the queue as it was. */
  method InsertRemoveTail(head: ListHead, s: seq<char>) returns (e: Option<nat>)
    requires head.Valid() && NUL in s
    modifies head
    ensures head.Valid() && head.Contents == old(head.Contents)
    ensures e.Some? && e.value < |head.value| && head.value[e.value] == CStringOf(s)
  {
    var ok := InsertTail(head, s, true);
    e := RemoveTail(head, null, 0);
  }
}
