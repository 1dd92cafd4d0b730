/** What the queue operations do to the sequence of strings a queue holds,
    stated on plain sequences. */
module QueueSpec {

  /** The sequence with the element at index i taken out; the others keep their order. */
  function RemoveAt<T>(s: seq<T>, i: nat): (r: seq<T>)
    requires i < |s|
    ensures |r| == |s| - 1
    ensures forall j :: 0 <= j < i ==> r[j] == s[j]
    ensures forall j :: i <= j < |r| ==> r[j] == s[j + 1]
    ensures multiset(r) + multiset{s[i]} == multiset(s)
  {
    assert s == s[..i] + [s[i]] + s[i + 1..];
    s[..i] + s[i + 1..]
  }

  /** The middle position q_delete_mid removes from a queue of n elements:
      it has as many elements after it as before, or one fewer. */
  function MidIndex(n: nat): (m: nat)
    requires n > 0
    ensures m < n
    ensures 0 <= m - (n - 1 - m) <= 1
  {
    n / 2
  }

  /** The middle position is the only one with that balance. */
  lemma MidIndexUnique(n: nat, m: nat)
    requires m < n && 0 <= m - (n - 1 - m) <= 1
    ensures m == MidIndex(n)
  {
  }

  /** The length of the run of equal elements at the front of s. */
  function RunLength<T(==)>(s: seq<T>): (k: nat)
    requires |s| > 0
    ensures 1 <= k <= |s|
    ensures forall j :: 0 <= j < k ==> s[j] == s[0]
    ensures k == |s| || s[k] != s[0]
  {
    if |s| == 1 || s[1] != s[0] then 1
    else 1 + RunLength(s[1..])
  }

  /** The queue after duplicate removal: every maximal run of two or more equal
      adjacent elements is dropped, every run of one is kept, in order. */
  function DeleteDups<T(==)>(s: seq<T>): (r: seq<T>)
    decreases |s|
  {
    if s == [] then []
    else
      var k := RunLength(s);
      if k == 1 then [s[0]] + DeleteDups(s[1..]) else DeleteDups(s[k..])
  }

  /** s[i] has no equal neighbour: it is a run of length one. */
  predicate Isolated<T(==)>(s: seq<T>, i: nat)
    requires i < |s|
  {
    (i == 0 || s[i - 1] != s[i]) && (i == |s| - 1 || s[i + 1] != s[i])
  }

  /** The isolated elements of s at index i or later, in order: a reference
      definition of duplicate removal, element by element. */
  function KeepIsolated<T(==)>(s: seq<T>, i: nat): seq<T>
    requires i <= |s|
    decreases |s| - i
  {
    if i == |s| then []
    else (if Isolated(s, i) then [s[i]] else []) + KeepIsolated(s, i + 1)
  }

  /** A run found by its own description has the length RunLength gives it. */
  lemma RunLengthIs<T>(s: seq<T>, k: nat)
    requires 1 <= k <= |s|
    requires forall j :: 0 <= j < k ==> s[j] == s[0]
    requires k == |s| || s[k] != s[0]
    ensures RunLength(s) == k
  {
  }

  /** Duplicate removal never looks across a boundary between two different
      elements: it can be done on each side separately. */
  lemma {:induction false} DeleteDupsSplit<T>(u: seq<T>, v: seq<T>)
    requires u == [] || v == [] || u[|u| - 1] != v[0]
    ensures DeleteDups(u + v) == DeleteDups(u) + DeleteDups(v)
    decreases |u|
  {
    if u == [] {
      assert u + v == v;
    } else if v == [] {
      assert u + v == u;
    } else {
      var s, k := u + v, RunLength(u);
      RunOfConcat(u, v, k);
      var w := u[k..];
      assert w == [] || w[|w| - 1] == u[|u| - 1];
      DeleteDupsSplit(w, v);
      DeleteDupsUnfold(s);
      DeleteDupsUnfold(u);
      var h := if k == 1 then [u[0]] else [];
      assert s[0] == u[0];
      calc {
        DeleteDups(s);
        h + DeleteDups(w + v);
        h + (DeleteDups(w) + DeleteDups(v));
        { ConcatAssoc(h, DeleteDups(w), DeleteDups(v)); }
        (h + DeleteDups(w)) + DeleteDups(v);
        DeleteDups(u) + DeleteDups(v);
      }
    }
  }

  lemma ConcatAssoc<T>(a: seq<T>, b: seq<T>, c: seq<T>)
    ensures a + (b + c) == (a + b) + c
  {
  }

  /** Duplicate removal of a non-empty sequence, one front run at a time. */
  lemma DeleteDupsUnfold<T>(s: seq<T>)
    requires |s| > 0
    ensures DeleteDups(s) == (if RunLength(s) == 1 then [s[0]] else []) + DeleteDups(s[RunLength(s)..])
  {
    var k := RunLength(s);
    if k == 1 {
      assert s[1..] == s[k..];
    } else {
      assert [] + DeleteDups(s[k..]) == DeleteDups(s[k..]);
    }
  }

  /** The front run of u is the front run of u + v when u ends on an element
      different from the first of v. */
  lemma RunOfConcat<T>(u: seq<T>, v: seq<T>, k: nat)
    requires u != [] && v != [] && u[|u| - 1] != v[0] && k == RunLength(u)
    ensures RunLength(u + v) == k && (u + v)[k..] == u[k..] + v
  {
    var s := u + v;
    assert forall j :: 0 <= j < k ==> s[j] == s[0];
    if k == |u| {
      assert s[k] == v[0] != u[k - 1] == s[0];
    } else {
      assert s[k] == u[k];
    }
    RunLengthIs(s, k);
  }

  /** s with the d elements from position q cut out. */
  function Cut<T>(s: seq<T>, q: nat, d: nat): (r: seq<T>)
    requires q + d <= |s|
    ensures |r| == |s| - d
    ensures forall j :: 0 <= j < q ==> r[j] == s[j]
    ensures forall j :: q <= j < |r| ==> r[j] == s[j + d]
  {
    s[..q] + s[q + d..]
  }

  /** One step of duplicate removal from the front: R is what is kept of
      s[..p], the queue holds R followed by s[p..], and its elements from
      position |R| on start with a maximal run of length k. Keeping that run
      when k is 1, and cutting it out otherwise, leaves in the queue what is
      kept of s[..p + k] followed by s[p + k..]. */
  lemma DeleteDupsRunStep<T>(s: seq<T>, p: nat, R: seq<T>, q: nat, c0: seq<T>, k: nat, c1: seq<T>)
    returns (r: seq<T>, p': nat)
    requires p < |s| && (p == 0 || s[p - 1] != s[p])
    requires R == DeleteDups(s[..p]) && c0 == R + s[p..] && q == |R|
    requires 1 <= k <= |c0| - q
    requires forall j :: q <= j < q + k ==> c0[j] == c0[q]
    requires q + k == |c0| || c0[q + k] != c0[q]
    requires c1 == if k == 1 then c0 else Cut(c0, q, k)
    ensures p' == p + k && p' <= |s| && (p' == |s| || s[p' - 1] != s[p'])
    ensures r == DeleteDups(s[..p']) && c1 == r + s[p'..]
    ensures k == 1 ==> |r| == q + k
    ensures k != 1 ==> |r| == q
  {
    p' := p + k;
    RunOfSuffix(s, p, p', R, c0, k);
    DeleteDupsPrefixStep(s, p, p');
    r := R + (if k == 1 then [s[p]] else []);
    KeepOrCut(s, p, p', R, c0, k, c1);
  }

  /** A maximal run of length k at position |R| of R + s[p..] is the maximal
      run s[p..e] of s. */
  lemma RunOfSuffix<T>(s: seq<T>, p: nat, e: nat, R: seq<T>, c0: seq<T>, k: nat)
    requires p < |s| && c0 == R + s[p..] && 1 <= k <= |c0| - |R| && e == p + k
    requires forall j :: |R| <= j < |R| + k ==> c0[j] == c0[|R|]
    requires |R| + k == |c0| || c0[|R| + k] != c0[|R|]
    ensures e <= |s|
    ensures forall j :: p <= j < e ==> s[j] == s[p]
    ensures e == |s| || s[e - 1] != s[e]
  {
    assert c0[|R|] == s[p];
    forall j | p <= j < e
      ensures s[j] == s[p]
    {
      assert c0[|R| + j - p] == s[j];
    }
    if e < |s| {
      assert c0[|R| + k] == s[e];
    }
  }

  /** Extending a prefix that ends at a boundary by the run s[p..e] that
      follows keeps its one element when the run has length one, and adds
      nothing otherwise. */
  lemma DeleteDupsPrefixStep<T>(s: seq<T>, p: nat, e: nat)
    requires p < e <= |s|
    requires p == 0 || s[p - 1] != s[p]
    requires forall j :: p <= j < e ==> s[j] == s[p]
    ensures DeleteDups(s[..e]) == DeleteDups(s[..p]) + (if e == p + 1 then [s[p]] else [])
  {
    var run := s[p..e];
    assert forall j :: 0 <= j < |run| ==> run[j] == s[p + j];
    assert s[..e] == s[..p] + run;
    DeleteDupsSplit(s[..p], run);
    DeleteDupsOfRun(run);
  }

  /** Keeping a run of one, or cutting out a longer run of k, at position |R|
      of R + s[p..], where the run ends at e in s. */
  lemma KeepOrCut<T>(s: seq<T>, p: nat, e: nat, R: seq<T>, c0: seq<T>, k: nat, c1: seq<T>)
    requires 1 <= k && e == p + k && e <= |s| && c0 == R + s[p..]
    requires c1 == if k == 1 then c0 else Cut(c0, |R|, k)
    ensures c1 == R + (if k == 1 then [s[p]] else []) + s[e..]
  {
    if k == 1 {
      assert s[p..] == [s[p]] + s[e..];
    } else {
      assert c0[..|R|] == R;
      assert c0[|R| + k..] == s[e..];
    }
  }

  /** When the scan stops, with at most one element of s left after p, the
      queue holds exactly what duplicate removal keeps of s. */
  lemma DeleteDupsFinish<T>(s: seq<T>, p: nat, R: seq<T>, c: seq<T>)
    requires p <= |s| <= p + 1 && (p == 0 || p == |s| || s[p - 1] != s[p])
    requires R == DeleteDups(s[..p]) && c == R + s[p..]
    ensures c == DeleteDups(s)
  {
    if p == |s| {
      assert s[..p] == s;
      assert c == R;
    } else if p == 0 {
      DeleteDupsOfRun(s);
      assert c == s;
    } else {
      assert s == s[..p] + s[p..];
      DeleteDupsSplit(s[..p], s[p..]);
      DeleteDupsOfRun(s[p..]);
    }
  }

  /** A single run is kept when it has one element and dropped when it has more. */
  lemma DeleteDupsOfRun<T>(s: seq<T>)
    requires |s| > 0 && forall j :: 0 <= j < |s| ==> s[j] == s[0]
    ensures DeleteDups(s) == if |s| == 1 then s else []
  {
    RunLengthIs(s, |s|);
    assert s[|s|..] == [];
  }

  /** Skipping indices that are not isolated adds nothing. */
  lemma {:induction false} KeepIsolatedSkip<T>(s: seq<T>, i: nat, k: nat)
    requires i <= k <= |s|
    requires forall j :: i <= j < k ==> !Isolated(s, j)
    ensures KeepIsolated(s, i) == KeepIsolated(s, k)
    decreases k - i
  {
    if i < k {
      assert !Isolated(s, i);
      KeepIsolatedSkip(s, i + 1, k);
      assert [] + KeepIsolated(s, i + 1) == KeepIsolated(s, i + 1);
    }
  }

  /** Duplicate removal keeps exactly the isolated elements, in their order. */
  lemma DeleteDupsKeepsIsolated<T>(s: seq<T>)
    ensures DeleteDups(s) == KeepIsolated(s, 0)
  {
    DeleteDupsFrom(s, 0);
  }

  /** The same, for the suffix that starts at a run boundary i. */
  lemma {:induction false} DeleteDupsFrom<T>(s: seq<T>, i: nat)
    requires i <= |s|
    requires i == 0 || i == |s| || s[i - 1] != s[i]
    ensures DeleteDups(s[i..]) == KeepIsolated(s, i)
    decreases |s| - i
  {
    if i < |s| {
      var e := RunFrom(s, i);
      DeleteDupsFrom(s, e);
    } else {
      assert s[i..] == [];
    }
  }

  /** What duplicate removal keeps of the run s[i..e]: its element when the
      run has length one, nothing otherwise. */
  function KeptOfRun<T>(s: seq<T>, i: nat, e: nat): seq<T>
    requires i < |s|
  {
    if e == i + 1 then [s[i]] else []
  }

  /** The run s[i..e] at boundary i contributes the same to both definitions:
      its element when it has length one, nothing otherwise. */
  lemma RunFrom<T>(s: seq<T>, i: nat) returns (e: nat)
    requires i < |s| && (i == 0 || s[i - 1] != s[i])
    ensures i < e <= |s| && (e == |s| || s[e - 1] != s[e])
    ensures DeleteDups(s[i..]) == KeptOfRun(s, i, e) + DeleteDups(s[e..])
    ensures KeepIsolated(s, i) == KeptOfRun(s, i, e) + KeepIsolated(s, e)
  {
    var k := RunLength(s[i..]);
    e := i + k;
    if k == 1 {
      KeptFrom(s, i, e);
    } else {
      DroppedFrom(s, i, k, e);
    }
  }

  /** A run of one at boundary i, ending at e, is kept by both definitions. */
  lemma KeptFrom<T>(s: seq<T>, i: nat, e: nat)
    requires i < |s| && (i == 0 || s[i - 1] != s[i]) && RunLength(s[i..]) == 1 && e == i + 1
    ensures DeleteDups(s[i..]) == KeptOfRun(s, i, e) + DeleteDups(s[e..])
    ensures KeepIsolated(s, i) == KeptOfRun(s, i, e) + KeepIsolated(s, e)
    ensures e == |s| || s[e - 1] != s[e]
  {
    var t := s[i..];
    assert t[1..] == s[e..];
    assert e < |s| ==> s[e] == t[1];
    assert Isolated(s, i);
  }

  /** A run of k >= 2 at boundary i, ending at e, is dropped by both definitions. */
  lemma DroppedFrom<T>(s: seq<T>, i: nat, k: nat, e: nat)
    requires i < |s| && (i == 0 || s[i - 1] != s[i]) && k == RunLength(s[i..]) && k != 1 && e == i + k
    ensures i < e <= |s|
    ensures DeleteDups(s[i..]) == KeptOfRun(s, i, e) + DeleteDups(s[e..])
    ensures KeepIsolated(s, i) == KeptOfRun(s, i, e) + KeepIsolated(s, e)
    ensures e == |s| || s[e - 1] != s[e]
  {
    var t := s[i..];
    assert t[k..] == s[e..];
    RunNotIsolated(s, i, k);
    KeepIsolatedSkip(s, i, e);
    assert e < |s| ==> s[e] == t[k] && s[e - 1] == t[k - 1];
    assert [] + DeleteDups(s[e..]) == DeleteDups(s[e..]);
    assert [] + KeepIsolated(s, e) == KeepIsolated(s, e);
  }

  /** No element of a run of two or more is isolated. */
  lemma RunNotIsolated<T>(s: seq<T>, i: nat, k: nat)
    requires 2 <= k && i + k <= |s|
    requires forall j :: 0 <= j < k ==> s[i..][j] == s[i..][0]
    ensures forall j :: i <= j < i + k ==> !Isolated(s, j)
  {
    forall j | i <= j < i + k ensures !Isolated(s, j) {
      assert s[j] == s[i..][j - i];
      if j + 1 < i + k {
        assert s[j + 1] == s[i..][j + 1 - i];
      } else {
        assert s[j - 1] == s[i..][j - 1 - i];
      }
    }
  }

  /** A sequence with no two equal neighbours is left as it is. */
  lemma {:induction false} DeleteDupsNoRuns<T>(s: seq<T>)
    requires forall j :: 0 <= j < |s| - 1 ==> s[j] != s[j + 1]
    ensures DeleteDups(s) == s
  {
    if s != [] {
      RunLengthIs(s, 1);
      DeleteDupsNoRuns(s[1..]);
    }
  }

  /** The example of the sorted list [a, a, b, c, c], which becomes [b]. */
  lemma DeleteDupsExample<T>(a: T, b: T, c: T)
    requires a != b && b != c && a != c
    ensures DeleteDups([a, a, b, c, c]) == [b]
  {
    var s := [a, a, b, c, c];
    DeleteDupsSplit([a, a], [b, c, c]);
    DeleteDupsSplit([b], [c, c]);
    DeleteDupsOfRun([a, a]);
    DeleteDupsOfRun([b]);
    DeleteDupsOfRun([c, c]);
    assert s == [a, a] + [b, c, c];
    assert [b, c, c] == [b] + [c, c];
  }
}
