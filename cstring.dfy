/** The C library string functions the queue calls (strlen, strncpy, strncmp),
    over character buffers. A Dafny char stands for one C byte (a char of the
    C program), so every length and bound here counts bytes, as in C. A C
    string in memory is its bytes followed by one terminating NUL. */
module CString {

  const NUL: char := '\0'

  function Min(a: int, b: int): int { if a < b then a else b }

  /** A well-formed C string as stored: characters, then exactly one NUL at the end. */
  predicate IsCString(s: seq<char>) {
    |s| > 0 && s[|s| - 1] == NUL && NUL !in s[..|s| - 1]
  }

  /** strlen: the number of characters before the first NUL of the buffer. */
  function StrLen(buf: seq<char>): (n: nat)
    requires NUL in buf
    ensures n < |buf| && buf[n] == NUL
    ensures forall i :: 0 <= i < n ==> buf[i] != NUL
  {
    if buf[0] == NUL then 0
    else
      assert NUL in buf[1..] by { var k :| 0 <= k < |buf| && buf[k] == NUL; assert buf[1..][k - 1] == NUL; }
      1 + StrLen(buf[1..])
  }

  /** The C string a buffer holds: every character up to and including the first NUL. */
  function CStringOf(buf: seq<char>): (s: seq<char>)
    requires NUL in buf
    ensures IsCString(s) && |s| <= |buf| && s == buf[..|s|]
  {
    var n := StrLen(buf);
    assert buf[..n + 1][..n] == buf[..n];
    buf[..n + 1]
  }

  /** strncpy(dst, src, n): the n characters written to dst. The characters of src are
      copied up to its terminator, and the rest of the n positions are filled with NUL. */
  function StrNCpy(src: seq<char>, n: nat): (dst: seq<char>)
    requires NUL in src
    ensures |dst| == n
    ensures forall i :: 0 <= i < n && i < StrLen(src) ==> dst[i] == src[i]
    ensures forall i :: StrLen(src) <= i < n ==> dst[i] == NUL
    decreases n
  {
    if n == 0 then []
    else if src[0] == NUL then [NUL] + StrNCpy(src, n - 1)
    else
      assert NUL in src[1..] by { assert src[1..][StrLen(src) - 1] == NUL; }
      [src[0]] + StrNCpy(src[1..], n - 1)
  }

  /** strncmp(a, b, n) on two C strings: zero when they agree on their first n
      characters (stopping after a common terminator), otherwise the difference
      of the first two characters that differ. */
  function StrNCmp(a: seq<char>, b: seq<char>, n: nat): (r: int)
    requires IsCString(a) && IsCString(b)
    ensures a == b ==> r == 0
    decreases n
  {
    if n == 0 then 0
    else if a[0] != b[0] then a[0] as int - b[0] as int
    else if a[0] == NUL then 0
    else
      TailIsCString(a);
      TailIsCString(b);
      StrNCmp(a[1..], b[1..], n - 1)
  }

  /** Dropping a non-terminator first character leaves a C string. */
  lemma TailIsCString(s: seq<char>)
    requires IsCString(s) && s[0] != NUL
    ensures |s| >= 2 && IsCString(s[1..])
  {
    assert s[1..][..|s| - 2] == s[..|s| - 1][1..];
  }

  /** The length of a stored C string is one more than its strlen. */
  lemma {:induction false} CStringLength(s: seq<char>)
    requires IsCString(s)
    ensures NUL in s && StrLen(s) == |s| - 1
  {
    assert s[|s| - 1] == NUL;
    if s[0] != NUL {
      TailIsCString(s);
      CStringLength(s[1..]);
    }
  }

  /** strncmp is an exact equality test once its bound covers the whole of `a`,
      terminator included: no two different strings compare equal, whatever
      the length of `b`. */
  lemma {:induction false} StrNCmpExact(a: seq<char>, b: seq<char>, n: nat)
    requires IsCString(a) && IsCString(b) && |a| <= n
    ensures StrNCmp(a, b, n) == 0 <==> a == b
  {
    if a[0] != b[0] {
    } else if a[0] == NUL {
      assert NUL !in a[..|a| - 1] && NUL !in b[..|b| - 1];
      assert |a| == 1 && |b| == 1;
    } else {
      TailIsCString(a);
      TailIsCString(b);
      StrNCmpExact(a[1..], b[1..], n - 1);
      assert a == [a[0]] + a[1..] && b == [b[0]] + b[1..];
    }
  }

  /** A bound one short of that can make two different strings compare equal:
      "ab" and "abc" agree on their first two characters. */
  lemma StrNCmpShortBoundMatches()
    ensures var a, b := ['a', 'b', NUL], ['a', 'b', 'c', NUL];
            IsCString(a) && IsCString(b) && a != b && StrNCmp(a, b, |a| - 1) == 0
  {
    var a, b := ['a', 'b', NUL], ['a', 'b', 'c', NUL];
    assert a[..|a| - 1] == ['a', 'b'];
    assert b[..|b| - 1] == ['a', 'b', 'c'];
    assert a[1..] == ['b', NUL] && b[1..] == ['b', 'c', NUL];
    assert a[1..][1..] == [NUL] && b[1..][1..] == ['c', NUL];
    assert a[1..][..|a| - 2] == ['b'] && b[1..][..|b| - 2] == ['b', 'c'];
  }

  /** Copying strlen(src) + 1 characters with strncpy duplicates the C string exactly. */
  lemma WholeCopy(src: seq<char>)
    requires NUL in src
    ensures StrNCpy(src, StrLen(src) + 1) == CStringOf(src)
  {
    var n := StrLen(src);
    var d, c := StrNCpy(src, n + 1), CStringOf(src);
    assert c == src[..n + 1];
    forall i | 0 <= i < n + 1 ensures d[i] == c[i] {
    }
  }

  /** strlen is the index of the first NUL. */
  lemma FirstNul(buf: seq<char>, k: nat)
    requires k < |buf| && buf[k] == NUL
    requires forall i :: 0 <= i < k ==> buf[i] != NUL
    ensures NUL in buf && StrLen(buf) == k
  {
  }

  /** The buffer that q_remove_head / q_remove_tail leave behind: the first
      bufsize - 1 characters written by strncpy, then a NUL at bufsize - 1; the
      caller's positions from bufsize on are untouched. */
  predicate CopiedOut(after: seq<char>, before: seq<char>, src: seq<char>, bufsize: nat)
    requires NUL in src
  {
    && 1 <= bufsize <= |before| == |after|
    && after[..bufsize - 1] == StrNCpy(src, bufsize - 1)
    && after[bufsize - 1] == NUL
    && after[bufsize..] == before[bufsize..]
  }

  /** Reading the copied-out buffer back as a C string gives the payload
      truncated to at most bufsize - 1 characters. */
  lemma CopyOutReadsBack(src: seq<char>, before: seq<char>, after: seq<char>, bufsize: nat)
    requires IsCString(src) && CopiedOut(after, before, src, bufsize)
    ensures NUL in after && StrLen(after) == Min(|src| - 1, bufsize - 1)
    ensures after[..StrLen(after)] == src[..StrLen(after)]
  {
    CStringLength(src);
    var k := Min(|src| - 1, bufsize - 1);
    var w := StrNCpy(src, bufsize - 1);
    assert forall i :: 0 <= i < k ==> after[i] == w[i] == src[i];
    assert after[k] == NUL by {
      if k < bufsize - 1 { assert after[k] == w[k]; }
    }
    forall i | 0 <= i < k ensures after[i] != NUL {
      assert src[..|src| - 1][i] == src[i];
    }
    FirstNul(after, k);
  }

  /** strncpy into a caller's array: the first n positions receive StrNCpy(src, n),
      the others keep their contents. */
  method StrNCpyInto(dst: array<char>, src: seq<char>, n: nat)
    requires NUL in src && n <= dst.Length
    modifies dst
    ensures dst[..n] == StrNCpy(src, n) && dst[n..] == old(dst[n..])
  {
    var w := StrNCpy(src, n);
    forall i | 0 <= i < n {
      dst[i] := w[i];
    }
  }
}
