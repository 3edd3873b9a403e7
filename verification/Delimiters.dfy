/** Bytes, and the search for a delimiter in a byte stream that arrives in pieces. */
module Delimiters {

  type byte = b: int | 0 <= b < 256

  type bytes = seq<byte>

  /** The pattern stands at position `i`. */
  predicate At(s: bytes, pat: bytes, i: int) {
    0 <= i && i + |pat| <= |s| && s[i..i + |pat|] == pat
  }

  /** The leftmost position at or after `i`, or -1: Python's `find`. */
  function FindFrom(s: bytes, pat: bytes, i: nat): (r: int)
    ensures r >= 0 ==> i <= r && At(s, pat, r) && forall j :: i <= j < r ==> !At(s, pat, j)
    ensures r < 0 ==> r == -1 && forall j :: i <= j ==> !At(s, pat, j)
    decreases |s| - i
  {
    if i + |pat| > |s| then -1
    else if At(s, pat, i) then i
    else FindFrom(s, pat, i + 1)
  }

  function Find(s: bytes, pat: bytes): int {
    FindFrom(s, pat, 0)
  }

  /** Leftmost occurrences, one after the other without overlap: how many, and what follows the last. */
  function Scan(s: bytes, pat: bytes): (r: (nat, bytes))
    requires pat != []
    decreases |s|
  {
    var i := Find(s, pat);
    if i < 0 then (0, s) else
    var (n, rest) := Scan(s[i + |pat|..], pat);
    (n + 1, rest)
  }

  lemma AtAppend(s: bytes, t: bytes, pat: bytes, i: int)
    requires At(s, pat, i)
    ensures At(s + t, pat, i)
  {
    assert (s + t)[i..i + |pat|] == s[i..i + |pat|];
  }

  lemma AtPrefix(s: bytes, t: bytes, pat: bytes, i: int)
    requires At(s + t, pat, i) && i + |pat| <= |s|
    ensures At(s, pat, i)
  {
    assert (s + t)[i..i + |pat|] == s[i..i + |pat|];
  }

  lemma AtDrop(s: bytes, k: nat, pat: bytes, i: int)
    requires k <= |s| && i >= 0
    ensures At(s[k..], pat, i) <==> At(s, pat, k + i)
  {
    if k + i + |pat| <= |s| {
      assert s[k..][i..i + |pat|] == s[k + i..k + i + |pat|];
    }
  }

  lemma FindAppend(s: bytes, t: bytes, pat: bytes)
    requires Find(s, pat) >= 0
    ensures Find(s + t, pat) == Find(s, pat)
  {
    var i, j := Find(s, pat), Find(s + t, pat);
    AtAppend(s, t, pat, i);
    if 0 <= j < i {
      AtPrefix(s, t, pat, j);
    }
  }

  lemma ScanPast(s: bytes, pat: bytes)
    requires pat != [] && Find(s, pat) >= 0
    ensures Find(s, pat) + |pat| <= |s|
    ensures Scan(s, pat).0 == Scan(s[Find(s, pat) + |pat|..], pat).0 + 1
    ensures Scan(s, pat).1 == Scan(s[Find(s, pat) + |pat|..], pat).1
  {
  }

  /** However a stream is cut, scanning the pieces with the remainder carried over counts the same
      delimiters and leaves the same remainder as scanning it whole. */
  lemma {:induction false} ScanAppend(s: bytes, t: bytes, pat: bytes)
    requires pat != []
    ensures Scan(s + t, pat).0 == Scan(s, pat).0 + Scan(Scan(s, pat).1 + t, pat).0
    ensures Scan(s + t, pat).1 == Scan(Scan(s, pat).1 + t, pat).1
    decreases |s|
  {
    var i := Find(s, pat);
    if i >= 0 {
      FindAppend(s, t, pat);
      ScanPast(s, pat);
      ScanPast(s + t, pat);
      assert (s + t)[i + |pat|..] == s[i + |pat|..] + t;
      ScanAppend(s[i + |pat|..], t, pat);
    }
  }

  lemma {:induction false} ScanRest(s: bytes, pat: bytes)
    requires pat != []
    ensures Find(Scan(s, pat).1, pat) < 0
    decreases |s|
  {
    if Find(s, pat) >= 0 {
      ScanPast(s, pat);
      ScanRest(s[Find(s, pat) + |pat|..], pat);
    }
  }

  /** Bytes in which no delimiter starts can be skipped. */
  lemma ScanSkip(s: bytes, k: nat, pat: bytes)
    requires pat != [] && k <= |s| && forall i :: 0 <= i < k ==> !At(s, pat, i)
    ensures Scan(s, pat).0 == Scan(s[k..], pat).0
  {
    var i, j := Find(s, pat), Find(s[k..], pat);
    if i >= 0 {
      AtDrop(s, k, pat, i - k);
      assert j >= 0;
    }
    if j >= 0 {
      AtDrop(s, k, pat, j);
      assert i >= 0;
      if i - k < j { AtDrop(s, k, pat, i - k); }
      assert i == k + j;
      assert s[k..][j + |pat|..] == s[i + |pat|..];
    }
  }

  /** The rightmost position below `i`, or -1: Python's `rfind`. */
  function RFindBelow(s: bytes, pat: bytes, i: nat): (r: int)
    ensures r >= 0 ==> r < i && At(s, pat, r) && forall j :: r < j < i ==> !At(s, pat, j)
    ensures r < 0 ==> forall j :: 0 <= j < i ==> !At(s, pat, j)
  {
    if i == 0 then -1 else if At(s, pat, i - 1) then i - 1 else RFindBelow(s, pat, i - 1)
  }

  function RFind(s: bytes, pat: bytes): int {
    RFindBelow(s, pat, |s| + 1)
  }

  /** Two occurrences never overlap. */
  predicate Borderless(pat: bytes) {
    forall k :: 0 < k < |pat| ==> pat[k] != pat[0]
  }

  lemma AtByte(s: bytes, pat: bytes, i: int, k: int)
    requires At(s, pat, i)
    ensures 0 <= k < |pat| ==> s[i + k] == pat[k]
  {
    var window := s[i..i + |pat|];
    assert 0 <= k < |pat| ==> window[k] == s[i + k];
  }

  lemma Disjoint(s: bytes, pat: bytes, i: int, j: int)
    requires pat != [] && Borderless(pat) && At(s, pat, i) && At(s, pat, j) && i < j
    ensures i + |pat| <= j
  {
    AtByte(s, pat, i, j - i);
    AtByte(s, pat, j, 0);
  }

  lemma DropDrop(s: bytes, k: nat, m: nat)
    requires k + m <= |s|
    ensures s[k..][m..] == s[k + m..]
  {
  }

  /** Past the first occurrence the rightmost one is where it was, unless the first is the only one. */
  lemma LastPast(s: bytes, pat: bytes)
    requires pat != [] && Borderless(pat) && Find(s, pat) >= 0
    ensures var k := Find(s, pat) + |pat|;
            k <= |s| && RFind(s, pat) == if RFind(s[k..], pat) < 0 then k - |pat| else k + RFind(s[k..], pat)
  {
    var i, last := Find(s, pat), RFind(s, pat);
    var k := i + |pat|;
    var j := RFind(s[k..], pat);
    if last > i {
      Disjoint(s, pat, i, last);
      AtDrop(s, k, pat, last - k);
    }
    if j >= 0 { AtDrop(s, k, pat, j); }
  }

  /** For a delimiter that cannot overlap itself, what follows the rightmost occurrence is what the
      left-to-right scan leaves. */
  lemma {:induction false} LastDelimiter(s: bytes, pat: bytes)
    requires pat != [] && Borderless(pat)
    ensures Scan(s, pat).0 > 0 <==> RFind(s, pat) >= 0
    ensures Scan(s, pat).0 > 0 ==> RFind(s, pat) + |pat| <= |s| && Scan(s, pat).1 == s[RFind(s, pat) + |pat|..]
    decreases |s|
  {
    if Find(s, pat) >= 0 {
      var k := Find(s, pat) + |pat|;
      ScanPast(s, pat);
      LastPast(s, pat);
      LastDelimiter(s[k..], pat);
      LastShifts(s, k, |pat|, RFind(s[k..], pat), Scan(s[k..], pat).1);
    }
  }

  lemma LastShifts(s: bytes, k: nat, n: nat, j: int, rest: bytes)
    requires k <= |s| && 0 <= n && (j >= 0 ==> j + n <= |s| - k && rest == s[k..][j + n..])
    ensures j >= 0 ==> k + j + n <= |s| && rest == s[k + j + n..]
  {
    if j >= 0 { DropDrop(s, k, j + n); }
  }
}
