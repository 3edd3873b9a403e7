/** Network-order integers and the text rules the wire formats lean on. */
module Wire {
  import opened Delimiters

  function U16(n: nat): bytes
    requires n < 0x1_0000
  {
    [n / 0x100, n % 0x100]
  }

  function U32(n: nat): bytes
    requires n < 0x1_0000_0000
  {
    U16(n / 0x1_0000) + U16(n % 0x1_0000)
  }

  function Int16(b: bytes, at: nat): nat
    requires at + 2 <= |b|
  {
    (b[at] as int) * 0x100 + b[at + 1] as int
  }

  function Int32(b: bytes, at: nat): (n: nat)
    requires at + 4 <= |b|
    ensures n < 0x1_0000_0000
  {
    Int16(b, at) * 0x1_0000 + Int16(b, at + 2)
  }

  lemma Int16Of(n: nat, b: bytes, at: nat)
    requires n < 0x1_0000 && at + 2 <= |b| && b[at..at + 2] == U16(n)
    ensures Int16(b, at) == n
  {
    assert b[at] == b[at..at + 2][0] && b[at + 1] == b[at..at + 2][1];
  }

  /** Reading an integer back, wherever it stands. */
  lemma Int32Of(n: nat, b: bytes, at: nat)
    requires n < 0x1_0000_0000 && at + 4 <= |b| && b[at..at + 4] == U32(n)
    ensures Int32(b, at) == n
  {
    assert b[at..at + 2] == b[at..at + 4][..2] == U16(n / 0x1_0000);
    assert b[at + 2..at + 4] == b[at..at + 4][2..] == U16(n % 0x1_0000);
    Int16Of(n / 0x1_0000, b, at);
    Int16Of(n % 0x1_0000, b, at + 2);
  }

  lemma Int32Prefix(a: bytes, b: bytes, at: nat)
    requires at + 4 <= |a|
    ensures Int32(a + b, at) == Int32(a, at)
  {
  }

  function Repeat(s: bytes, n: nat): bytes {
    if n == 0 then [] else s + Repeat(s, n - 1)
  }

  lemma {:induction false} RepeatSum(s: bytes, n: nat, m: nat)
    ensures Repeat(s, n + m) == Repeat(s, n) + Repeat(s, m)
  {
    if n == 0 {
      assert [] + Repeat(s, m) == Repeat(s, m);
    } else {
      RepeatSum(s, n - 1, m);
      assert s + (Repeat(s, n - 1) + Repeat(s, m)) == (s + Repeat(s, n - 1)) + Repeat(s, m);
    }
  }

  /** No zero byte before the first one found. */
  lemma NoZero(s: bytes, n: nat)
    requires n <= |s| && forall k :: 0 <= k < n ==> !At(s, [0], k)
    ensures 0 !in s[..n]
  {
    forall k | 0 <= k < n ensures s[k] != 0 {
      assert s[k..k + 1] == [s[k]] && !At(s, [0], k);
    }
  }

  /** What stands before the first zero byte and what stands after it: Python's `partition`. */
  function Partition(s: bytes): (r: (bytes, bytes))
    ensures 0 !in r.0
    ensures s == r.0 + [0] + r.1 || (s == r.0 && r.1 == [])
  {
    var i := Find(s, [0]);
    if i < 0 then
      NoZero(s, |s|);
      assert s[..|s|] == s;
      (s, [])
    else
      NoZero(s, i);
      assert s[i..i + 1] == [s[i]];
      (s[..i], s[i + 1..])
  }

  predicate Continues(s: bytes, at: nat, low: byte, high: byte) {
    at < |s| && low <= s[at] <= high
  }

  /** The length of the UTF-8 character at the front, 0 when there is none (section 4 of RFC 3629). */
  function CharLength(s: bytes): (n: nat)
    ensures n <= |s|
  {
    if s == [] then 0
    else if s[0] < 0x80 then 1
    else if 0xC2 <= s[0] <= 0xDF && Continues(s, 1, 0x80, 0xBF) then 2
    else if 0xE0 <= s[0] <= 0xEF
         && Continues(s, 1, if s[0] == 0xE0 then 0xA0 else 0x80, if s[0] == 0xED then 0x9F else 0xBF)
         && Continues(s, 2, 0x80, 0xBF) then 3
    else if 0xF0 <= s[0] <= 0xF4
         && Continues(s, 1, if s[0] == 0xF0 then 0x90 else 0x80, if s[0] == 0xF4 then 0x8F else 0xBF)
         && Continues(s, 2, 0x80, 0xBF) && Continues(s, 3, 0x80, 0xBF) then 4
    else 0
  }

  /** Whether `decode` succeeds. Text is then held as the bytes it came from. */
  predicate IsUtf8(s: bytes)
    decreases |s|
  {
    s == [] || (CharLength(s) > 0 && IsUtf8(s[CharLength(s)..]))
  }

  /** The length of the white-space character at the front: what `str.lstrip` drops. */
  function SpaceLength(s: bytes): (n: nat)
    ensures n <= |s|
  {
    if s == [] then 0
    else if 9 <= s[0] <= 13 || 28 <= s[0] <= 32 then 1
    else if |s| >= 2 && s[0] == 0xC2 && s[1] in {0x85, 0xA0} then 2
    else if |s| >= 3 && s[..3] in {[0xE1, 0x9A, 0x80], [0xE2, 0x81, 0x9F], [0xE3, 0x80, 0x80]} then 3
    else if |s| >= 3 && s[0] == 0xE2 && s[1] == 0x80
         && (0x80 <= s[2] <= 0x8A || s[2] in {0xA8, 0xA9, 0xAF}) then 3
    else 0
  }

  function StripText(s: bytes): bytes
    decreases |s|
  {
    if SpaceLength(s) == 0 then s else StripText(s[SpaceLength(s)..])
  }

  /** What `bytes.lstrip` drops. */
  function StripBytes(s: bytes): bytes {
    if s != [] && (9 <= s[0] <= 13 || s[0] == 32) then StripBytes(s[1..]) else s
  }

  function Lower(b: byte): byte {
    if 65 <= b <= 90 then b + 32 else b
  }

  /** Starts, in either case, with `select`. */
  predicate Selects(s: bytes) {
    |s| >= 6 && [Lower(s[0]), Lower(s[1]), Lower(s[2]), Lower(s[3]), Lower(s[4]), Lower(s[5])]
                == [115, 101, 108, 101, 99, 116]
  }
}
