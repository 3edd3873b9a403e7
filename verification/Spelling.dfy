/** Bytes written as text. */
module Spelling {
  import opened Delimiters

  /** The bytes of a text in ASCII. */
  function Text(s: string): (b: bytes)
    requires forall i :: 0 <= i < |s| ==> s[i] as int < 128
    ensures |b| == |s|
  {
    seq(|s|, i requires 0 <= i < |s| => s[i] as int)
  }
}
