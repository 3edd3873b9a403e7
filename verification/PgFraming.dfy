/** The framing loop inverts the encoder and does not see where chunks end. */
module PgFraming {
  import opened Delimiters
  import opened Wire
  import opened PgModel

  lemma FrameAppend(a: bytes, b: bytes)
    requires FrameSize(a) > 0
    ensures FrameSize(a + b) == FrameSize(a) && FrameOf(a + b) == FrameOf(a)
    ensures (a + b)[FrameSize(a)..] == a[FrameSize(a)..] + b
  {
    Int32Prefix(a, b, 1);
    if FrameSize(a) >= 5 {
      assert (a + b)[5..FrameSize(a)] == a[5..FrameSize(a)];
    }
  }

  lemma FramesFirst(b: bytes)
    requires FrameSize(b) > 0
    ensures Frames(b).0 == [FrameOf(b)] + Frames(b[FrameSize(b)..]).0
    ensures Frames(b).1 == Frames(b[FrameSize(b)..]).1
  {
  }

  lemma ConsAppend<T>(x: T, xs: seq<T>, ys: seq<T>)
    ensures [x] + (xs + ys) == ([x] + xs) + ys
  {
  }

  /** Cutting a stream anywhere and carrying the remainder over finds the same frames. */
  lemma {:induction false} FramesAppend(a: bytes, b: bytes)
    ensures Frames(a + b).0 == Frames(a).0 + Frames(Frames(a).1 + b).0
    ensures Frames(a + b).1 == Frames(Frames(a).1 + b).1
    decreases |a|
  {
    var n := FrameSize(a);
    if n == 0 {
      assert Frames(a) == ([], a);
      assert [] + Frames(a + b).0 == Frames(a + b).0;
    } else {
      FrameAppend(a, b);
      FramesFirst(a);
      FramesFirst(a + b);
      FramesAppend(a[n..], b);
      ConsAppend(FrameOf(a), Frames(a[n..]).0, Frames(Frames(a).1 + b).0);
    }
  }

  lemma MessageFrame(f: Frame, b: bytes)
    requires Sendable(f)
    ensures var m := Message(f.kind, f.payload);
            FrameSize(m + b) == |m| && FrameOf(m + b) == f && (m + b)[|m|..] == b
  {
    var m := Message(f.kind, f.payload);
    assert (m + b)[1..5] == U32(|f.payload| + 4);
    Int32Of(|f.payload| + 4, m + b, 1);
    assert (m + b)[5..|m|] == f.payload;
  }

  /** The framing loop recovers exactly the frames that were sent. */
  lemma {:induction false} FramesInvertEncode(fs: seq<Frame>, b: bytes)
    requires forall f :: f in fs ==> Sendable(f)
    ensures Frames(Encode(fs) + b) == (fs + Frames(b).0, Frames(b).1)
  {
    if fs == [] {
      assert [] + b == b && [] + Frames(b).0 == Frames(b).0;
    } else {
      var f := fs[0];
      assert Sendable(f);
      var m, rest := Message(f.kind, f.payload), Encode(fs[1..]) + b;
      assert Encode(fs) + b == m + rest;
      MessageFrame(f, rest);
      FramesFirst(m + rest);
      FramesInvertEncode(fs[1..], b);
      ConsAppend(f, fs[1..], Frames(b).0);
      assert [f] + fs[1..] == fs;
    }
  }

  lemma FrameTake(b: bytes, n: nat)
    requires FrameSize(b) > 0 && 5 <= n <= |b| && FrameSize(b) <= n
    ensures FrameSize(b[..n]) == FrameSize(b) && FrameOf(b[..n]) == FrameOf(b)
  {
    assert b == b[..n] + b[n..];
    Int32Prefix(b[..n], b[n..], 1);
    FrameAppend(b[..n], b[n..]);
  }

  /** Where to cut so that the first `k` frames arrive whole and the next one does not. A frame
      that declares fewer than its own four length bytes is read once five bytes are there and takes
      fewer, so the cut leaves four bytes over. */
  lemma {:induction false} CutBefore(b: bytes, k: nat) returns (n: nat)
    requires k < |Frames(b).0|
    ensures 4 <= n <= |b| && Frames(b[..n]).0 == Frames(b).0[..k]
    decreases |b|
  {
    var size := FrameSize(b);
    FramesFirst(b);
    if k == 0 {
      n := 4;
    } else {
      var m := CutBefore(b[size..], k - 1);
      n := size + m;
      FrameTake(b, n);
      FramesFirst(b[..n]);
      assert b[..n][size..] == b[size..][..m];
      var fs := Frames(b[size..]).0;
      assert ([FrameOf(b)] + fs)[..k] == [FrameOf(b)] + fs[..k - 1];
    }
  }
}
