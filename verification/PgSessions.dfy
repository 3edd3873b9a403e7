/** Sessions of the general parser: what the whole stream says, whatever the chunks. */
module PgSessions {
  import opened Delimiters
  import opened Streams
  import opened Wire
  import opened PgModel
  import opened PgFraming

  lemma Plus<T>(x: seq<T>, y: seq<T>, z: seq<T>)
    ensures x + (y + z) == (x + y) + z
  {
  }

  lemma Nothing(x: bytes)
    ensures [] + x == x
  {
  }

  lemma {:induction false} PayloadsAppend(a: seq<Frame>, f: Frame, kind: byte)
    ensures Payloads(a + [f], kind) == Payloads(a, kind) + (if f.kind == kind then [f.payload] else [])
  {
    if a == [] {
      assert a + [f] == [f];
    } else {
      assert (a + [f])[0] == a[0] && (a + [f])[1..] == a[1..] + [f];
      PayloadsAppend(a[1..], f, kind);
      Plus(if a[0].kind == kind then [a[0].payload] else [], Payloads(a[1..], kind),
           if f.kind == kind then [f.payload] else []);
    }
  }

  lemma FeedFirst(fast: bool, s: Session, chunks: seq<bytes>)
    requires s.Live? && Sane(s) && chunks != [] && Sane(Feed(fast, s, chunks[0]).0)
    ensures FeedAll(fast, s, chunks).0 == FeedAll(fast, Feed(fast, s, chunks[0]).0, chunks[1..]).0
    ensures FeedAll(fast, s, chunks).1
            == Feed(fast, s, chunks[0]).1 + FeedAll(fast, Feed(fast, s, chunks[0]).0, chunks[1..]).1
  {
  }

  lemma {:induction false} RunAppend(core: Core, a: seq<Frame>, b: seq<Frame>)
    ensures Run(core, a + b) == (if Run(core, a).Next? then Then(Run(core, a).out, Run(Run(core, a).core, b))
                                 else Run(core, a))
    decreases |a|
  {
    if a == [] {
      assert a + b == b;
      assert Run(core, b).Next? ==> [] + Run(core, b).out == Run(core, b).out;
    } else {
      assert (a + b)[0] == a[0] && (a + b)[1..] == a[1..] + b;
      var first := Step(core, a[0]);
      if first.Next? {
        RunAppend(first.core, a[1..], b);
        var then_ := Run(first.core, a[1..]);
        if then_.Next? && Run(then_.core, b).Next? {
          assert first.out + (then_.out + Run(then_.core, b).out)
                 == (first.out + then_.out) + Run(then_.core, b).out;
        }
      }
    }
  }

  /** Draining in two goes ends where one go ends, and says the same if it goes on. */
  lemma DrainAppend(core: Core, a: bytes, b: bytes)
    requires Drain(core, a).0.Live?
    ensures var (s, o) := Drain(core, a);
            var (t, p) := Drain(s.core, s.buffer + b);
            t == Drain(core, a + b).0 && (t.Live? ==> Drain(core, a + b).1 == o + p)
            && (!t.Live? ==> p == [] && Drain(core, a + b).1 == [])
  {
    FramesAppend(a, b);
    RunAppend(core, Frames(a).0, Frames(Frames(a).1 + b).0);
  }

  lemma DrainEnds(core: Core, a: bytes, b: bytes)
    requires !Drain(core, a).0.Live?
    ensures Drain(core, a + b) == Drain(core, a)
  {
    FramesAppend(a, b);
    RunAppend(core, Frames(a).0, Frames(Frames(a).1 + b).0);
  }

  lemma BegunAppend(c: bytes, d: bytes)
    requires Begun(c)
    ensures Begun(c + d) && IsCancel(c + d) == IsCancel(c) && Int32(c + d, 0) == Int32(c, 0)
    ensures (c + d)[Int32(c, 0)..] == c[Int32(c, 0)..] + d
  {
    Int32Prefix(c, d, 0);
    if Int32(c, 0) == 16 { Int32Prefix(c, d, 4); }
  }

  /** One more chunk takes a session from the whole of what came to the whole of what has come. */
  lemma OpenAppend(c: bytes, d: bytes)
    requires Open(c).0.Live?
    ensures Sane(Open(c).0)
    ensures var (s, o) := Open(c);
            var (t, p) := Feed(false, s, d);
            t == Open(c + d).0 && Sane(t) && (t.Live? ==> Open(c + d).1 == o + p)
            && (!t.Live? ==> p == if Begun(c) then [] else Open(c + d).1)
  {
    if Begun(c) {
      BegunAppend(c, d);
      DrainAppend(INIT, c[Int32(c, 0)..], d);
      var (s, o) := Drain(INIT, c[Int32(c, 0)..]);
      Plus(STARTUP_OK, o, Drain(s.core, s.buffer + d).1);
    } else {
      assert [] + Open(c + d).1 == Open(c + d).1;
    }
  }

  lemma OpenEnds(c: bytes, d: bytes)
    requires !Open(c).0.Live?
    ensures Open(c + d) == Open(c)
  {
    BegunAppend(c, d);
    if !IsCancel(c) { DrainEnds(INIT, c[Int32(c, 0)..], d); }
  }

  /** A stream that never ends the session is answered the same, and leaves the same state, in any
      chunking. */
  lemma {:induction false} GeneralSession(c: bytes, chunks: seq<bytes>)
    requires Open(c).0.Live? && Open(c + Concat(chunks)).0.Live?
    ensures Sane(Open(c).0)
    ensures FeedAll(false, Open(c).0, chunks).0 == Open(c + Concat(chunks)).0
    ensures Open(c).1 + FeedAll(false, Open(c).0, chunks).1 == Open(c + Concat(chunks)).1
    decreases |chunks|
  {
    if chunks == [] {
      assert c + Concat(chunks) == c;
    } else {
      var d := chunks[0];
      OpenAppend(c, d);
      ConcatFirst(c, chunks);
      if !Open(c + d).0.Live? { OpenEnds(c + d, Concat(chunks[1..])); }
      GeneralSession(c + d, chunks[1..]);
      FeedFirst(false, Open(c).0, chunks);
      Plus(Open(c).1, Feed(false, Open(c).0, d).1, FeedAll(false, Open(c + d).0, chunks[1..]).1);
    }
  }

  // ---- Sessions that end --------------------------------------------------------------------

  /** What the frames before the one that ends the session say. */
  function Spoken(core: Core, fs: seq<Frame>): bytes
    decreases |fs|
  {
    if fs == [] || !Step(core, fs[0]).Next? then [] else
    Step(core, fs[0]).out + Spoken(Step(core, fs[0]).core, fs[1..])
  }

  /** What a stream says before it ends its session. */
  function Said(d: bytes): bytes {
    if !Begun(d) || IsCancel(d) then [] else Spoken(INIT, Frames(d[Int32(d, 0)..]).0)
  }

  lemma {:induction false} SpokenBefore(core: Core, fs: seq<Frame>) returns (k: nat)
    requires !Run(core, fs).Next?
    ensures k < |fs| && Run(core, fs[..k]).Next? && Run(core, fs[..k]).out == Spoken(core, fs)
    decreases |fs|
  {
    var first := Step(core, fs[0]);
    if first.Next? {
      var m := SpokenBefore(first.core, fs[1..]);
      k := m + 1;
      assert fs[..k][0] == fs[0] && fs[..k][1..] == fs[1..][..m];
    } else {
      k := 0;
    }
  }

  lemma {:induction false} QuietPrefix(core: Core, a: seq<Frame>, b: seq<Frame>)
    requires Run(core, a).Next? && Spoken(core, a + b) == []
    ensures Run(core, a).out == []
    decreases |a|
  {
    if a != [] {
      assert (a + b)[0] == a[0] && (a + b)[1..] == a[1..] + b;
      QuietPrefix(Step(core, a[0]).core, a[1..], b);
    }
  }

  lemma QuietSoFar(c: bytes, d: bytes)
    requires Begun(c) && Open(c).0.Live? && Said(c + d) == []
    ensures Open(c).1 == STARTUP_OK
  {
    BegunAppend(c, d);
    var a := c[Int32(c, 0)..];
    FramesAppend(a, d);
    QuietPrefix(INIT, Frames(a).0, Frames(Frames(a).1 + d).0);
    assert STARTUP_OK + [] == STARTUP_OK;
  }

  lemma EndedSays(c: bytes)
    requires !Open(c).0.Live?
    ensures Begun(c) && Open(c).1 == if IsCancel(c) then [] else STARTUP_OK
  {
    assert STARTUP_OK + [] == STARTUP_OK;
  }

  /** A stream that ends its session before anything was said is heard alike in any chunking. */
  lemma {:induction false} QuietSession(c: bytes, chunks: seq<bytes>)
    requires Open(c).0.Live? && !Open(c + Concat(chunks)).0.Live? && Said(c + Concat(chunks)) == []
    ensures Sane(Open(c).0)
    ensures Open(c).1 + FeedAll(false, Open(c).0, chunks).1 == Open(c + Concat(chunks)).1
    decreases |chunks|
  {
    assert c + [] == c;
    if chunks != [] {
      var d, later := chunks[0], Concat(chunks[1..]);
      OpenAppend(c, d);
      ConcatFirst(c, chunks);
      var (t, p) := Feed(false, Open(c).0, d);
      if t.Live? {
        QuietSession(c + d, chunks[1..]);
        FeedFirst(false, Open(c).0, chunks);
        Plus(Open(c).1, p, FeedAll(false, t, chunks[1..]).1);
      } else {
        OpenEnds(c + d, later);
        EndedSays(c + d);
        if Begun(c) {
          BegunAppend(c, d);
          assert c + Concat(chunks) == c + (d + later);
          QuietSoFar(c, d + later);
        }
      }
    }
  }

  lemma OpenPrefix(d: bytes, m: nat)
    requires Begun(d) && !IsCancel(d) && Int32(d, 0) + m <= |d| && m >= 4
    ensures Begun(d[..Int32(d, 0) + m])
    ensures Open(d[..Int32(d, 0) + m]).0 == Drain(INIT, d[Int32(d, 0)..][..m]).0
    ensures Open(d[..Int32(d, 0) + m]).1 == STARTUP_OK + Drain(INIT, d[Int32(d, 0)..][..m]).1
  {
    var size := Int32(d, 0);
    var a, b := d[..size + m], d[size + m..];
    assert d == a + b;
    Int32Prefix(a, b, 0);
    BegunAppend(a, b);
    assert a[size..] == d[size..][..m];
  }

  /** Cut just before the frame that ends it, a session gets to say what it would have dropped. */
  lemma CutToSpeak(d: bytes) returns (n: nat)
    requires !Open(d).0.Live? && Said(d) != []
    ensures n <= |d| && Begun(d[..n]) && Open(d[..n]).0.Live? && Open(d[..n]).1 == STARTUP_OK + Said(d)
  {
    var body := d[Int32(d, 0)..];
    var k := SpokenBefore(INIT, Frames(body).0);
    var m := CutBefore(body, k);
    OpenPrefix(d, m);
    n := Int32(d, 0) + m;
  }

  lemma HeardAlike(d: bytes, chunks: seq<bytes>)
    requires Cuts(chunks, d) && (Open(d).0.Live? || Said(d) == [])
    ensures FeedAll(false, NEW, chunks).1 == Open(d).1
  {
    assert Open([]) == (NEW, []);
    Nothing(d);
    Nothing(FeedAll(false, NEW, chunks).1);
    if Open(d).0.Live? { GeneralSession([], chunks); } else { QuietSession([], chunks); }
  }

  /** Any other stream that ends its session has a chunking that hears, besides what the stream in one
      piece hears, all that was said before the end. */
  lemma HeardOtherwise(d: bytes) returns (chunks: seq<bytes>)
    requires !Open(d).0.Live? && Said(d) != []
    ensures Cuts(chunks, d) && FeedAll(false, NEW, chunks).1 == Open(d).1 + Said(d)
  {
    var n := CutToSpeak(d);
    var a, b := d[..n], d[n..];
    assert a + b == d;
    TwoChunks(a, b);
    HeardInTwo(d, a, b);
    chunks := [a, b];
  }

  lemma HeardInTwo(d: bytes, a: bytes, b: bytes)
    requires d == a + b && Begun(a) && Open(a).0.Live? && !Open(d).0.Live?
    requires Said(d) != [] && Open(a).1 == STARTUP_OK + Said(d)
    ensures FeedAll(false, NEW, [a, b]).1 == Open(d).1 + Said(d)
  {
    EndedSays(d);
    OpenAppend(a, b);
    SaidInTwo(a, b);
    BegunAppend(a, b);
  }

  lemma SaidInTwo(a: bytes, b: bytes)
    requires Open(a).0.Live? && Sane(Open(a).0)
    requires Feed(false, Open(a).0, b).1 == [] && Feed(false, Open(a).0, b).0.Ended?
    ensures FeedAll(false, NEW, [a, b]).1 == Open(a).1
  {
    assert [] + a == a;
    assert [a, b][1..] == [b];
    FeedFirst(false, NEW, [a, b]);
    FeedFirst(false, Open(a).0, [b]);
    assert Open(a).1 + [] == Open(a).1;
  }
}
