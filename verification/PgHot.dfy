/** The delimiter-counting arm refines the general parser. */
module PgHot {
  import opened Delimiters
  import opened Streams
  import opened Wire
  import opened PgModel
  import opened PgFraming
  import opened PgSessions

  // ---- The streams the fast arm is meant for -------------------------------------------------

  /** The flight binds a known row-returning statement and describes no portal. */
  predicate WarmFlight(statements: map<bytes, bytes>, flight: seq<Frame>) {
    var binds := Payloads(flight, BIND);
    binds != [] && BindName(binds[0]) in statements
    && Selects(StripText(statements[BindName(binds[0])])) && !PortalDescribed(flight)
  }

  /** Nothing prepares or terminates any more, and every flight is warm. */
  predicate Warm(statements: map<bytes, bytes>, flight: seq<Frame>, fs: seq<Frame>)
    decreases |fs|
  {
    fs == [] || (
      var now := flight + [fs[0]];
      fs[0].kind != TERMINATE && fs[0].kind != PARSE
      && if fs[0].kind == SYNC then WarmFlight(statements, now) && Warm(statements, [], fs[1..])
         else Warm(statements, now, fs[1..]))
  }

  /** The Sync bytes stand where a Sync frame starts and nowhere else. */
  predicate Clean(b: bytes)
    decreases |b|
  {
    var n := FrameSize(b);
    if n == 0 then forall i :: 0 <= i < |b| ==> !At(b, SYNC_BYTES, i)
    else (b[0] == SYNC ==> At(b, SYNC_BYTES, 0))
         && (forall i :: 0 < i < n ==> !At(b, SYNC_BYTES, i)) && Clean(b[n..])
  }

  predicate HotCalm(core: Core, b: bytes) {
    Payloads(core.flight, PARSE) == [] && Warm(core.statements, core.flight, Frames(b).0) && Clean(b)
  }

  /** No frame ends the session, and from the first hot frame on the stream is warm and clean. */
  predicate Calm(core: Core, b: bytes)
    decreases |b|
  {
    if core.hot then HotCalm(core, b)
    else FrameSize(b) == 0
         || (Step(core, FrameOf(b)).Next? && Calm(Step(core, FrameOf(b)).core, b[FrameSize(b)..]))
  }

  predicate Orderly(d: bytes) {
    Begun(d) && !IsCancel(d) ==> Calm(INIT, d[Int32(d, 0)..])
  }

  // ---- Counting delimiters is counting Sync frames ---------------------------------------------

  function Syncs(fs: seq<Frame>): nat {
    if fs == [] then 0 else (if fs[0].kind == SYNC then 1 else 0) + Syncs(fs[1..])
  }

  lemma SyncFrame(b: bytes)
    requires At(b, SYNC_BYTES, 0)
    ensures FrameSize(b) == 5 && b[0] == SYNC && Find(b, SYNC_BYTES) == 0
  {
    var m := b[0..5];
    assert m == SYNC_BYTES;
    assert b[1] == m[1] && b[2] == m[2] && b[3] == m[3] && b[4] == m[4] && b[0] == m[0];
  }

  /** Delimiters and Sync frames agree on every prefix of a clean stream, even one that ends inside
      a frame. */
  lemma {:induction false} CleanCounts(p: bytes, w: bytes)
    requires p <= w && Clean(w)
    ensures Scan(p, SYNC_BYTES).0 == Syncs(Frames(p).0)
    decreases |p|
  {
    var n := FrameSize(p);
    var rest := w[|p|..];
    assert w == p + rest;
    if n == 0 {
      if i :| At(p, SYNC_BYTES, i) { NoDelimiter(p, w, i); }
    } else {
      FrameAppend(p, rest);
      FramesFirst(p);
      assert p[n..] <= w[n..] by { assert w[n..] == p[n..] + rest; }
      CleanCounts(p[n..], w[n..]);
      CleanFirst(p, w);
    }
  }

  lemma NoDelimiter(p: bytes, w: bytes, i: int)
    requires p <= w && Clean(w) && FrameSize(p) == 0
    ensures !At(p, SYNC_BYTES, i)
  {
    if At(p, SYNC_BYTES, i) {
      assert w == p + w[|p|..];
      AtAppend(p, w[|p|..], SYNC_BYTES, i);
      Int32Prefix(p, w[|p|..], 1);
      assert i == 0;
      SyncFrame(p);
    }
  }

  /** One frame of a clean stream adds a delimiter exactly if it is a Sync. */
  lemma CleanFirst(p: bytes, w: bytes)
    requires p <= w && Clean(w) && FrameSize(p) > 0 && FrameSize(w) == FrameSize(p)
    ensures Scan(p, SYNC_BYTES).0 == (if p[0] == SYNC then 1 else 0) + Scan(p[FrameSize(p)..], SYNC_BYTES).0
  {
    var n, rest := FrameSize(p), w[|p|..];
    assert w == p + rest;
    if p[0] == SYNC {
      SyncFrame(w);
      AtPrefix(p, rest, SYNC_BYTES, 0);
      SyncFrame(p);
      ScanPast(p, SYNC_BYTES);
    } else {
      forall i | 0 <= i < n ensures !At(p, SYNC_BYTES, i) {
        if At(p, SYNC_BYTES, i) {
          AtAppend(p, rest, SYNC_BYTES, i);
          SyncFrame(p);
        }
      }
      ScanSkip(p, n, SYNC_BYTES);
    }
  }

  /** The byte that starts a Sync, nowhere in a frame. */
  predicate Plain(f: Frame) {
    Sendable(f) && SYNC !in Message(f.kind, f.payload)
  }

  predicate SyncOrPlain(f: Frame) {
    f == Frame(SYNC, []) || Plain(f)
  }

  /** Traffic whose only S bytes are its Syncs is clean, even if it stops inside a frame. */
  lemma {:induction false} PlainIsClean(fs: seq<Frame>, tail: bytes)
    requires (forall f :: f in fs ==> SyncOrPlain(f)) && FrameSize(tail) == 0 && SYNC !in tail
    ensures (forall f :: f in fs ==> Sendable(f)) && Clean(Encode(fs) + tail)
  {
    if fs == [] {
      assert [] + tail == tail;
      forall i | 0 <= i < |tail| ensures !At(tail, SYNC_BYTES, i) {
        NotAt(tail, i);
      }
    } else {
      var f := fs[0];
      assert SyncOrPlain(f);
      PlainIsClean(fs[1..], tail);
      assert forall g :: g in fs ==> g == f || g in fs[1..];
      var m, rest := Message(f.kind, f.payload), Encode(fs[1..]) + tail;
      assert Encode(fs) + tail == m + rest;
      CleanMore(f, rest);
    }
  }

  lemma CleanMore(f: Frame, rest: bytes)
    requires SyncOrPlain(f) && Clean(rest)
    ensures Clean(Message(f.kind, f.payload) + rest)
  {
    var m := Message(f.kind, f.payload);
    var s := m + rest;
    MessageFrame(f, rest);
    forall i | 0 < i < |m| ensures !At(s, SYNC_BYTES, i) {
      assert s[i] == m[i];
      NotAt(s, i);
    }
    if f.kind == SYNC {
      assert m[0] == SYNC;
      assert s[0..5] == m;
    }
  }

  lemma NotAt(s: bytes, i: nat)
    requires i < |s| && s[i] != SYNC
    ensures !At(s, SYNC_BYTES, i)
  {
    if i + 5 <= |s| {
      var window := s[i..i + 5];
      assert window[0] == s[i] && SYNC_BYTES[0] == SYNC;
    }
  }

  // ---- A warm flight is answered by the canned response ------------------------------------------

  lemma WarmAnswer(flight: seq<Frame>, sql: bytes)
    requires !PortalDescribed(flight) && Selects(StripText(sql))
    ensures Reply(flight, sql, 0, false) == HOT_RESPONSE
  {
    var row := DataRow(U32(42));
    Nothing(Answer(flight, true, false));
    assert BIND_COMPLETE + [] == BIND_COMPLETE;
    assert BIND_COMPLETE + (row + SELECT_ONE) == (BIND_COMPLETE + row) + SELECT_ONE;
  }

  lemma WarmStep(core: Core, fs: seq<Frame>)
    requires core.hot && Payloads(core.flight, PARSE) == [] && fs != []
    requires Warm(core.statements, core.flight, fs)
    ensures Step(core, fs[0]).Next?
    ensures Step(core, fs[0]).out == if fs[0].kind == SYNC then HOT_RESPONSE else []
    ensures var c := Step(core, fs[0]).core;
            c.hot && Payloads(c.flight, PARSE) == [] && c.statements == core.statements
            && Warm(c.statements, c.flight, fs[1..])
  {
    PayloadsAppend(core.flight, fs[0], PARSE);
    if fs[0].kind == SYNC {
      var now := core.flight + [fs[0]];
      WarmAnswer(now, core.statements[BindName(Payloads(now, BIND)[0])]);
    }
  }

  lemma RunCons(core: Core, fs: seq<Frame>, first: Outcome, later: Outcome)
    requires fs != [] && first == Step(core, fs[0]) && first.Next? && later == Run(first.core, fs[1..])
    ensures Run(core, fs) == Then(first.out, later)
  {
  }

  /** One more canned response, or none. */
  lemma RepeatOne(s: bytes, first: bytes, n: nat, one: bool)
    requires first == if one then s else []
    ensures first + Repeat(s, n) == Repeat(s, (if one then 1 else 0) + n)
  {
  }

  lemma {:induction false} WarmRun(core: Core, fs: seq<Frame>)
    requires core.hot && Payloads(core.flight, PARSE) == [] && Warm(core.statements, core.flight, fs)
    ensures Run(core, fs).Next? && Run(core, fs).out == Repeat(HOT_RESPONSE, Syncs(fs))
    decreases |fs|
  {
    if fs != [] {
      var first := Step(core, fs[0]);
      WarmStep(core, fs);
      WarmRun(first.core, fs[1..]);
      RunCons(core, fs, first, Run(first.core, fs[1..]));
      RepeatOne(HOT_RESPONSE, first.out, Syncs(fs[1..]), fs[0].kind == SYNC);
    }
  }

  // ---- Sessions -----------------------------------------------------------------------------------

  lemma CalmStep(core: Core, b: bytes)
    requires Calm(core, b) && FrameSize(b) > 0
    ensures Step(core, FrameOf(b)).Next? && Calm(Step(core, FrameOf(b)).core, b[FrameSize(b)..])
  {
    if core.hot {
      FramesFirst(b);
      WarmStep(core, Frames(b).0);
      assert Frames(b).0[1..] == Frames(b[FrameSize(b)..]).0;
    }
  }

  /** Calm survives whatever has been read of the stream. */
  lemma {:induction false} CalmRun(core: Core, a: bytes, b: bytes)
    requires Calm(core, a + b)
    ensures Run(core, Frames(a).0).Next? && Calm(Run(core, Frames(a).0).core, Frames(a).1 + b)
    decreases |a|
  {
    var n := FrameSize(a);
    if n > 0 {
      FrameAppend(a, b);
      CalmStep(core, a + b);
      var c := Step(core, FrameOf(a)).core;
      CalmRun(c, a[n..], b);
      FramesFirst(a);
      var fs := Frames(a).0;
      assert fs[0] == FrameOf(a) && fs[1..] == Frames(a[n..]).0;
    }
  }

  lemma FastFirst(s: Session, chunks: seq<bytes>)
    requires s.Live? && s.started && s.core.hot && chunks != []
    ensures var (n, rest) := Scan(s.buffer + chunks[0], SYNC_BYTES);
            FeedAll(true, s, chunks).1 == Repeat(HOT_RESPONSE, n) + FeedAll(true, s.(buffer := rest), chunks[1..]).1
  {
    FeedFirst(true, s, chunks);
  }

  /** The delimiters the fast arm counts, chunk by chunk. */
  function Counted(buffer: bytes, chunks: seq<bytes>): nat
    decreases |chunks|
  {
    if chunks == [] then 0 else
    var (n, rest) := Scan(buffer + chunks[0], SYNC_BYTES);
    n + Counted(rest, chunks[1..])
  }

  /** They are the delimiters of all it is fed. */
  lemma {:induction false} CountedAll(buffer: bytes, chunks: seq<bytes>)
    requires Find(buffer, SYNC_BYTES) < 0
    ensures Counted(buffer, chunks) == Scan(buffer + Concat(chunks), SYNC_BYTES).0
    decreases |chunks|
  {
    if chunks == [] {
      assert buffer + Concat(chunks) == buffer;
    } else {
      var now := buffer + chunks[0];
      ConcatFirst(buffer, chunks);
      ScanRest(now, SYNC_BYTES);
      ScanAppend(now, Concat(chunks[1..]), SYNC_BYTES);
      CountedAll(Scan(now, SYNC_BYTES).1, chunks[1..]);
    }
  }

  lemma {:induction false} FastFeed(s: Session, chunks: seq<bytes>)
    requires s.Live? && s.started && s.core.hot
    ensures FeedAll(true, s, chunks).1 == Repeat(HOT_RESPONSE, Counted(s.buffer, chunks))
    decreases |chunks|
  {
    if chunks == [] {
    } else {
      var (n, rest) := Scan(s.buffer + chunks[0], SYNC_BYTES);
      var m := Counted(rest, chunks[1..]);
      assert Counted(s.buffer, chunks) == n + m;
      assert FeedAll(true, s, chunks).1 == Repeat(HOT_RESPONSE, n + m) by {
        FastFirst(s, chunks);
        FastFeed(s.(buffer := rest), chunks[1..]);
        RepeatSum(HOT_RESPONSE, n, m);
      }
    }
  }

  /** From the moment the fast arm takes over, it says what the general parser would. */
  lemma HotTail(core: Core, r: bytes, chunks: seq<bytes>)
    requires core.hot && Calm(core, r + Concat(chunks)) && FrameSize(r) == 0
    ensures FeedAll(true, Live(r, true, core), chunks).1 == Drain(core, r + Concat(chunks)).1
  {
    var w := r + Concat(chunks);
    CleanCounts(r, w);
    assert Frames(r) == ([], r);
    CountedAll(r, chunks);
    FastFeed(Live(r, true, core), chunks);
    CleanCounts(w, w);
    WarmRun(core, Frames(w).0);
  }

  lemma {:induction false} RestIncomplete(b: bytes)
    ensures FrameSize(Frames(b).1) == 0
    decreases |b|
  {
    if FrameSize(b) > 0 {
      FramesFirst(b);
      RestIncomplete(b[FrameSize(b)..]);
    }
  }

  /** Of an orderly stream only a cancel request ends the session. */
  lemma OrderlyLive(c: bytes, d: bytes)
    requires Orderly(c + d)
    ensures Begun(c) && !IsCancel(c) ==>
              Open(c).0.Live? && Calm(Open(c).0.core, Open(c).0.buffer + d) && FrameSize(Open(c).0.buffer) == 0
  {
    if Begun(c) && !IsCancel(c) {
      BegunAppend(c, d);
      CalmRun(INIT, c[Int32(c, 0)..], d);
      RestIncomplete(c[Int32(c, 0)..]);
    }
  }

  lemma FastRest(c: bytes, chunks: seq<bytes>)
    requires Open(c).0.Live? && Sane(Open(c).0) && Open(c).0.core.hot && Orderly(c + Concat(chunks))
    ensures Open(c).1 + FeedAll(true, Open(c).0, chunks).1 == Open(c + Concat(chunks)).1
  {
    var d := c + Concat(chunks);
    assert d + [] == d;
    OrderlyLive(d, []);
    BegunAppend(c, Concat(chunks));
    OrderlyLive(c, Concat(chunks));
    OpenAppend(c, Concat(chunks));
    HotTail(Open(c).0.core, Open(c).0.buffer, chunks);
  }

  lemma {:induction false} FastSession(c: bytes, chunks: seq<bytes>)
    requires Open(c).0.Live? && Sane(Open(c).0) && Orderly(c + Concat(chunks))
    ensures Open(c).1 + FeedAll(true, Open(c).0, chunks).1 == Open(c + Concat(chunks)).1
    decreases |chunks|
  {
    if Open(c).0.core.hot {
      FastRest(c, chunks);
    } else if chunks == [] {
      assert c + Concat(chunks) == c;
    } else {
      FastStep(c, chunks);
    }
  }

  lemma {:induction false} FastStep(c: bytes, chunks: seq<bytes>)
    requires chunks != [] && Open(c).0.Live? && Sane(Open(c).0) && !Open(c).0.core.hot
    requires Orderly(c + Concat(chunks))
    ensures Open(c).1 + FeedAll(true, Open(c).0, chunks).1 == Open(c + Concat(chunks)).1
    decreases |chunks|, 0
  {
    var d, later := chunks[0], Concat(chunks[1..]);
    ConcatFirst(c, chunks);
    OpenAppend(c, d);
    FeedFirst(true, Open(c).0, chunks);
    var (t, p) := Feed(false, Open(c).0, d);
    if t.Live? {
      FastSession(c + d, chunks[1..]);
      Plus(Open(c).1, p, FeedAll(true, t, chunks[1..]).1);
    } else {
      OrderlyLive(c + d, later);
      OpenEnds(c + d, later);
    }
  }

  /** Over every orderly stream the output is the same with the fast arm and without it, wherever
      either session's chunks split, and it is what the stream in one piece is told. */
  lemma HotRefinesGeneral(d: bytes, chunks: seq<bytes>, others: seq<bytes>)
    requires Orderly(d) && Cuts(chunks, d) && Cuts(others, d)
    ensures FeedAll(true, NEW, chunks).1 == FeedAll(false, NEW, others).1 == Open(d).1
  {
    assert Open([]) == (NEW, []) && [] + d == d && d + [] == d;
    FastSession([], chunks);
    var out := FeedAll(true, NEW, chunks).1;
    assert [] + out == out;
    OrderlyLive(d, []);
    HeardAlike(d, others);
  }
}
