/** What the responder says, read back as protocol messages: whole frames, and one ReadyForQuery for
    each Sync (the PostgreSQL frontend/backend protocol, section "Extended Query"). */
module PgReplies {
  import opened Delimiters
  import opened Streams
  import opened Wire
  import opened PgModel
  import opened PgFraming
  import opened PgSessions
  import opened PgHot

  const READY_KIND: byte := 0x5A

  function Kinds(fs: seq<Frame>, kind: byte): nat {
    |Payloads(fs, kind)|
  }

  /** The bytes are complete frames, `n` of them ReadyForQuery. */
  predicate Speaks(out: bytes, n: nat) {
    Frames(out).1 == [] && Kinds(Frames(out).0, READY_KIND) == n
  }

  lemma {:induction false} PayloadsConcat(a: seq<Frame>, b: seq<Frame>, kind: byte)
    ensures |Payloads(a + b, kind)| == |Payloads(a, kind)| + |Payloads(b, kind)|
  {
    if a == [] {
      assert a + b == b;
    } else {
      assert (a + b)[0] == a[0] && (a + b)[1..] == a[1..] + b;
      PayloadsConcat(a[1..], b, kind);
    }
  }

  lemma SpeaksNothing()
    ensures Speaks([], 0)
  {
  }

  lemma SpeaksPlus(a: bytes, n: nat, b: bytes, m: nat)
    requires Speaks(a, n) && Speaks(b, m)
    ensures Speaks(a + b, n + m)
  {
    FramesAppend(a, b);
    Nothing(b);
    PayloadsConcat(Frames(a).0, Frames(b).0, READY_KIND);
  }

  lemma SpeaksMessage(kind: byte, payload: bytes)
    requires |payload| + 4 < 0x1_0000_0000
    ensures Speaks(Message(kind, payload), if kind == READY_KIND then 1 else 0)
  {
    var f, m := Frame(kind, payload), Message(kind, payload);
    MessageFrame(f, []);
    assert m + [] == m;
    assert Frames([]) == ([], []);
    FramesFirst(m);
    assert [f] + [] == [f] && [f][1..] == [];
    assert Payloads([f], READY_KIND) == (if kind == READY_KIND then [payload] else []) + [];
  }

  lemma SpeaksDescribed(rows: bool)
    ensures Speaks(Described(rows), 0)
  {
    if rows {
      SpeaksMessage(0x54, U16(1) + [118, 97, 108, 117, 101, 0] + U32(0) + U16(0) + U32(23) + U16(4)
                          + [255, 255, 255, 255] + U16(0));
    } else {
      SpeaksMessage(0x6E, []);
    }
  }

  lemma SpeaksParsed(count: nat)
    requires count < 0x1_0000
    ensures Speaks(Parsed(count), 0)
  {
    RepeatLength(U32(23), count);
    var d := U16(count) + Repeat(U32(23), count);
    SpeaksMessage(0x31, []);
    SpeaksMessage(0x74, d);
    SpeaksPlus(Message(0x31, []), 0, Message(0x74, d), 0);
  }

  /** The row, or the update's tag. */
  lemma SpeaksResult(rows: bool, cold: bool)
    ensures Speaks(Result(rows, cold), 0)
  {
    var value: bytes := if cold then [52, 50] else U32(42);
    SpeaksMessage(0x44, U16(1) + U32(|value|) + value);
    SpeaksMessage(0x43, [83, 69, 76, 69, 67, 84, 32, 49, 0]);
    SpeaksMessage(0x43, [85, 80, 68, 65, 84, 69, 32, 49, 0]);
    SpeaksPlus(DataRow(value), 0, SELECT_ONE, 0);
  }

  lemma SpeaksInTurn(a: bytes, b: bytes, c: bytes, d: bytes)
    requires Speaks(a, 0) && Speaks(b, 0) && Speaks(c, 0) && Speaks(d, 1)
    ensures Speaks(a + b + c + d, 1)
  {
    SpeaksPlus(a, 0, b, 0);
    SpeaksPlus(a + b, 0, c, 0);
    SpeaksPlus(a + b + c, 0, d, 1);
  }

  lemma SpeaksPortal(flight: seq<Frame>, rows: bool)
    ensures Speaks(Portal(flight, rows), 0)
  {
    SpeaksDescribed(rows);
    SpeaksNothing();
  }

  lemma SpeaksEnds()
    ensures Speaks(BIND_COMPLETE, 0) && Speaks(READY, 1)
  {
    SpeaksMessage(0x32, []);
    SpeaksMessage(0x5A, [73]);
  }

  lemma SpeaksAnswer(flight: seq<Frame>, rows: bool, cold: bool)
    ensures Speaks(Answer(flight, rows, cold), 1) == true
  {
    SpeaksEnds();
    SpeaksPortal(flight, rows);
    SpeaksResult(rows, cold);
    SpeaksInTurn(BIND_COMPLETE, Portal(flight, rows), Result(rows, cold), READY);
  }

  lemma SpeaksCold(count: nat, rows: bool, cold: bool)
    requires count < 0x1_0000
    ensures Speaks(if cold then Parsed(count) + Described(rows) else [], 0)
  {
    SpeaksParsed(count);
    SpeaksDescribed(rows);
    SpeaksPlus(Parsed(count), 0, Described(rows), 0);
    SpeaksNothing();
  }

  lemma SpeaksReply(flight: seq<Frame>, sql: bytes, count: nat, cold: bool)
    requires count < 0x1_0000
    ensures Speaks(Reply(flight, sql, count, cold), 1) == true
  {
    var rows := Selects(StripText(sql));
    SpeaksCold(count, rows, cold);
    SpeaksAnswer(flight, rows, cold);
    SpeaksPlus(if cold then Parsed(count) + Described(rows) else [], 0, Answer(flight, rows, cold), 1);
  }

  lemma SpeaksPrepare(core: Core)
    requires Payloads(core.flight, PARSE) != [] && Prepare(core).Some?
    ensures Speaks(Prepare(core).value.1, 0)
  {
    var st := ReadParse(Payloads(core.flight, PARSE)[0]).value;
    var count := if st.sql == HOT_SQL then 1 else st.count;
    SpeaksParsed(count);
    SpeaksDescribed(Selects(StripBytes(st.sql)));
    SpeaksPlus(Parsed(count), 0, Described(Selects(StripBytes(st.sql))), 0);
  }

  lemma SpeaksRespond(core: Core)
    requires Respond(core).Some?
    ensures Speaks(Respond(core).value.1, 1)
  {
    var parses := Payloads(core.flight, PARSE);
    if parses != [] {
      var st := ReadParse(parses[0]).value;
      SpeaksReply(core.flight, st.sql, st.count, true);
    } else {
      SpeaksReply(core.flight, core.statements[BindName(Payloads(core.flight, BIND)[0])], 0, false);
    }
  }

  lemma SpeaksStep(core: Core, f: Frame)
    requires Step(core, f).Next?
    ensures Speaks(Step(core, f).out, if f.kind == SYNC then 1 else 0)
  {
    var now := core.(flight := core.flight + [f]);
    SpeaksNothing();
    if f.kind == FLUSH && Payloads(now.flight, PARSE) != [] {
      SpeaksPrepare(now);
    } else if f.kind == SYNC {
      SpeaksRespond(now);
    }
  }

  /** Whatever the frames, what the parser says to them is whole frames with one ReadyForQuery for each
      Sync among them. */
  lemma {:induction false} OneReadyPerSync(core: Core, fs: seq<Frame>)
    requires Run(core, fs).Next?
    ensures Speaks(Run(core, fs).out, Syncs(fs))
    decreases |fs|
  {
    if fs == [] {
      SpeaksNothing();
    } else {
      var first := Step(core, fs[0]);
      SpeaksStep(core, fs[0]);
      OneReadyPerSync(first.core, fs[1..]);
      var later := Run(first.core, fs[1..]);
      RunCons(core, fs, first, later);
      SpeaksPlus(first.out, if fs[0].kind == SYNC then 1 else 0, later.out, Syncs(fs[1..]));
    }
  }

  lemma SpeaksStartup()
    ensures Speaks(STARTUP_OK, 1) == true
  {
    var version: bytes := [115, 101, 114, 118, 101, 114, 95, 118, 101, 114, 115, 105, 111, 110, 0, 49, 55, 46, 48, 0];
    SpeaksQuartet(U32(0), version, U32(1) + U32(2), [73]);
  }

  lemma SpeaksQuartet(auth: bytes, version: bytes, key: bytes, status: bytes)
    requires |auth| < 100 && |version| < 100 && |key| < 100 && |status| < 100
    ensures Speaks(Message(0x52, auth) + Message(0x53, version) + Message(0x4B, key) + Message(0x5A, status), 1) == true
  {
    SpeaksMessage(0x52, auth);
    SpeaksMessage(0x53, version);
    SpeaksMessage(0x4B, key);
    SpeaksMessage(0x5A, status);
    var a, b, c, d := Message(0x52, auth), Message(0x53, version), Message(0x4B, key), Message(0x5A, status);
    SpeaksPlus(a, 0, b, 0);
    SpeaksPlus(a + b, 0, c, 0);
    SpeaksPlus(a + b + c, 0, d, 1);
  }

  /** Over a whole session on an orderly stream, with the counting arm and in any chunking: whole frames,
      one ReadyForQuery for the startup and one for each Sync. */
  lemma SessionSpeaks(d: bytes, chunks: seq<bytes>)
    requires Orderly(d) && Cuts(chunks, d) && Begun(d) && !IsCancel(d)
    ensures Speaks(FeedAll(true, NEW, chunks).1, 1 + Syncs(Frames(d[Int32(d, 0)..]).0))
  {
    HotRefinesGeneral(d, chunks, chunks);
    assert d + [] == d;
    OrderlyLive(d, []);
    var fs := Frames(d[Int32(d, 0)..]).0;
    OneReadyPerSync(INIT, fs);
    SpeaksStartup();
    SpeaksPlus(STARTUP_OK, 1, Run(INIT, fs).out, Syncs(fs));
  }
}
