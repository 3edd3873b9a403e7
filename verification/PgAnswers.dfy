/**
 What the PostgreSQL responder says, spelled out: for each kind of flight the messages it is answered with,
 as kinds and literal payloads, and what the session remembers of it.
 */
module PgAnswers {
  import opened Options
  import opened Delimiters
  import opened Wire
  import opened Spelling
  import opened Unicode
  import opened PgModel
  import opened PgFraming
  import opened PgSessions
  import opened PgTraffic

  function Msg(kind: char, payload: bytes): Frame
    requires kind as int < 128
  {
    Frame(kind as int, payload)
  }

  // ---- The messages ---------------------------------------------------------------------------------

  /** `count` parameters, each of type int4, whose OID is 23. */
  function Int4s(count: nat): bytes
    requires count < 0x1_0000
  {
    [count / 256, count % 256] + seq(4 * count, i requires 0 <= i < 4 * count => if i % 4 == 3 then 23 else 0)
  }

  /** One column, "value", of type int4 and size 4; or no rows. */
  function About(rows: bool): Frame {
    if rows then
      Msg('T', [0, 1] + Text("value") + [0, 0, 0, 0, 0, 0, 0, 0, 0, 0, 23, 0, 4, 255, 255, 255, 255, 0, 0])
    else Msg('n', [])
  }

  /** ParseComplete, ParameterDescription, and the row description or NoData. */
  function Introduction(count: nat, rows: bool): seq<Frame>
    requires count < 0x1_0000
  {
    [Msg('1', []), Msg('t', Int4s(count)), About(rows)]
  }

  const SELECTED: Frame := Msg('C', Text("SELECT 1") + [0])
  const UPDATED: Frame := Msg('C', Text("UPDATE 1") + [0])
  const IDLE: Frame := Msg('Z', Text("I"))

  function Outcomes(rows: bool, value: bytes): seq<Frame> {
    if rows then [Msg('D', value), SELECTED] else [UPDATED]
  }

  /** BindComplete, a description if the portal's was asked for, the row with its tag or the update's tag,
      and ReadyForQuery, idle. */
  function Execution(portal: bool, rows: bool, value: bytes): seq<Frame> {
    [Msg('2', [])]
    + (if portal then [About(rows)] else [])
    + Outcomes(rows, value)
    + [IDLE]
  }

  /** One column of two bytes, the text of 42; and one of four, 42 in binary. */
  const TEXT_ROW: bytes := [0, 1, 0, 0, 0, 2] + Text("42")
  const BINARY_ROW: bytes := [0, 1, 0, 0, 0, 4, 0, 0, 0, 42]

  // ---- Reading them back ------------------------------------------------------------------------------

  /** The bytes are these messages and nothing else. */
  predicate Says(out: bytes, fs: seq<Frame>) {
    Frames(out) == (fs, [])
  }

  lemma SaysPlus(a: bytes, fs: seq<Frame>, b: bytes, gs: seq<Frame>)
    requires Says(a, fs) && Says(b, gs)
    ensures Says(a + b, fs + gs)
  {
    FramesAppend(a, b);
    Nothing(b);
  }

  lemma SaysNothing()
    ensures Says([], [])
  {
  }

  lemma SaysMessage(kind: byte, payload: bytes)
    requires |payload| + 4 < 0x1_0000_0000
    ensures Says(Message(kind, payload), [Frame(kind, payload)])
  {
    var f := Frame(kind, payload);
    assert [f][1..] == [];
    assert Encode([f]) == Message(kind, payload) + [] == Message(kind, payload);
    FramesOf([f]);
  }

  lemma {:induction false} RepeatAt(count: nat, i: nat)
    requires i < 4 * count
    ensures |Repeat(U32(23), count)| == 4 * count
    ensures Repeat(U32(23), count)[i] == if i % 4 == 3 then 23 else 0
    decreases count
  {
    RepeatLength(U32(23), count);
    assert U32(23) == [0, 0, 0, 23];
    if i >= 4 { RepeatAt(count - 1, i - 4); }
  }

  lemma Int4sAre(count: nat)
    requires count < 0x1_0000
    ensures U16(count) + Repeat(U32(23), count) == Int4s(count)
  {
    Int4sRepeat(count);
    assert U16(count) == [count / 256, count % 256];
  }

  lemma Int4sRepeat(count: nat)
    ensures Repeat(U32(23), count) == seq(4 * count, i requires 0 <= i < 4 * count => if i % 4 == 3 then 23 else 0)
  {
    RepeatLength(U32(23), count);
    forall i | 0 <= i < 4 * count ensures Repeat(U32(23), count)[i] == if i % 4 == 3 then 23 else 0 {
      RepeatAt(count, i);
    }
  }

  lemma Numbers()
    ensures U16(0) == [0, 0] && U16(1) == [0, 1] && U16(4) == [0, 4]
    ensures U32(0) == [0, 0, 0, 0] && U32(23) == [0, 0, 0, 23]
  {
  }

  lemma RowPayload()
    ensures U16(1) + [118, 97, 108, 117, 101, 0] + U32(0) + U16(0) + U32(23) + U16(4) + [255, 255, 255, 255] + U16(0)
            == About(true).payload
  {
    Numbers();
    assert Text("value") == [118, 97, 108, 117, 101];
  }

  lemma SaysDescribed(rows: bool)
    ensures Says(Described(rows), [About(rows)]) == true
  {
    if rows {
      RowPayload();
      SaysMessage(0x54, About(true).payload);
    } else {
      SaysMessage(0x6E, []);
    }
  }

  lemma SaysTwo(a: bytes, f: Frame, b: bytes, g: Frame)
    requires Says(a, [f]) && Says(b, [g])
    ensures Says(a + b, [f, g]) == true
  {
    SaysPlus(a, [f], b, [g]);
    assert [f] + [g] == [f, g];
  }

  lemma SaysParsed(count: nat)
    requires count < 0x1_0000
    ensures Says(Parsed(count), [Msg('1', []), Msg('t', Int4s(count))]) == true
  {
    Int4sAre(count);
    SaysMessage(0x31, []);
    SaysMessage(0x74, Int4s(count));
    SaysTwo(Message(0x31, []), Msg('1', []), Message(0x74, Int4s(count)), Msg('t', Int4s(count)));
  }

  lemma SaysThree(a: bytes, f: Frame, g: Frame, b: bytes, h: Frame)
    requires Says(a, [f, g]) == true && Says(b, [h]) == true
    ensures Says(a + b, [f, g, h]) == true
  {
    SaysPlus(a, [f, g], b, [h]);
    assert [f, g] + [h] == [f, g, h];
  }

  lemma SaysIntroduction(count: nat, rows: bool)
    requires count < 0x1_0000
    ensures Says(Parsed(count) + Described(rows), Introduction(count, rows)) == true
  {
    SaysParsed(count);
    SaysDescribed(rows);
    SaysThree(Parsed(count), Msg('1', []), Msg('t', Int4s(count)), Described(rows), About(rows));
  }

  lemma Tags()
    ensures Text("SELECT 1") + [0] == [83, 69, 76, 69, 67, 84, 32, 49, 0]
    ensures Text("UPDATE 1") + [0] == [85, 80, 68, 65, 84, 69, 32, 49, 0]
    ensures Text("I") == [73] && Text("42") == [52, 50]
  {
  }

  lemma SaysResult(rows: bool, cold: bool)
    ensures Says(Result(rows, cold), Outcomes(rows, if cold then TEXT_ROW else BINARY_ROW)) == true
  {
    Tags();
    if rows {
      SaysRow(cold);
      SaysSelect();
      SaysTwo(DataRow(if cold then [52, 50] else U32(42)), Msg('D', if cold then TEXT_ROW else BINARY_ROW),
              SELECT_ONE, SELECTED);
    } else {
      SaysMessage(0x43, Text("UPDATE 1") + [0]);
    }
  }

  lemma SaysSelect()
    ensures Says(SELECT_ONE, [SELECTED]) == true
  {
    Tags();
    SaysMessage(0x43, Text("SELECT 1") + [0]);
  }

  lemma SaysRow(cold: bool)
    ensures Says(DataRow(if cold then [52, 50] else U32(42)),
                 [Msg('D', if cold then TEXT_ROW else BINARY_ROW)]) == true
  {
    RowBytes(cold);
    SaysMessage(0x44, if cold then TEXT_ROW else BINARY_ROW);
  }

  lemma RowBytes(cold: bool)
    ensures var value: bytes := if cold then [52, 50] else U32(42);
            U16(1) + U32(|value|) + value == if cold then TEXT_ROW else BINARY_ROW
  {
    Tags();
  }

  lemma SaysEnds()
    ensures Says(BIND_COMPLETE, [Msg('2', [])]) == true && Says(READY, [IDLE]) == true
  {
    Tags();
    SaysMessage(0x32, []);
    SaysMessage(0x5A, [73]);
  }

  lemma SaysFour(a: bytes, x: seq<Frame>, b: bytes, y: seq<Frame>, c: bytes, z: seq<Frame>, d: bytes, w: seq<Frame>)
    requires Says(a, x) == true && Says(b, y) == true && Says(c, z) == true && Says(d, w) == true
    ensures Says(a + b + c + d, x + y + z + w) == true
  {
    SaysPlus(a, x, b, y);
    SaysPlus(a + b, x + y, c, z);
    SaysPlus(a + b + c, x + y + z, d, w);
  }

  lemma SaysPortal(flight: seq<Frame>, rows: bool)
    ensures Says(Portal(flight, rows), if PortalDescribed(flight) then [About(rows)] else []) == true
  {
    SaysDescribed(rows);
    SaysNothing();
  }

  lemma SaysAnswer(flight: seq<Frame>, rows: bool, cold: bool)
    ensures Says(Answer(flight, rows, cold),
                 Execution(PortalDescribed(flight), rows, if cold then TEXT_ROW else BINARY_ROW)) == true
  {
    var row := if cold then TEXT_ROW else BINARY_ROW;
    var asked := if PortalDescribed(flight) then [About(rows)] else [];
    SaysEnds();
    SaysPortal(flight, rows);
    SaysResult(rows, cold);
    SaysFour(BIND_COMPLETE, [Msg('2', [])], Portal(flight, rows), asked, Result(rows, cold), Outcomes(rows, row),
             READY, [IDLE]);
  }

  lemma SaysReply(flight: seq<Frame>, sql: bytes, count: nat, cold: bool)
    requires count < 0x1_0000
    ensures var rows := Selects(StripText(sql));
            Says(Reply(flight, sql, count, cold),
                 (if cold then Introduction(count, rows) else [])
                 + Execution(PortalDescribed(flight), rows, if cold then TEXT_ROW else BINARY_ROW)) == true
  {
    var rows := Selects(StripText(sql));
    SaysNothing();
    SaysIntroduction(count, rows);
    SaysAnswer(flight, rows, cold);
    SaysPlus(if cold then Parsed(count) + Described(rows) else [], if cold then Introduction(count, rows) else [],
             Answer(flight, rows, cold),
             Execution(PortalDescribed(flight), rows, if cold then TEXT_ROW else BINARY_ROW));
  }

  // ---- The flights ------------------------------------------------------------------------------------

  predicate IsHot(sql: bytes) {
    sql == Text("select $1::int4")
  }

  /** The parameters a prepared statement is said to have. */
  function Declared(st: Statement): nat {
    if IsHot(st.sql) then 1 else st.count
  }

  /** The hot statement, and the kinds of message a client sends. */
  lemma Spelled()
    ensures IsHot(HOT_SQL)
    ensures PARSE == 'P' as int && BIND == 'B' as int && DESCRIBE == 'D' as int && FLUSH == 'H' as int
    ensures SYNC == 'S' as int && TERMINATE == 'X' as int
    ensures SYNC_BYTES == Text("S") + [0, 0, 0, 4]
  {
  }

  /** Some Describe of the flight is for a portal. */
  predicate PortalAsked(fs: seq<Frame>) {
    exists f :: f in fs && f.kind == 'D' as int && f.payload != [] && f.payload[0] == 'P' as int
  }

  lemma AskedSame(fs: seq<Frame>, f: Frame)
    requires f.kind != DESCRIBE
    ensures PortalDescribed(fs + [f]) <==> PortalAsked(fs)
  {
    assert forall g :: g in fs + [f] <==> g in fs || g == f;
  }

  lemma ClosedFlight(core: Core, fs: seq<Frame>, f: Frame)
    requires core.flight == [] && AllWait(fs)
    ensures Run(core, fs + [f]) == Step(core.(flight := fs), f)
    ensures forall kind: byte :: kind != f.kind ==> Payloads(fs + [f], kind) == Payloads(fs, kind)
  {
    WaitRun(core, fs);
    assert core.flight + fs == fs;
    RunAppend(core, fs, [f]);
    OneFrame(core.(flight := fs), f);
    forall kind: byte | kind != f.kind ensures Payloads(fs + [f], kind) == Payloads(fs, kind) {
      PayloadsAppend(fs, f, kind);
    }
  }

  lemma OneFrame(core: Core, f: Frame)
    ensures Then([], Run(core, [f])) == Step(core, f)
  {
    assert [f][1..] == [];
    var r := Step(core, f);
    if r.Next? {
      assert Run(core, [f]) == Then(r.out, Next(r.core, []));
      assert r.out + [] == r.out && [] + r.out == r.out;
    }
  }

  /** A flight that parses its statement, closed by a Sync. The statement is kept under its name; the
      answer tells of it, then of its execution, with the value as text. */
  lemma ColdFlight(core: Core, fs: seq<Frame>, st: Statement)
    requires core.flight == [] && AllWait(fs) && Payloads(fs, 'P' as int) != []
    requires ReadParse(Payloads(fs, 'P' as int)[0]) == Some(st)
    ensures var r := Run(core, fs + [Msg('S', [])]);
            && r.Next? && r.core == core.(statements := core.statements[st.name := st.sql])
            && var rows := Selects(StripText(st.sql));
               Says(r.out, Introduction(st.count, rows) + Execution(PortalAsked(fs), rows, TEXT_ROW))
  {
    ColdOutcome(core, fs, st);
    AskedSame(fs, Msg('S', []));
    SaysReply(fs + [Msg('S', [])], st.sql, st.count, true);
  }

  lemma ColdOutcome(core: Core, fs: seq<Frame>, st: Statement)
    requires core.flight == [] && AllWait(fs) && Payloads(fs, PARSE) != []
    requires ReadParse(Payloads(fs, PARSE)[0]) == Some(st)
    ensures st.count < 0x1_0000
    ensures Run(core, fs + [Msg('S', [])])
            == Next(core.(statements := core.statements[st.name := st.sql]),
                    Reply(fs + [Msg('S', [])], st.sql, st.count, true))
  {
    ClosedFlight(core, fs, Msg('S', []));
  }

  /** A flight that binds a statement parsed before. The hot statement switches the counting arm on; the
      value is in binary. */
  lemma WarmFlight(core: Core, fs: seq<Frame>, sql: bytes)
    requires core.flight == [] && AllWait(fs) && Payloads(fs, 'P' as int) == [] && Payloads(fs, 'B' as int) != []
    requires var name := BindName(Payloads(fs, 'B' as int)[0]);
             name in core.statements && core.statements[name] == sql
    ensures var r := Run(core, fs + [Msg('S', [])]);
            && r.Next? && r.core == core.(hot := core.hot || IsHot(sql))
            && Says(r.out, Execution(PortalAsked(fs), Selects(StripText(sql)), BINARY_ROW))
  {
    Spelled();
    WarmOutcome(core, fs, sql);
    AskedSame(fs, Msg('S', []));
    SaysReply(fs + [Msg('S', [])], sql, 0, false);
    var told := Execution(PortalAsked(fs), Selects(StripText(sql)), BINARY_ROW);
    assert [] + told == told;
  }

  lemma WarmOutcome(core: Core, fs: seq<Frame>, sql: bytes)
    requires core.flight == [] && AllWait(fs) && Payloads(fs, PARSE) == [] && Payloads(fs, BIND) != []
    requires var name := BindName(Payloads(fs, BIND)[0]);
             name in core.statements && core.statements[name] == sql
    ensures Run(core, fs + [Msg('S', [])])
            == Next(core.(hot := core.hot || sql == HOT_SQL), Reply(fs + [Msg('S', [])], sql, 0, false))
  {
    ClosedFlight(core, fs, Msg('S', []));
  }

  /** A flight that parses its statement, closed by a Flush: only the preparation is told. The hot
      statement has one parameter whatever the Parse declared. */
  lemma PreparingFlight(core: Core, fs: seq<Frame>, st: Statement)
    requires core.flight == [] && AllWait(fs) && Payloads(fs, 'P' as int) != []
    requires ReadParse(Payloads(fs, 'P' as int)[0]) == Some(st)
    ensures var r := Run(core, fs + [Msg('H', [])]);
            && r.Next? && r.core == core.(statements := core.statements[st.name := st.sql])
            && Says(r.out, Introduction(Declared(st), Selects(StripBytes(st.sql))))
  {
    Spelled();
    ClosedFlight(core, fs, Msg('H', []));
    SaysIntroduction(Declared(st), Selects(StripBytes(st.sql)));
  }

  /** What asyncpg is told when it prepares the hot statement, whatever count it declares: one int4
      parameter and one int4 column. */
  lemma HotPrepared(name: bytes, count: nat, others: seq<Frame>)
    requires count < 0x1_0000 && 0 !in name && AllWait(ColdFrames(name, count, others))
    ensures var r := Run(INIT, ColdFrames(name, count, others) + [Msg('H', [])]);
            r.Next? && Says(r.out, [Msg('1', []), Msg('t', [0, 1, 0, 0, 0, 23]), About(true)])
  {
    Spelled();
    HotKnown(name, count, others);
    PreparingFlight(INIT, ColdFrames(name, count, others), Statement(name, HOT_SQL, count));
    HotSelects();
    OneInt4();
  }

  lemma HotKnown(name: bytes, count: nat, others: seq<Frame>)
    requires count < 0x1_0000 && 0 !in name
    ensures var parses := Payloads(ColdFrames(name, count, others), PARSE);
            parses != [] && ReadParse(parses[0]) == Some(Statement(name, HOT_SQL, count))
  {
    HotParse(name, count);
    assert ColdFrames(name, count, others)[0] == Frame(PARSE, ParsePayload(name, count));
  }

  lemma OneInt4()
    ensures Int4s(1) == [0, 1, 0, 0, 0, 23]
  {
  }

  /** The counting arm's canned answer. */
  lemma HotAnswer()
    ensures Says(HOT_RESPONSE, [Msg('2', []), Msg('D', [0, 1, 0, 0, 0, 4, 0, 0, 0, 42]),
                                SELECTED, IDLE])
  {
    Tags();
    SaysEnds();
    SaysRow(false);
    SaysSelect();
    SaysInTurn(BIND_COMPLETE, Msg('2', []), DataRow(U32(42)), Msg('D', BINARY_ROW),
               SELECT_ONE, SELECTED, READY, IDLE);
  }

  function Version(): bytes {
    Text("server_version") + [0] + Text("17.0") + [0]
  }

  /** The answer to a startup packet: no authentication, the version, a key, and ready. */
  lemma StartupAnswer()
    ensures Says(STARTUP_OK, [Msg('R', [0, 0, 0, 0]), Msg('S', Version()), Msg('K', [0, 0, 0, 1, 0, 0, 0, 2]),
                              IDLE])
  {
    SaysEnds();
    StartupPayloads();
    SaysMessage(0x52, [0, 0, 0, 0]);
    SaysMessage(0x53, Version());
    SaysMessage(0x4B, [0, 0, 0, 1, 0, 0, 0, 2]);
    SaysInTurn(Message(0x52, [0, 0, 0, 0]), Msg('R', [0, 0, 0, 0]), Message(0x53, Version()), Msg('S', Version()),
               Message(0x4B, [0, 0, 0, 1, 0, 0, 0, 2]), Msg('K', [0, 0, 0, 1, 0, 0, 0, 2]),
               READY, IDLE);
  }

  lemma StartupPayloads()
    ensures Version() == [115, 101, 114, 118, 101, 114, 95, 118, 101, 114, 115, 105, 111, 110, 0, 49, 55, 46, 48, 0]
    ensures U32(0) == [0, 0, 0, 0] && U32(1) + U32(2) == [0, 0, 0, 1, 0, 0, 0, 2]
  {
  }

  lemma SaysInTurn(a: bytes, f: Frame, b: bytes, g: Frame, c: bytes, h: Frame, d: bytes, k: Frame)
    requires Says(a, [f]) == true && Says(b, [g]) == true && Says(c, [h]) == true && Says(d, [k]) == true
    ensures Says(a + b + c + d, [f, g, h, k]) == true
  {
    SaysFour(a, [f], b, [g], c, [h], d, [k]);
    assert [f] + [g] + [h] + [k] == [f, g, h, k];
  }

  /** A cancel request is sixteen bytes by its own account, with code 80877102 after the length; of all
      streams that have a whole first packet it alone is told nothing, and it closes the connection. */
  lemma CancelExactly(d: bytes)
    requires Begun(d)
    ensures IsCancel(d) <==> |d| >= 16 && d[..8] == [0, 0, 0, 16, 4, 210, 22, 46]
    ensures IsCancel(d) ==> Open(d) == (Ended(false), [])
    ensures !IsCancel(d) ==> STARTUP_OK <= Open(d).1 && STARTUP_OK != []
  {
    if |d| >= 16 {
      NetworkOrder(d, 0);
      NetworkOrder(d, 4);
    }
  }

  lemma NetworkOrder(d: bytes, at: nat)
    requires at + 4 <= |d|
    ensures Int32(d, at)
            == 0x100_0000 * d[at] as int + 0x1_0000 * d[at + 1] as int + 0x100 * d[at + 2] as int + d[at + 3] as int
  {
  }

  // ---- Whether a statement returns rows ----------------------------------------------------------------

  /** The first six letters, each in either case. */
  lemma SelectsSpelled(s: bytes)
    ensures Selects(s) <==>
              |s| >= 6 && forall i :: 0 <= i < 6 ==> s[i] == Text("select")[i] || s[i] == Text("SELECT")[i]
  {
    assert Text("select") == [115, 101, 108, 101, 99, 116] && Text("SELECT") == [83, 69, 76, 69, 67, 84];
  }

  /** Space, tab, newline, carriage return, vertical tab, form feed. */
  predicate AsciiSpace(b: byte) {
    b in {32, 9, 10, 13, 11, 12}
  }

  /** `bytes.lstrip` drops the ASCII white space in front, all of it and nothing else. */
  lemma {:induction false} StripBytesIs(s: bytes) returns (n: nat)
    ensures n <= |s| && StripBytes(s) == s[n..] && (n < |s| ==> !AsciiSpace(s[n]))
    ensures forall b :: b in s[..n] ==> AsciiSpace(b)
  {
    if s != [] && AsciiSpace(s[0]) {
      var m := StripBytesIs(s[1..]);
      n := m + 1;
      assert s[1..][m..] == s[n..];
      assert s[..n] == [s[0]] + s[1..][..m];
    } else {
      n := 0;
      assert s[0..] == s;
    }
  }

  lemma {:induction false} StripTwice(s: bytes)
    ensures StripText(StripBytes(s)) == StripText(s)
    decreases |s|
  {
    if s != [] && AsciiSpace(s[0]) {
      assert SpaceLength(s) == 1;
      StripTwice(s[1..]);
    }
  }

  /** The preparation looks at bytes and the answer at text. They agree on whether a statement returns rows
      unless it is a select with white space in front that is not ASCII's. */
  lemma RowsAgree(sql: bytes)
    ensures (Selects(StripBytes(sql)) <==> Selects(StripText(sql)))
            <==> !(Selects(StripText(sql)) && SpaceLength(StripBytes(sql)) > 0)
  {
    StripTwice(sql);
    var t := StripBytes(sql);
    if SpaceLength(t) > 0 {
      assert !Selects(t);
    } else {
      assert StripText(t) == t;
    }
  }

  /** Such a statement: behind a no-break space it is prepared as one without rows and answered with one. */
  lemma NoBreakSpace(rest: bytes)
    ensures var sql := [0xC2, 0xA0] + Text("select") + rest;
            !Selects(StripBytes(sql)) && Selects(StripText(sql))
  {
    var sql := [0xC2, 0xA0] + Text("select") + rest;
    assert Text("select") == [115, 101, 108, 101, 99, 116];
    assert sql[2..] == Text("select") + rest;
    assert SpaceLength(sql) == 2 && SpaceLength(sql[2..]) == 0;
  }

  /** The white space of Unicode, by code point. */
  predicate IsSpace(p: nat) {
    || 9 <= p <= 13 || 28 <= p <= 32 || 0x2000 <= p <= 0x200A
    || p in {0x85, 0xA0, 0x1680, 0x2028, 0x2029, 0x202F, 0x205F, 0x3000}
  }

  /** `str.lstrip` drops exactly the white-space characters: each is dropped whole, and no other is. */
  lemma SpaceIs(p: nat, rest: bytes)
    requires p < 0x11_0000
    ensures SpaceLength(Utf8(p) + rest) == if IsSpace(p) then |Utf8(p)| else 0
  {
    var s := Utf8(p) + rest;
    if 0x800 <= p < 0x1_0000 {
      ThreeBytes(p);
      assert s[..3] == Utf8(p);
    }
  }

  lemma ThreeBytes(p: nat)
    requires 0x800 <= p < 0x1_0000
    ensures var a, b, c := 0xE0 + p / 4096, 0x80 + p / 64 % 64, 0x80 + p % 64;
            && IsSpace(p) == ((a == 0xE1 && b == 0x9A && c == 0x80) || (a == 0xE2 && b == 0x81 && c == 0x9F)
                              || (a == 0xE3 && b == 0x80 && c == 0x80)
                              || (a == 0xE2 && b == 0x80 && (0x80 <= c <= 0x8A || c in {0xA8, 0xA9, 0xAF})))
  {
  }

  lemma {:induction false} StripTextStops(s: bytes)
    ensures SpaceLength(StripText(s)) == 0
    decreases |s|
  {
    if SpaceLength(s) > 0 { StripTextStops(s[SpaceLength(s)..]); }
  }
}
