/** The benchmark's own traffic: a startup, frames that parse the hot statement up to a Sync or, as asyncpg
    prepares it, up to a Flush; then any number of Bind, Execute, Sync flights. It is orderly, and the
    delimiter-counting arm takes over after the first of them. */
module PgTraffic {
  import opened Options
  import opened Delimiters
  import opened Streams
  import opened Wire
  import opened PgModel
  import opened PgFraming
  import opened PgSessions
  import opened PgEndings
  import opened PgHot

  const EXECUTE: byte := 0x45

  // ---- Payloads ---------------------------------------------------------------------------------

  function ParsePayload(name: bytes, count: nat): bytes
    requires count < 0x1_0000
  {
    name + [0] + (HOT_SQL + [0] + U16(count))
  }

  function BindPayload(portal: bytes, name: bytes, rest: bytes): bytes {
    portal + [0] + (name + [0] + rest)
  }

  lemma PartitionAt(a: bytes, b: bytes)
    requires 0 !in a
    ensures Partition(a + [0] + b) == (a, b)
  {
    var s := a + [0] + b;
    assert s[|a|..|a| + 1] == [0];
    assert At(s, [0], |a|);
    forall k | 0 <= k < |a| ensures !At(s, [0], k) {
      assert s[k..k + 1] == [a[k]];
    }
    assert Find(s, [0]) == |a|;
  }

  predicate Ascii(s: bytes) {
    forall i :: 0 <= i < |s| ==> 0 < s[i] < 0x80
  }

  lemma {:induction false} AsciiText(s: bytes)
    requires Ascii(s)
    ensures IsUtf8(s) && 0 !in s
    decreases |s|
  {
    if s != [] {
      AsciiText(s[1..]);
      assert s == [s[0]] + s[1..];
    }
  }

  lemma HotParse(name: bytes, count: nat)
    requires count < 0x1_0000 && 0 !in name
    ensures ReadParse(ParsePayload(name, count)) == Some(Statement(name, HOT_SQL, count))
  {
    assert Ascii(HOT_SQL);
    ParseText(name, HOT_SQL, count);
  }

  lemma ParseText(name: bytes, sql: bytes, count: nat)
    requires count < 0x1_0000 && 0 !in name && Ascii(sql)
    ensures ReadParse(name + [0] + (sql + [0] + U16(count))) == Some(Statement(name, sql, count))
  {
    AsciiText(sql);
    ParseRead(name, sql, U16(count));
    assert U16(count)[0..2] == U16(count);
    Int16Of(count, U16(count), 0);
  }

  /** A Parse holds the name, the statement, and the count of its parameters in network order. */
  lemma ParseRead(name: bytes, sql: bytes, parameters: bytes)
    requires 0 !in name && 0 !in sql && IsUtf8(sql) && |parameters| >= 2
    ensures ReadParse(name + [0] + (sql + [0] + parameters)) == Some(Statement(name, sql, Int16(parameters, 0)))
    ensures Int16(parameters, 0) == 256 * parameters[0] as int + parameters[1] as int
  {
    PartitionAt(name, sql + [0] + parameters);
    PartitionAt(sql, parameters);
  }

  /** A Bind holds the portal, then the name of the statement. */
  lemma BindNames(portal: bytes, name: bytes, rest: bytes)
    requires 0 !in portal && 0 !in name
    ensures BindName(BindPayload(portal, name, rest)) == name
  {
    PartitionAt(portal, name + [0] + rest);
    PartitionAt(name, rest);
  }

  // ---- Flights ----------------------------------------------------------------------------------

  datatype Flight = Flight(portal: bytes, rest: bytes, execute: bytes)

  function WarmFrames(name: bytes, fl: Flight): seq<Frame> {
    [Frame(BIND, BindPayload(fl.portal, name, fl.rest)), Frame(EXECUTE, fl.execute), Frame(SYNC, [])]
  }

  /** A portal name, and no S byte outside the Sync. */
  predicate Proper(name: bytes, fl: Flight) {
    0 !in fl.portal && forall f :: f in WarmFrames(name, fl) ==> SyncOrPlain(f)
  }

  predicate AllProper(name: bytes, fls: seq<Flight>) {
    fls == [] || (Proper(name, fls[0]) && AllProper(name, fls[1..]))
  }

  function AllFrames(name: bytes, fls: seq<Flight>): seq<Frame> {
    if fls == [] then [] else WarmFrames(name, fls[0]) + AllFrames(name, fls[1..])
  }

  lemma {:induction false} ProperFrames(name: bytes, fls: seq<Flight>)
    requires AllProper(name, fls)
    ensures forall f :: f in AllFrames(name, fls) ==> SyncOrPlain(f) && Sendable(f)
  {
    if fls != [] { ProperFrames(name, fls[1..]); }
  }

  lemma HotSelects()
    ensures Selects(StripText(HOT_SQL)) == true && Selects(StripBytes(HOT_SQL)) == true
  {
    Unspaced(HOT_SQL);
  }

  lemma Unspaced(s: bytes)
    requires s != [] && 97 <= s[0] <= 122
    ensures StripText(s) == s && StripBytes(s) == s
  {
    assert SpaceLength(s) == 0;
  }

  /** One flight leaves the rest of the traffic as warm as it was. */
  lemma WarmMore(statements: map<bytes, bytes>, name: bytes, fl: Flight, later: seq<Frame>)
    requires name in statements && statements[name] == HOT_SQL && 0 !in name && 0 !in fl.portal
    requires Warm(statements, [], later)
    ensures Warm(statements, [], WarmFrames(name, fl) + later)
  {
    var fs := WarmFrames(name, fl);
    WarmBound(statements, name, fl);
    WarmThree(statements, fs[0], fs[1], fs[2], later);
    assert [fs[0], fs[1], fs[2]] == fs;
  }

  lemma WarmThree(statements: map<bytes, bytes>, b: Frame, x: Frame, y: Frame, later: seq<Frame>)
    requires b.kind == BIND && x.kind == EXECUTE && y.kind == SYNC
    requires WarmFlight(statements, [b, x, y]) == true && Warm(statements, [], later) == true
    ensures Warm(statements, [], [b, x, y] + later) == true
  {
    WarmCons(statements, [b, x], y, [b, x, y], later);
    WarmCons(statements, [b], x, [b, x], [y] + later);
    WarmCons(statements, [], b, [b], [x] + ([y] + later));
    InFront(b, x, y, later);
  }

  lemma InFront(b: Frame, x: Frame, y: Frame, later: seq<Frame>)
    ensures [b] + ([x] + ([y] + later)) == [b, x, y] + later
  {
  }

  lemma WarmCons(statements: map<bytes, bytes>, flight: seq<Frame>, f: Frame, grown: seq<Frame>, later: seq<Frame>)
    requires f.kind != TERMINATE && f.kind != PARSE && grown == flight + [f]
    requires if f.kind == SYNC then WarmFlight(statements, grown) == true && Warm(statements, [], later) == true
             else Warm(statements, grown, later) == true
    ensures Warm(statements, flight, [f] + later) == true
  {
    assert ([f] + later)[1..] == later;
  }

  lemma WarmBound(statements: map<bytes, bytes>, name: bytes, fl: Flight)
    requires name in statements && statements[name] == HOT_SQL && 0 !in name && 0 !in fl.portal
    ensures WarmFlight(statements, WarmFrames(name, fl)) && Payloads(WarmFrames(name, fl), PARSE) == []
    ensures Payloads(WarmFrames(name, fl), BIND) == [BindPayload(fl.portal, name, fl.rest)]
  {
    var fs := WarmFrames(name, fl);
    PayloadsOfThree(fs[0], fs[1], fs[2], BIND);
    PayloadsOfThree(fs[0], fs[1], fs[2], PARSE);
    assert fs == [fs[0], fs[1], fs[2]];
    BindNames(fl.portal, name, fl.rest);
    HotSelects();
  }

  lemma PayloadsOfThree(b: Frame, x: Frame, y: Frame, kind: byte)
    requires x.kind != kind && y.kind != kind
    ensures Payloads([b, x, y], kind) == if b.kind == kind then [b.payload] else []
  {
    assert [] + [b] == [b] && [b] + [x] == [b, x] && [b, x] + [y] == [b, x, y];
    PayloadsAppend([], b, kind);
    PayloadsAppend([b], x, kind);
    PayloadsAppend([b, x], y, kind);
  }

  lemma {:induction false} AllWarm(statements: map<bytes, bytes>, name: bytes, fls: seq<Flight>)
    requires name in statements && statements[name] == HOT_SQL && 0 !in name && AllProper(name, fls)
    ensures Warm(statements, [], AllFrames(name, fls))
  {
    if fls != [] {
      AllWarm(statements, name, fls[1..]);
      WarmMore(statements, name, fls[0], AllFrames(name, fls[1..]));
    }
  }

  /** Once hot, the rest of the traffic is warm and clean. */
  lemma HotTraffic(core: Core, name: bytes, fls: seq<Flight>, tail: bytes)
    requires core.hot && core.flight == [] && name in core.statements && core.statements[name] == HOT_SQL
    requires 0 !in name && AllProper(name, fls) && FrameSize(tail) == 0 && SYNC !in tail
    ensures (forall f :: f in AllFrames(name, fls) ==> Sendable(f))
    ensures Calm(core, Encode(AllFrames(name, fls)) + tail)
  {
    var fs := AllFrames(name, fls);
    ProperFrames(name, fls);
    AllWarm(core.statements, name, fls);
    PlainIsClean(fs, tail);
    FramesInvertEncode(fs, tail);
    assert Frames(tail) == ([], tail);
    assert fs + [] == fs;
  }

  // ---- Before the arm takes over --------------------------------------------------------------------

  lemma CalmFrame(core: Core, f: Frame, rest: bytes)
    requires !core.hot && Sendable(f) && Step(core, f).Next? && Calm(Step(core, f).core, rest)
    ensures Calm(core, Message(f.kind, f.payload) + rest)
  {
    MessageFrame(f, rest);
  }

  /** Frames that only wait for the Sync. */
  predicate Waits(f: Frame) {
    Sendable(f) && f.kind != TERMINATE && f.kind != FLUSH && f.kind != SYNC
  }

  predicate AllWait(fs: seq<Frame>) {
    fs == [] || (Waits(fs[0]) && AllWait(fs[1..]))
  }

  lemma {:induction false} WaitSendable(fs: seq<Frame>)
    requires AllWait(fs)
    ensures forall f :: f in fs ==> Sendable(f)
  {
    if fs != [] { WaitSendable(fs[1..]); }
  }

  lemma {:induction false} CalmWaiting(core: Core, fs: seq<Frame>, rest: bytes)
    requires !core.hot && AllWait(fs) && Calm(core.(flight := core.flight + fs), rest)
    ensures (forall f :: f in fs ==> Sendable(f)) && Calm(core, Encode(fs) + rest)
    decreases |fs|
  {
    WaitSendable(fs);
    if fs == [] {
      assert core.flight + fs == core.flight && Encode(fs) + rest == rest;
    } else {
      var f, later := fs[0], fs[1..];
      var next := core.(flight := core.flight + [f]);
      FlightCons(core.flight, fs);
      CalmWaiting(next, later, rest);
      CalmWait(core, f, Encode(later) + rest);
      EncodeCons(fs, rest);
    }
  }

  lemma CalmWait(core: Core, f: Frame, rest: bytes)
    requires !core.hot && Waits(f) && Calm(core.(flight := core.flight + [f]), rest)
    ensures Calm(core, Message(f.kind, f.payload) + rest)
  {
    WaitStep(core, f);
    CalmFrame(core, f, rest);
  }

  lemma FlightCons(flight: seq<Frame>, fs: seq<Frame>)
    requires fs != []
    ensures (flight + [fs[0]]) + fs[1..] == flight + fs
  {
  }

  lemma WaitStep(core: Core, f: Frame)
    requires Waits(f)
    ensures Step(core, f) == Next(core.(flight := core.flight + [f]), [])
  {
  }

  lemma EncodeCons(fs: seq<Frame>, rest: bytes)
    requires fs != [] && forall f :: f in fs ==> Sendable(f)
    ensures Sendable(fs[0])
    ensures Encode(fs) + rest == Message(fs[0].kind, fs[0].payload) + (Encode(fs[1..]) + rest)
  {
    assert fs[0] in fs;
    Plus(Message(fs[0].kind, fs[0].payload), Encode(fs[1..]), rest);
  }

  function ColdFrames(name: bytes, count: nat, others: seq<Frame>): seq<Frame>
    requires count < 0x1_0000
  {
    [Frame(PARSE, ParsePayload(name, count))] + others
  }

  const SYNC_FRAME := Frame(SYNC, [])

  /** What ends the parsing frames: a Sync, or a Flush. */
  predicate Closes(end: byte) {
    end == SYNC || end == FLUSH
  }

  /** The statement is known after the frames that parse it, and the session is still cold. */
  lemma CalmCold(name: bytes, count: nat, others: seq<Frame>, end: byte, rest: bytes)
    requires count < 0x1_0000 && 0 !in name && AllWait(ColdFrames(name, count, others)) && Closes(end)
    requires Calm(Core(map[name := HOT_SQL], [], false), rest)
    ensures (forall f :: f in ColdFrames(name, count, others) ==> Sendable(f))
    ensures Calm(INIT, Encode(ColdFrames(name, count, others)) + (Message(end, []) + rest))
  {
    var fs := ColdFrames(name, count, others);
    var core := Core(map[], fs, false);
    ColdStep(name, count, others, end);
    CalmFrame(core, Frame(end, []), rest);
    assert INIT.flight + fs == fs;
    CalmWaiting(INIT, fs, Message(end, []) + rest);
  }

  lemma SyncMessage()
    ensures Sendable(SYNC_FRAME) && Message(SYNC, []) == SYNC_BYTES
  {
  }

  lemma ColdStep(name: bytes, count: nat, others: seq<Frame>, end: byte)
    requires count < 0x1_0000 && 0 !in name && Closes(end)
    ensures var r := Step(Core(map[], ColdFrames(name, count, others), false), Frame(end, []));
            r.Next? && r.core == Core(map[name := HOT_SQL], [], false)
  {
    var core := Core(map[], ColdFrames(name, count, others), false);
    var now := core.(flight := core.flight + [Frame(end, [])]);
    ColdParse(name, count, others, end);
    ColdAnswer(now, end, ParsePayload(name, count), Statement(name, HOT_SQL, count));
    EndStep(core, now, end);
  }

  lemma EndStep(core: Core, now: Core, end: byte)
    requires now == core.(flight := core.flight + [Frame(end, [])]) && Closes(end)
    ensures Step(core, Frame(end, [])) == Dispatch(now, end)
  {
  }

  lemma ColdParse(name: bytes, count: nat, others: seq<Frame>, end: byte)
    requires count < 0x1_0000 && 0 !in name
    ensures var parses := Payloads(ColdFrames(name, count, others) + [Frame(end, [])], PARSE);
            && parses != [] && parses[0] == ParsePayload(name, count)
            && ReadParse(parses[0]) == Some(Statement(name, HOT_SQL, count))
  {
    var fs := ColdFrames(name, count, others) + [Frame(end, [])];
    assert fs[0] == Frame(PARSE, ParsePayload(name, count));
    HotParse(name, count);
  }

  lemma ColdAnswer(now: Core, end: byte, parse: bytes, st: Statement)
    requires Payloads(now.flight, PARSE) != [] && Payloads(now.flight, PARSE)[0] == parse
             && ReadParse(parse) == Some(st) && Closes(end)
    ensures var r := Dispatch(now, end);
            r.Next? && r.core == now.(statements := now.statements[st.name := st.sql], flight := [])
  {
  }

  /** The first warm flight switches the counting arm on. */
  lemma WarmSwitch(name: bytes, fl: Flight)
    requires 0 !in name && 0 !in fl.portal
    ensures var fs := WarmFrames(name, fl);
            var r := Step(Core(map[name := HOT_SQL], fs[..2], false), SYNC_FRAME);
            r.Next? && r.core == Core(map[name := HOT_SQL], [], true)
  {
    var fs := WarmFrames(name, fl);
    assert fs[..2] + [SYNC_FRAME] == fs;
    WarmBound(map[name := HOT_SQL], name, fl);
    BindNames(fl.portal, name, fl.rest);
  }

  lemma CalmWarm(name: bytes, fl: Flight, rest: bytes)
    requires 0 !in name && Proper(name, fl) && Calm(Core(map[name := HOT_SQL], [], true), rest)
    ensures (forall f :: f in WarmFrames(name, fl)[..2] ==> Sendable(f))
    ensures Calm(Core(map[name := HOT_SQL], [], false), Encode(WarmFrames(name, fl)[..2]) + (SYNC_BYTES + rest))
  {
    var fs := WarmFrames(name, fl);
    var core := Core(map[name := HOT_SQL], [], false);
    WarmWaits(name, fl);
    WaitSendable(fs[..2]);
    WarmSwitch(name, fl);
    SyncMessage();
    CalmFrame(core.(flight := fs[..2]), SYNC_FRAME, rest);
    assert core.flight + fs[..2] == fs[..2];
    CalmWaiting(core, fs[..2], SYNC_BYTES + rest);
  }

  // ---- The whole stream -----------------------------------------------------------------------------

  /** A startup packet and nothing else, not a cancel request. */
  predicate IsStartup(p: bytes) {
    Begun(p) && Int32(p, 0) == |p| && !IsCancel(p)
  }

  /** The frames that parse the hot statement, what ends them, then the flights that bind it. */
  function Traffic(name: bytes, count: nat, others: seq<Frame>, end: byte, fls: seq<Flight>): seq<Frame>
    requires count < 0x1_0000
  {
    ColdFrames(name, count, others) + ([Frame(end, [])] + AllFrames(name, fls))
  }

  /** Names and payloads as the client sends them: no zero byte in a name, and no S byte in a warm flight
      but its Sync's own. */
  predicate IsTraffic(name: bytes, count: nat, others: seq<Frame>, end: byte, fls: seq<Flight>) {
    && 0 !in name && count < 0x1_0000 && AllWait(ColdFrames(name, count, others)) && Closes(end)
    && AllProper(name, fls)
  }

  lemma TrafficSendable(name: bytes, count: nat, others: seq<Frame>, end: byte, fls: seq<Flight>)
    requires IsTraffic(name, count, others, end, fls)
    ensures forall f :: f in Traffic(name, count, others, end, fls) ==> Sendable(f)
  {
    WaitSendable(ColdFrames(name, count, others));
    ProperFrames(name, fls);
  }

  lemma {:induction false} EncodeAppend(a: seq<Frame>, b: seq<Frame>, rest: bytes)
    requires (forall f :: f in a ==> Sendable(f)) && (forall f :: f in b ==> Sendable(f))
    ensures forall f :: f in a + b ==> Sendable(f)
    ensures Encode(a + b) + rest == Encode(a) + (Encode(b) + rest)
    decreases |a|
  {
    if a == [] {
      assert a + b == b;
      Nothing(Encode(b) + rest);
    } else {
      assert (a + b)[0] == a[0] && (a + b)[1..] == a[1..] + b;
      EncodeAppend(a[1..], b, rest);
      EncodeCons(a, Encode(b) + rest);
      EncodeCons(a + b, rest);
    }
  }

  lemma EndThen(end: byte, fs: seq<Frame>, rest: bytes)
    requires forall f :: f in fs ==> Sendable(f)
    ensures forall f :: f in [Frame(end, [])] + fs ==> Sendable(f)
    ensures Encode([Frame(end, [])] + fs) + rest == Message(end, []) + (Encode(fs) + rest)
  {
    assert ([Frame(end, [])] + fs)[1..] == fs;
    EncodeCons([Frame(end, [])] + fs, rest);
  }

  /** The warm flights are calm from the moment the statement is known. */
  lemma CalmFlights(name: bytes, fls: seq<Flight>, tail: bytes)
    requires 0 !in name && AllProper(name, fls) && FrameSize(tail) == 0 && SYNC !in tail
    ensures (forall f :: f in AllFrames(name, fls) ==> Sendable(f))
    ensures Calm(Core(map[name := HOT_SQL], [], false), Encode(AllFrames(name, fls)) + tail)
  {
    ProperFrames(name, fls);
    if fls == [] {
      Nothing(tail);
    } else {
      var fs, later := WarmFrames(name, fls[0]), AllFrames(name, fls[1..]);
      HotTraffic(Core(map[name := HOT_SQL], [], true), name, fls[1..], tail);
      CalmWarm(name, fls[0], Encode(later) + tail);
      FlightBytes(fs, later, tail);
    }
  }

  lemma FlightBytes(fs: seq<Frame>, later: seq<Frame>, tail: bytes)
    requires |fs| == 3 && fs[2] == SYNC_FRAME && forall f :: f in fs + later ==> Sendable(f)
    ensures forall f :: f in fs[..2] ==> Sendable(f)
    ensures Encode(fs + later) + tail == Encode(fs[..2]) + (SYNC_BYTES + (Encode(later) + tail))
  {
    SyncMessage();
    EndThen(SYNC, later, tail);
    EncodeAppend(fs[..2], [SYNC_FRAME] + later, tail);
    assert fs[..2] + ([SYNC_FRAME] + later) == fs + later;
  }

  /** The traffic is orderly, even if it stops inside a frame: the refinement of the counting arm holds of
      it in every chunking. */
  lemma TrafficIsOrderly(p: bytes, name: bytes, count: nat, others: seq<Frame>, end: byte, fls: seq<Flight>,
                         tail: bytes)
    requires IsStartup(p) && IsTraffic(name, count, others, end, fls) && FrameSize(tail) == 0 && SYNC !in tail
    ensures (forall f :: f in Traffic(name, count, others, end, fls) ==> Sendable(f))
    ensures Orderly(p + (Encode(Traffic(name, count, others, end, fls)) + tail))
  {
    TrafficSendable(name, count, others, end, fls);
    ProperFrames(name, fls);
    WaitSendable(ColdFrames(name, count, others));
    var warm := Encode(AllFrames(name, fls)) + tail;
    CalmFlights(name, fls, tail);
    CalmCold(name, count, others, end, warm);
    EndThen(end, AllFrames(name, fls), tail);
    EncodeAppend(ColdFrames(name, count, others), [Frame(end, [])] + AllFrames(name, fls), tail);
    BehindStartup(p, Encode(Traffic(name, count, others, end, fls)) + tail);
  }

  lemma BehindStartup(p: bytes, body: bytes)
    requires IsStartup(p)
    ensures Begun(p + body) && !IsCancel(p + body) && (p + body)[Int32(p + body, 0)..] == body
  {
    BegunAppend(p, body);
    Nothing(body);
  }

  // ---- The arm does take over -----------------------------------------------------------------------

  lemma {:induction false} WaitRun(core: Core, fs: seq<Frame>)
    requires AllWait(fs)
    ensures Run(core, fs) == Next(core.(flight := core.flight + fs), [])
    decreases |fs|
  {
    if fs == [] {
      assert core.flight + fs == core.flight;
    } else {
      var next := core.(flight := core.flight + [fs[0]]);
      WaitStep(core, fs[0]);
      WaitRun(next, fs[1..]);
      FlightCons(core.flight, fs);
      RunCons(core, fs, Next(next, []), Run(next, fs[1..]));
    }
  }

  /** A flight: frames that wait, then what ends it. */
  lemma FlightRun(core: Core, fs: seq<Frame>, end: byte)
    requires AllWait(fs) && core.flight == [] && Step(core.(flight := fs), Frame(end, [])).Next?
    ensures Run(core, fs + [Frame(end, [])]).Next?
    ensures Run(core, fs + [Frame(end, [])]).core == Step(core.(flight := fs), Frame(end, [])).core
  {
    WaitRun(core, fs);
    assert core.flight + fs == fs;
    RunAppend(core, fs, [Frame(end, [])]);
    assert [Frame(end, [])][1..] == [];
  }

  /** After the statement is parsed and one warm flight the session is hot, so that whatever comes next
      goes through the counting arm. */
  lemma HotAfterOne(name: bytes, count: nat, others: seq<Frame>, end: byte, fl: Flight)
    requires IsTraffic(name, count, others, end, [fl])
    ensures Run(INIT, Traffic(name, count, others, end, [fl])).Next?
    ensures Run(INIT, Traffic(name, count, others, end, [fl])).core == Core(map[name := HOT_SQL], [], true)
  {
    var cold, fs := ColdFrames(name, count, others), WarmFrames(name, fl);
    var known := Core(map[name := HOT_SQL], [], false);
    ColdStep(name, count, others, end);
    FlightRun(INIT, cold, end);
    assert Run(INIT, cold + [Frame(end, [])]).core == known;
    WarmWaits(name, fl);
    WarmSwitch(name, fl);
    FlightRun(known, fs[..2], SYNC);
    assert fs[..2] + [SYNC_FRAME] == fs;
    RunAppend(INIT, cold + [Frame(end, [])], fs);
    OneFlight(name, fl);
    Plus(cold, [Frame(end, [])], fs);
  }

  lemma OneFlight(name: bytes, fl: Flight)
    ensures AllFrames(name, [fl]) == WarmFrames(name, fl)
  {
    assert [fl][1..] == [];
    assert AllFrames(name, []) == [];
    assert WarmFrames(name, fl) + [] == WarmFrames(name, fl);
  }

  lemma WarmWaits(name: bytes, fl: Flight)
    requires Proper(name, fl)
    ensures AllWait(WarmFrames(name, fl)[..2]) && 0 !in fl.portal
  {
    var fs := WarmFrames(name, fl);
    assert fs[0] in fs && fs[1] in fs;
    assert SyncOrPlain(fs[0]) && SyncOrPlain(fs[1]);
    assert fs[..2][1..] == [fs[1]] && [fs[1]][1..] == [];
    assert AllWait([fs[1]]);
  }

  lemma FramesOf(fs: seq<Frame>)
    requires forall f :: f in fs ==> Sendable(f)
    ensures Frames(Encode(fs)) == (fs, [])
  {
    FramesInvertEncode(fs, []);
    assert Encode(fs) + [] == Encode(fs) && fs + [] == fs;
    assert Frames([]) == ([], []);
  }

  /** The first chunk may end with that flight: the session then stands empty and hot. */
  lemma ArmTakesOver(p: bytes, name: bytes, count: nat, others: seq<Frame>, end: byte, fl: Flight)
    requires IsStartup(p) && IsTraffic(name, count, others, end, [fl])
    ensures (forall f :: f in Traffic(name, count, others, end, [fl]) ==> Sendable(f))
    ensures Open(p + Encode(Traffic(name, count, others, end, [fl]))).0
            == Live([], true, Core(map[name := HOT_SQL], [], true))
  {
    var fs := Traffic(name, count, others, end, [fl]);
    TrafficSendable(name, count, others, end, [fl]);
    HotAfterOne(name, count, others, end, fl);
    BehindStartup(p, Encode(fs));
    FramesOf(fs);
  }

  // ---- What a Terminate drops -----------------------------------------------------------------------

  const TERMINATE_FRAME := Frame(TERMINATE, [])

  lemma {:induction false} TerminateEnds(k: Desk, fs: seq<Frame>)
    ensures !Endless(k, fs + [TERMINATE_FRAME])
    decreases |fs|
  {
    var all := fs + [TERMINATE_FRAME];
    if fs != [] && !Ends(k, fs[0]) {
      assert all[0] == fs[0] && all[1..] == fs[1..] + [TERMINATE_FRAME];
      TerminateEnds(Onward(k, fs[0]), fs[1..]);
    }
  }

  lemma {:induction false} WaitDesk(k: Desk, fs: seq<Frame>, rest: seq<Frame>)
    requires AllWait(fs) && Silent(k, fs + rest)
    ensures Silent(k.(flight := k.flight + fs), rest)
    decreases |fs|
  {
    if fs == [] {
      assert fs + rest == rest && k.flight + fs == k.flight;
    } else {
      assert (fs + rest)[0] == fs[0] && (fs + rest)[1..] == fs[1..] + rest;
      FlightCons(k.flight, fs);
      WaitDesk(Onward(k, fs[0]), fs[1..], rest);
    }
  }

  lemma ParsedAnswers(name: bytes, count: nat, others: seq<Frame>, end: byte)
    requires 0 !in name && count < 0x1_0000 && Closes(end)
    ensures var k := Desk({}, ColdFrames(name, count, others));
            Answers(k, Frame(end, [])) && !Ends(k, Frame(end, []))
  {
    ColdKnown(name, count, others);
    AnswersParsed(Desk({}, ColdFrames(name, count, others)), end);
  }

  lemma ColdKnown(name: bytes, count: nat, others: seq<Frame>)
    requires 0 !in name && count < 0x1_0000
    ensures var parses := Payloads(ColdFrames(name, count, others), PARSE);
            parses != [] && ReadParse(parses[0]).Some? == true
  {
    assert ColdFrames(name, count, others)[0] == Frame(PARSE, ParsePayload(name, count));
    HotParse(name, count);
  }

  lemma AnswersParsed(k: Desk, end: byte)
    requires HasParse(k) && ReadParse(Payloads(k.flight, PARSE)[0]).Some? == true && Closes(end)
    ensures Answers(k, Frame(end, [])) && !Ends(k, Frame(end, []))
  {
  }

  /** The frames that parse a statement are answered at their end, whatever follows. */
  lemma NotSilent(name: bytes, count: nat, others: seq<Frame>, end: byte, rest: seq<Frame>)
    requires 0 !in name && count < 0x1_0000 && AllWait(ColdFrames(name, count, others)) && Closes(end)
    ensures !Silent(CLEAR, ColdFrames(name, count, others) + ([Frame(end, [])] + rest))
  {
    var fs := ColdFrames(name, count, others);
    if Silent(CLEAR, fs + ([Frame(end, [])] + rest)) {
      WaitDesk(CLEAR, fs, [Frame(end, [])] + rest);
      assert CLEAR.flight + fs == fs;
      ParsedAnswers(name, count, others, end);
      assert false;
    }
  }

  /** The traffic with a Terminate behind it. In one piece it hears the startup alone, every answer being
      dropped; cut elsewhere it hears more. */
  lemma TerminateDrops(p: bytes, name: bytes, count: nat, others: seq<Frame>, end: byte, fls: seq<Flight>)
    requires IsStartup(p) && IsTraffic(name, count, others, end, fls)
    ensures (forall f :: f in Traffic(name, count, others, end, fls) + [TERMINATE_FRAME] ==> Sendable(f))
    ensures var d := p + Encode(Traffic(name, count, others, end, fls) + [TERMINATE_FRAME]);
            && !Unhurried(d) && Open(d).1 == STARTUP_OK
            && exists chunks :: Cuts(chunks, d) && |FeedAll(false, NEW, chunks).1| > |STARTUP_OK|
  {
    TrafficSendable(name, count, others, end, fls);
    var fs := Traffic(name, count, others, end, fls) + [TERMINATE_FRAME];
    var d := p + Encode(fs);
    BehindStartup(p, Encode(fs));
    FramesOf(fs);
    TerminateEnds(CLEAR, Traffic(name, count, others, end, fls));
    var warm := AllFrames(name, fls) + [TERMINATE_FRAME];
    assert fs == ColdFrames(name, count, others) + ([Frame(end, [])] + warm);
    NotSilent(name, count, others, end, warm);
    UnhurriedIs(d);
    EndedSays(d);
    var chunks := HeardOtherwise(d);
    assert |Open(d).1 + Said(d)| > |Open(d).1|;
  }

  /** A startup packet of protocol 3.0 with no parameters, and the least traffic there is. */
  lemma LeastTraffic()
    ensures IsStartup(U32(8) + U32(0x3_0000))
    ensures IsTraffic([], 0, [], SYNC, [Flight([], [], [])]) && IsTraffic([], 0, [], FLUSH, [Flight([], [], [])])
  {
    assert U32(8) + U32(0x3_0000) == [0, 0, 0, 8, 0, 3, 0, 0];
    LeastCold();
    LeastFlight();
  }

  lemma LeastCold()
    ensures AllWait(ColdFrames([], 0, [])) == true
  {
    var fs := ColdFrames([], 0, []);
    assert fs[1..] == [];
    assert |ParsePayload([], 0)| < 100;
    assert Waits(fs[0]);
  }

  lemma LeastFlight()
    ensures AllProper([], [Flight([], [], [])]) == true
  {
    var fl := Flight([], [], []);
    assert [fl][1..] == [];
    assert BindPayload([], [], []) == [0, 0];
    assert SyncOrPlain(Frame(BIND, [0, 0])) && SyncOrPlain(Frame(EXECUTE, [])) && SyncOrPlain(SYNC_FRAME);
    assert Proper([], fl);
  }
}
