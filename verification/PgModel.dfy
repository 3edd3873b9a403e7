/** The PostgreSQL responder on values: framing, flights, and the session as chunks arrive. */
module PgModel {
  import opened Options
  import opened Delimiters
  import opened Wire

  const PARSE: byte := 0x50
  const BIND: byte := 0x42
  const DESCRIBE: byte := 0x44
  const FLUSH: byte := 0x48
  const SYNC: byte := 0x53
  const TERMINATE: byte := 0x58

  datatype Frame = Frame(kind: byte, payload: bytes)

  // ---- Framing -----------------------------------------------------------------------------

  function Message(kind: byte, payload: bytes): bytes
    requires |payload| + 4 < 0x1_0000_0000
  {
    [kind] + U32(|payload| + 4) + payload
  }

  predicate Sendable(f: Frame) {
    |f.payload| + 4 < 0x1_0000_0000
  }

  function Encode(fs: seq<Frame>): bytes
    requires forall f :: f in fs ==> Sendable(f)
  {
    if fs == [] then [] else assert Sendable(fs[0]); Message(fs[0].kind, fs[0].payload) + Encode(fs[1..])
  }

  /** How many bytes the frame at the front takes, 0 while it is incomplete. */
  function FrameSize(b: bytes): (n: nat)
    ensures n <= |b|
  {
    if |b| < 5 || |b| < 1 + Int32(b, 1) then 0 else 1 + Int32(b, 1)
  }

  /** The frame at the front. A declared length under 4 leaves an empty payload. */
  function FrameOf(b: bytes): Frame
    requires FrameSize(b) > 0
  {
    Frame(b[0], if FrameSize(b) < 5 then [] else b[5..FrameSize(b)])
  }

  /** The complete frames of a buffer and the bytes left over. */
  function Frames(b: bytes): (r: (seq<Frame>, bytes))
    decreases |b|
  {
    var n := FrameSize(b);
    if n == 0 then ([], b) else
    var (fs, rest) := Frames(b[n..]);
    ([FrameOf(b)] + fs, rest)
  }

  // ---- Flights -----------------------------------------------------------------------------

  /** What a session remembers between frames. */
  datatype Core = Core(statements: map<bytes, bytes>, flight: seq<Frame>, hot: bool)

  const INIT := Core(map[], [], false)

  /** The payloads of one kind, in order. */
  function Payloads(flight: seq<Frame>, kind: byte): seq<bytes> {
    if flight == [] then []
    else (if flight[0].kind == kind then [flight[0].payload] else []) + Payloads(flight[1..], kind)
  }

  /** "select $1::int4" */
  const HOT_SQL: bytes := [115, 101, 108, 101, 99, 116, 32, 36, 49, 58, 58, 105, 110, 116, 52]

  function DataRow(value: bytes): bytes
    requires |value| < 0x1000
  {
    Message(0x44, U16(1) + U32(|value|) + value)
  }

  /** One column, "value", of type int4 (OID 23). */
  const ROW_DESCRIPTION: bytes :=
    Message(0x54, U16(1) + [118, 97, 108, 117, 101, 0] + U32(0) + U16(0) + U32(23) + U16(4)
                  + [255, 255, 255, 255] + U16(0))
  const NO_DATA: bytes := Message(0x6E, [])
  const BIND_COMPLETE: bytes := Message(0x32, [])
  const READY: bytes := Message(0x5A, [73])
  /** "SELECT 1" and "UPDATE 1", zero-terminated. */
  const SELECT_ONE: bytes := Message(0x43, [83, 69, 76, 69, 67, 84, 32, 49, 0])
  const UPDATE_ONE: bytes := Message(0x43, [85, 80, 68, 65, 84, 69, 32, 49, 0])

  const STARTUP_OK: bytes :=
    Message(0x52, U32(0))
    + Message(0x53, [115, 101, 114, 118, 101, 114, 95, 118, 101, 114, 115, 105, 111, 110, 0, 49, 55, 46, 48, 0])
    + Message(0x4B, U32(1) + U32(2))
    + READY
  const HOT_RESPONSE: bytes := BIND_COMPLETE + DataRow(U32(42)) + SELECT_ONE + READY
  const SYNC_BYTES: bytes := [SYNC, 0, 0, 0, 4]
  const CANCEL_CODE: nat := 80877102

  function Described(rows: bool): bytes {
    if rows then ROW_DESCRIPTION else NO_DATA
  }

  lemma {:induction false} RepeatLength(s: bytes, n: nat)
    ensures |Repeat(s, n)| == |s| * n
  {
    if n > 0 {
      RepeatLength(s, n - 1);
      assert |s| * n == |s| + |s| * (n - 1);
    }
  }

  /** ParseComplete and a ParameterDescription of `count` int4 parameters. */
  function Parsed(count: nat): bytes
    requires count < 0x1_0000
  {
    RepeatLength(U32(23), count);
    Message(0x31, []) + Message(0x74, U16(count) + Repeat(U32(23), count))
  }

  /** A Parse payload: the statement's name, its SQL and the parameter count. */
  datatype Statement = Statement(name: bytes, sql: bytes, count: nat)

  /** Nothing when decoding the SQL or reading the count raises. */
  function ReadParse(payload: bytes): (r: Option<Statement>)
    ensures r.Some? ==> r.value.count < 0x1_0000
  {
    var (name, tail) := Partition(payload);
    var (query, parameters) := Partition(tail);
    if !IsUtf8(query) || |parameters| < 2 then None
    else Some(Statement(name, query, Int16(parameters, 0)))
  }

  /** The statement a Bind payload names. */
  function BindName(payload: bytes): bytes {
    Partition(Partition(payload).1).0
  }

  /** What a client that only prepares is told. The hot statement is given the one parameter its text
      declares, whatever the count. */
  function Introduced(sql: bytes, count: nat): bytes
    requires count < 0x1_0000
  {
    Parsed(if sql == HOT_SQL then 1 else count) + Described(Selects(StripBytes(sql)))
  }

  /** `_prepare`: describe the flight's first Parse. */
  function Prepare(core: Core): Option<(Core, bytes)>
    requires Payloads(core.flight, PARSE) != []
  {
    match ReadParse(Payloads(core.flight, PARSE)[0])
    case None => None
    case Some(st) =>
      Some((core.(statements := core.statements[st.name := st.sql], flight := []),
            Introduced(st.sql, st.count)))
  }

  predicate PortalDescribed(flight: seq<Frame>) {
    exists f :: f in flight && f.kind == DESCRIBE && f.payload != [] && f.payload[0] == 0x50
  }

  /** The row with its tag, as text to a flight that parsed its statement and else in binary; or the tag of
      an update. */
  function Result(rows: bool, cold: bool): bytes {
    if rows then DataRow(if cold then [52, 50] else U32(42)) + SELECT_ONE else UPDATE_ONE
  }

  function Portal(flight: seq<Frame>, rows: bool): bytes {
    if PortalDescribed(flight) then Described(rows) else []
  }

  /** The part of an answer that follows the preparation. */
  function Answer(flight: seq<Frame>, rows: bool, cold: bool): bytes {
    BIND_COMPLETE
    + Portal(flight, rows)
    + Result(rows, cold)
    + READY
  }

  /** The whole answer; a flight that parsed its statement is told about it first. */
  function Reply(flight: seq<Frame>, sql: bytes, count: nat, cold: bool): bytes
    requires count < 0x1_0000
  {
    var rows := Selects(StripText(sql));
    (if cold then Parsed(count) + Described(rows) else []) + Answer(flight, rows, cold)
  }

  /** A flight that carries its own Parse. */
  function RespondCold(core: Core, parse: bytes): Option<(Core, bytes)> {
    match ReadParse(parse)
    case None => None
    case Some(st) =>
      Some((core.(statements := core.statements[st.name := st.sql], flight := []),
            Reply(core.flight, st.sql, st.count, true)))
  }

  /** A flight that binds a statement parsed before; the hot one switches the fast arm on. */
  function RespondWarm(core: Core): Option<(Core, bytes)> {
    var binds := Payloads(core.flight, BIND);
    if binds == [] || BindName(binds[0]) !in core.statements then None else
    var sql := core.statements[BindName(binds[0])];
    Some((core.(flight := [], hot := core.hot || sql == HOT_SQL), Reply(core.flight, sql, 0, false)))
  }

  /** `_respond`: answer a flight closed by Sync. */
  function Respond(core: Core): Option<(Core, bytes)> {
    var parses := Payloads(core.flight, PARSE);
    if parses != [] then RespondCold(core, parses[0]) else RespondWarm(core)
  }

  /** The session after a frame, or its end: by Terminate or by an exception. */
  datatype Outcome = Next(core: Core, out: bytes) | Closed | Failed

  function Step(core: Core, f: Frame): Outcome {
    if f.kind == TERMINATE then Closed else Dispatch(core.(flight := core.flight + [f]), f.kind)
  }

  /** What the frame just added to the flight brings about. */
  function Dispatch(now: Core, kind: byte): Outcome {
    if kind == FLUSH && Payloads(now.flight, PARSE) != [] then
      match Prepare(now) case None => Failed case Some(r) => Next(r.0, r.1)
    else if kind == SYNC then
      match Respond(now) case None => Failed case Some(r) => Next(r.0, r.1)
    else Next(now, [])
  }

  function Run(core: Core, fs: seq<Frame>): Outcome
    decreases |fs|
  {
    if fs == [] then Next(core, []) else
    match Step(core, fs[0])
    case Next(c, o) => Then(o, Run(c, fs[1..]))
    case end => end
  }

  /** The later outcome, after what was already said. */
  function Then(out: bytes, later: Outcome): Outcome {
    match later case Next(c, o) => Next(c, out + o) case end => end
  }

  // ---- Sessions ----------------------------------------------------------------------------

  datatype Session = Live(buffer: bytes, started: bool, core: Core) | Ended(failed: bool)

  const NEW := Live([], false, INIT)

  /** The startup packet has arrived whole. */
  predicate Begun(b: bytes) {
    |b| >= 4 && |b| >= Int32(b, 0)
  }

  predicate IsCancel(b: bytes)
    requires Begun(b)
  {
    Int32(b, 0) == 16 && Int32(b, 4) == CANCEL_CODE
  }

  /** The framing loop over a buffer; a session that ends drops what the call had gathered. */
  function Drain(core: Core, b: bytes): (Session, bytes) {
    match Run(core, Frames(b).0)
    case Next(c, o) => (Live(Frames(b).1, true, c), o)
    case Closed => (Ended(false), [])
    case Failed => (Ended(true), [])
  }

  /** The startup packet, then the frames behind it. */
  function Open(b: bytes): (Session, bytes) {
    if !Begun(b) then (Live(b, false, INIT), [])
    else if IsCancel(b) then (Ended(false), [])
    else var (s, o) := Drain(INIT, b[Int32(b, 0)..]); (s, STARTUP_OK + o)
  }

  /** One `data_received`; `fast` says whether the delimiter-counting arm is available. */
  function Feed(fast: bool, s: Session, data: bytes): (Session, bytes)
    requires s.Live? && (!s.started ==> s.core == INIT)
  {
    var b := s.buffer + data;
    if fast && s.core.hot then
      (s.(buffer := Scan(b, SYNC_BYTES).1), Repeat(HOT_RESPONSE, Scan(b, SYNC_BYTES).0))
    else if !s.started then Open(b)
    else Drain(s.core, b)
  }

  predicate Sane(s: Session) {
    s.Live? && !s.started ==> s.core == INIT
  }

  /** A session over a whole chunking. Nothing reaches one that has ended. */
  function FeedAll(fast: bool, s: Session, chunks: seq<bytes>): (Session, bytes)
    requires Sane(s)
    decreases |chunks|
  {
    if chunks == [] || s.Ended? then (s, []) else
    var (t, o) := Feed(fast, s, chunks[0]);
    var (u, p) := FeedAll(fast, t, chunks[1..]);
    (u, o + p)
  }
}
