/** The PostgreSQL responder as the protocol object that is updated in place. */
module PgResponders {
  import opened Delimiters
  import opened Wire
  import opened PgModel
  import opened PgFraming
  import opened PgSessions

  lemma RunFrame(core: Core, b: bytes)
    requires FrameSize(b) > 0
    ensures var first := Step(core, FrameOf(b));
            Run(core, Frames(b).0) == if first.Next? then Then(first.out, Run(first.core, Frames(b[FrameSize(b)..]).0))
                                      else first
    ensures Frames(b).1 == Frames(b[FrameSize(b)..]).1
  {
    FramesFirst(b);
    assert Frames(b).0[1..] == Frames(b[FrameSize(b)..]).0;
  }

  /** Where a drain stands: what was gathered, then what the rest will say, is what the whole says. */
  ghost predicate Draining(start: Core, all: bytes, core: Core, b: bytes, out: bytes) {
    Run(start, Frames(all).0) == Then(out, Run(core, Frames(b).0)) && Frames(all).1 == Frames(b).1
  }

  lemma DrainStep(start: Core, all: bytes, core: Core, b: bytes, out: bytes)
    requires Draining(start, all, core, b, out) && FrameSize(b) > 0
    ensures var first := Step(core, FrameOf(b));
            if first.Next? then Draining(start, all, first.core, b[FrameSize(b)..], out + first.out)
            else Run(start, Frames(all).0) == first
  {
    RunFrame(core, b);
    var first := Step(core, FrameOf(b));
    if first.Next? {
      var later := Run(first.core, Frames(b[FrameSize(b)..]).0);
      if later.Next? { Plus(out, first.out, later.out); }
    }
  }

  lemma DrainStart(core: Core, b: bytes)
    ensures Draining(core, b, core, b, [])
  {
    var all := Run(core, Frames(b).0);
    if all.Next? { assert [] + all.out == all.out; }
  }

  lemma DrainEnd(start: Core, all: bytes, core: Core, b: bytes, out: bytes)
    requires Draining(start, all, core, b, out) && FrameSize(b) == 0
    ensures Drain(start, all) == (Live(b, true, core), out)
  {
    assert Frames(b) == ([], b);
    assert out + [] == out;
  }

  class PgResponder {
    var buffer: bytes
    var started: bool
    var statements: map<bytes, bytes>
    var flight: seq<Frame>
    var hot: bool
    /** All the transport has been given, and how the connection ended if it has. */
    var written: bytes
    var closed: bool
    var failed: bool

    ghost function Memory(): Core
      reads this
    {
      Core(statements, flight, hot)
    }

    ghost function State(): Session
      reads this
    {
      if closed || failed then Ended(failed) else Live(buffer, started, Memory())
    }

    constructor ()
      ensures State() == NEW && written == []
    {
      buffer, started, statements, flight, hot := [], false, map[], [], false;
      written, closed, failed := [], false, false;
    }

    method DataReceived(data: bytes)
      requires State().Live? && Sane(State())
      modifies this
      ensures State() == Feed(true, old(State()), data).0 && Sane(State())
      ensures written == old(written) + Feed(true, old(State()), data).1
    {
      buffer := buffer + data;
      if hot {
        CountSyncs();
        return;
      }
      if !started {
        Greet();
        return;
      }
      DrainBuffer();
    }

    /** Until the startup packet is there nothing happens; then the frames behind it are next. */
    method Greet()
      requires State().Live? && !started && Memory() == INIT
      modifies this
      ensures State() == Open(old(buffer)).0 && written == old(written) + Open(old(buffer)).1
    {
      ghost var all, before := buffer, written;
      Start();
      if !started || closed {
        assert before + [] == before;
        return;
      }
      DrainBuffer();
      Plus(before, STARTUP_OK, Drain(INIT, all[Int32(all, 0)..]).1);
    }

    /** The delimiter-counting arm. */
    method CountSyncs()
      requires State().Live? && started
      modifies this
      ensures State() == Live(Scan(old(buffer), SYNC_BYTES).1, true, old(Memory()))
      ensures written == old(written) + Repeat(HOT_RESPONSE, Scan(old(buffer), SYNC_BYTES).0)
    {
      LastDelimiter(buffer, SYNC_BYTES);
      var completed := Scan(buffer, SYNC_BYTES).0;
      if completed == 0 {
        return;
      }
      var consumed := RFind(buffer, SYNC_BYTES) + |SYNC_BYTES|;
      buffer := buffer[consumed..];
      written := written + Repeat(HOT_RESPONSE, completed);
    }

    /** The startup packet, once it is there whole. */
    method Start()
      requires State().Live? && !started
      modifies `buffer, `started, `written, `closed
      ensures !Begun(old(buffer)) ==>
                State() == old(State()) && written == old(written)
      ensures Begun(old(buffer)) && IsCancel(old(buffer)) ==> closed && written == old(written)
      ensures Begun(old(buffer)) && !IsCancel(old(buffer)) ==>
                !closed && started && buffer == old(buffer)[Int32(old(buffer), 0)..]
                && written == old(written) + STARTUP_OK
    {
      if |buffer| < 4 {
        return;
      }
      var startup := Int32(buffer, 0);
      if |buffer| < startup {
        return;
      }
      if startup == 16 && Int32(buffer, 4) == CANCEL_CODE {
        closed := true;
        return;
      }
      buffer := buffer[startup..];
      started := true;
      written := written + STARTUP_OK;
    }

    /** The framing loop. */
    method DrainBuffer()
      requires State().Live? && started
      modifies this
      ensures State() == Drain(old(Memory()), old(buffer)).0
      ensures written == old(written) + Drain(old(Memory()), old(buffer)).1
    {
      var out: bytes := [];
      ghost var start, all := Memory(), buffer;
      DrainStart(start, all);
      while true
        invariant State().Live? && started && written == old(written)
        invariant Draining(start, all, Memory(), buffer, out)
        decreases |buffer|
      {
        var more;
        more, out := TakeFrame(out, start, all);
        if closed || failed {
          return;
        }
        if !more {
          break;
        }
      }
      DrainEnd(start, all, Memory(), buffer, out);
      if out != [] {
        written := written + out;
      }
    }

    /** One turn of the loop: nothing while the frame at the front is incomplete. */
    method TakeFrame(before: bytes, ghost start: Core, ghost all: bytes) returns (more: bool, out: bytes)
      requires State().Live? && Draining(start, all, Memory(), buffer, before) == true
      modifies `buffer, `statements, `flight, `hot, `closed, `failed
      ensures !closed && !failed ==> Draining(start, all, Memory(), buffer, out) == true
      ensures !closed && !failed ==> if more then |buffer| < |old(buffer)| else FrameSize(buffer) == 0
      ensures closed || failed ==> Run(start, Frames(all).0) == if failed then Failed else Closed
    {
      more, out := false, before;
      if |buffer| < 5 {
        return;
      }
      var length := Int32(buffer, 1);
      if |buffer| < 1 + length {
        return;
      }
      more := true;
      DrainStep(start, all, Memory(), buffer, before);
      var f := Frame(buffer[0], if length < 4 then [] else buffer[5..1 + length]);
      buffer := buffer[1 + length..];
      var said := Handle(f);
      out := out + said;
    }

    /** One frame. A Terminate closes the transport; an exception fails the session. */
    method Handle(f: Frame) returns (out: bytes)
      requires State().Live?
      modifies `statements, `flight, `hot, `closed, `failed
      ensures Became(Step(old(Memory()), f), out)
    {
      out := [];
      if f.kind == TERMINATE {
        closed := true;
        return;
      }
      flight := flight + [f];
      out := Act(f.kind);
    }

    method Act(kind: byte) returns (out: bytes)
      requires !closed && !failed
      modifies `statements, `flight, `hot, `failed
      ensures Became(Dispatch(old(Memory()), kind), out)
    {
      out := [];
      if kind == FLUSH && Payloads(flight, PARSE) != [] {
        out := FlushFlight();
      } else if kind == SYNC {
        out := SyncFlight();
      }
    }

    /** The outcome is what the object has come to. */
    ghost predicate Became(outcome: Outcome, out: bytes)
      reads this
    {
      match outcome
      case Next(c, o) => !closed && !failed && Memory() == c && out == o
      case Closed => closed && !failed
      case Failed => failed
    }

    method FlushFlight() returns (out: bytes)
      requires !failed && Payloads(flight, PARSE) != []
      modifies `statements, `flight, `failed
      ensures match PgModel.Prepare(old(Memory()))
              case None => failed
              case Some(r) => !failed && Memory() == r.0 && out == r.1
    {
      out := Prepare();
      flight := [];
    }

    method SyncFlight() returns (out: bytes)
      requires !failed
      modifies `statements, `flight, `hot, `failed
      ensures match PgModel.Respond(old(Memory()))
              case None => failed
              case Some(r) => !failed && Memory() == r.0 && out == r.1
    {
      out := Respond();
      flight := [];
    }

    /** Store the statement a Parse carries; decoding it or reading its count may raise. */
    method Remember(payload: bytes) returns (sql: bytes, count: nat)
      requires !failed
      modifies `statements, `failed
      ensures match ReadParse(payload)
              case None => failed
              case Some(st) => !failed && statements == old(statements)[st.name := st.sql]
                               && sql == st.sql && count == st.count
    {
      var (name, tail) := Partition(payload);
      var (query, parameters) := Partition(tail);
      sql, count := query, 0;
      if !IsUtf8(query) {
        failed := true;
        return;
      }
      statements := statements[name := query];
      if |parameters| < 2 {
        failed := true;
        return;
      }
      count := Int16(parameters, 0);
    }

    /** The statement the flight's first Bind names; having no Bind, or an unknown name, raises. */
    method Recall() returns (sql: bytes)
      requires !failed
      modifies `failed
      ensures var binds := Payloads(flight, BIND);
              if binds == [] || BindName(binds[0]) !in statements then failed
              else !failed && sql == statements[BindName(binds[0])]
    {
      var binds := Payloads(flight, BIND);
      sql := [];
      if binds == [] || BindName(binds[0]) !in statements {
        failed := true;
        return;
      }
      sql := statements[BindName(binds[0])];
    }

    method Prepare() returns (out: bytes)
      requires !failed && Payloads(flight, PARSE) != []
      modifies `statements, `failed
      ensures var r := PgModel.Prepare(old(Memory()));
              if r.None? then failed else !failed && statements == r.value.0.statements && out == r.value.1
    {
      out := [];
      var query, count := Remember(Payloads(flight, PARSE)[0]);
      if failed {
        return;
      }
      out := Introduce(query, count);
    }

    method Introduce(query: bytes, declared: nat) returns (out: bytes)
      requires declared < 0x1_0000
      ensures out == Introduced(query, declared)
    {
      var count := declared;
      if query == HOT_SQL {
        count := 1;
      }
      out := Parsed(count);
      out := out + Described(Selects(StripBytes(query)));
    }

    method Respond() returns (out: bytes)
      requires !failed
      modifies `statements, `failed, `hot
      ensures var r := PgModel.Respond(old(Memory()));
              if r.None? then failed
              else !failed && statements == r.value.0.statements && hot == r.value.0.hot && out == r.value.1
    {
      var parses := Payloads(flight, PARSE);
      if parses != [] {
        out := AnswerCold(parses[0]);
      } else {
        out := AnswerWarm();
      }
    }

    method AnswerCold(parse: bytes) returns (out: bytes)
      requires !failed
      modifies `statements, `failed
      ensures var r := RespondCold(old(Memory()), parse);
              if r.None? then failed else !failed && statements == r.value.0.statements && out == r.value.1
    {
      var sql, count := Remember(parse);
      out := [];
      if !failed {
        out := Compose(sql, count, true);
      }
    }

    method AnswerWarm() returns (out: bytes)
      requires !failed
      modifies `failed, `hot
      ensures var r := RespondWarm(old(Memory()));
              if r.None? then failed else !failed && hot == r.value.0.hot && out == r.value.1
    {
      var sql := Recall();
      out := [];
      if !failed {
        if sql == HOT_SQL {
          hot := true;
        }
        out := Compose(sql, 0, false);
      }
    }

    method Compose(sql: bytes, count: nat, cold: bool) returns (out: bytes)
      requires count < 0x1_0000
      ensures out == Reply(flight, sql, count, cold)
    {
      var rows := Selects(StripText(sql));
      out := [];
      if cold {
        out := Parsed(count) + Described(rows);
      }
      out := out + Answer(flight, rows, cold);
    }
  }
}
