/** When a session ends, and when it has said something by then, read off the frames alone: with that,
    exactly which streams the general parser answers alike in every chunking. */
module PgEndings {
  import opened Delimiters
  import opened Streams
  import opened Wire
  import opened PgModel
  import opened PgSessions

  /** The names parsed so far and the frames since the last answer. */
  datatype Desk = Desk(known: set<bytes>, flight: seq<Frame>)

  const CLEAR := Desk({}, [])

  predicate HasParse(k: Desk) {
    Payloads(k.flight, PARSE) != []
  }

  /** A Sync, or a Flush after a Parse. */
  predicate Answers(k: Desk, f: Frame) {
    f.kind == SYNC || (f.kind == FLUSH && HasParse(k))
  }

  /** The frame asks for an answer, and the flight's first Parse is unreadable; or there is no Parse, and
      the flight's first Bind is missing or names a statement never parsed. */
  predicate Fails(k: Desk, f: Frame) {
    && Answers(k, f)
    && if HasParse(k) then ReadParse(Payloads(k.flight, PARSE)[0]).None?
       else Payloads(k.flight, BIND) == [] || BindName(Payloads(k.flight, BIND)[0]) !in k.known
  }

  predicate Ends(k: Desk, f: Frame) {
    f.kind == TERMINATE || Fails(k, f)
  }

  function Onward(k: Desk, f: Frame): Desk
    requires !Ends(k, f)
  {
    if !Answers(k, f) then k.(flight := k.flight + [f])
    else if HasParse(k) then Desk(k.known + {ReadParse(Payloads(k.flight, PARSE)[0]).value.name}, [])
    else k.(flight := [])
  }

  /** No frame is a Terminate or fails. */
  predicate Endless(k: Desk, fs: seq<Frame>)
    decreases |fs|
  {
    fs == [] || (!Ends(k, fs[0]) && Endless(Onward(k, fs[0]), fs[1..]))
  }

  /** No Sync, and no Flush after a Parse, comes before the frame that ends the session. */
  predicate Silent(k: Desk, fs: seq<Frame>)
    decreases |fs|
  {
    fs == [] || Ends(k, fs[0]) || (!Answers(k, fs[0]) && Silent(Onward(k, fs[0]), fs[1..]))
  }

  // ---- The desk follows the parser ------------------------------------------------------------

  function DeskOf(core: Core): Desk {
    Desk(core.statements.Keys, core.flight)
  }

  lemma ReplyIsSomething(flight: seq<Frame>, sql: bytes, count: nat, cold: bool)
    requires count < 0x1_0000
    ensures Reply(flight, sql, count, cold) != []
  {
    assert |READY| > 0;
  }

  lemma IntroducedIsSomething(sql: bytes, count: nat)
    requires count < 0x1_0000
    ensures Introduced(sql, count) != []
  {
    assert |Message(0x31, [])| > 0;
  }

  lemma KeyAdded(m: map<bytes, bytes>, name: bytes, sql: bytes)
    ensures m[name := sql].Keys == m.Keys + {name}
  {
  }

  lemma PrepareDesk(core: Core)
    requires Payloads(core.flight, PARSE) != []
    ensures var st := ReadParse(Payloads(core.flight, PARSE)[0]);
            && (Prepare(core).None? <==> st.None?)
            && (st.Some? ==> Prepare(core).value.1 != []
                             && DeskOf(Prepare(core).value.0) == Desk(core.statements.Keys + {st.value.name}, []))
  {
    var st := ReadParse(Payloads(core.flight, PARSE)[0]);
    if st.Some? {
      KeyAdded(core.statements, st.value.name, st.value.sql);
      IntroducedIsSomething(st.value.sql, st.value.count);
    }
  }

  lemma RespondDesk(core: Core)
    ensures var parses, binds := Payloads(core.flight, PARSE), Payloads(core.flight, BIND);
            if parses != [] then
              var st := ReadParse(parses[0]);
              && (Respond(core).None? <==> st.None?)
              && (st.Some? ==> Respond(core).value.1 != []
                               && DeskOf(Respond(core).value.0) == Desk(core.statements.Keys + {st.value.name}, []))
            else
              && (Respond(core).None? <==> binds == [] || BindName(binds[0]) !in core.statements)
              && (Respond(core).Some? ==> Respond(core).value.1 != []
                                          && DeskOf(Respond(core).value.0) == Desk(core.statements.Keys, []))
  {
    if Payloads(core.flight, PARSE) != [] { ColdDesk(core); } else { WarmDesk(core); }
  }

  lemma ColdDesk(core: Core)
    requires Payloads(core.flight, PARSE) != []
    ensures var st := ReadParse(Payloads(core.flight, PARSE)[0]);
            && (Respond(core).None? <==> st.None?)
            && (st.Some? ==> Respond(core).value.1 != []
                             && DeskOf(Respond(core).value.0) == Desk(core.statements.Keys + {st.value.name}, []))
  {
    var st := ReadParse(Payloads(core.flight, PARSE)[0]);
    if st.Some? {
      KeyAdded(core.statements, st.value.name, st.value.sql);
      ReplyIsSomething(core.flight, st.value.sql, st.value.count, true);
    }
  }

  lemma WarmDesk(core: Core)
    requires Payloads(core.flight, PARSE) == []
    ensures var binds := Payloads(core.flight, BIND);
            && (Respond(core).None? <==> binds == [] || BindName(binds[0]) !in core.statements)
            && (Respond(core).Some? ==> Respond(core).value.1 != []
                                        && DeskOf(Respond(core).value.0) == Desk(core.statements.Keys, []))
  {
    if Respond(core).Some? {
      ReplyIsSomething(core.flight, core.statements[BindName(Payloads(core.flight, BIND)[0])], 0, false);
    }
  }

  /** One frame: the desk knows whether it ends the session, and whether it is answered. */
  lemma StepDesk(core: Core, f: Frame)
    ensures Step(core, f).Next? <==> !Ends(DeskOf(core), f)
    ensures Step(core, f).Next? ==> DeskOf(Step(core, f).core) == Onward(DeskOf(core), f)
    ensures Step(core, f).Next? ==> (Step(core, f).out == [] <==> !Answers(DeskOf(core), f))
  {
    PayloadsAppend(core.flight, f, PARSE);
    PayloadsAppend(core.flight, f, BIND);
    var now := core.(flight := core.flight + [f]);
    if f.kind == FLUSH && Payloads(now.flight, PARSE) != [] {
      PrepareDesk(now);
    } else if f.kind == SYNC {
      RespondDesk(now);
    }
  }

  /** The parser goes through all the frames exactly when none of them ends the session. */
  lemma {:induction false} RunEndless(core: Core, fs: seq<Frame>)
    ensures Run(core, fs).Next? <==> Endless(DeskOf(core), fs)
    decreases |fs|
  {
    if fs != [] {
      StepDesk(core, fs[0]);
      if Step(core, fs[0]).Next? { RunEndless(Step(core, fs[0]).core, fs[1..]); }
    }
  }

  /** Nothing is said before the end exactly when nothing asks for an answer before it. */
  lemma {:induction false} SpokenSilent(core: Core, fs: seq<Frame>)
    ensures Spoken(core, fs) == [] <==> Silent(DeskOf(core), fs)
    decreases |fs|
  {
    if fs != [] {
      StepDesk(core, fs[0]);
      if Step(core, fs[0]).Next? { SpokenSilent(Step(core, fs[0]).core, fs[1..]); }
    }
  }

  /** The stream has no whole startup packet, or is a cancel request; or none of its frames ends the
      session; or nothing before the frame that does asks for an answer. */
  predicate Unhurried(d: bytes) {
    if !Begun(d) || IsCancel(d) then true else
    var fs := Frames(d[Int32(d, 0)..]).0;
    Endless(CLEAR, fs) || Silent(CLEAR, fs)
  }

  lemma UnhurriedIs(d: bytes)
    ensures Unhurried(d) <==> (Open(d).0.Live? || Said(d) == [])
  {
    if Begun(d) && !IsCancel(d) {
      var fs := Frames(d[Int32(d, 0)..]).0;
      RunEndless(INIT, fs);
      SpokenSilent(INIT, fs);
      assert DeskOf(INIT) == CLEAR;
    }
  }

  /** Whatever the chunks, the general parser says what it says to the stream in one piece, if and only
      if no frame ends the session, or no Sync and no Flush after a Parse comes before the one that
      does: a Terminate after an answer in the same call drops it. */
  lemma ChunkingIndependent(d: bytes)
    ensures (forall chunks :: Cuts(chunks, d) ==> FeedAll(false, NEW, chunks).1 == Open(d).1) <==> Unhurried(d)
  {
    UnhurriedIs(d);
    if Unhurried(d) {
      forall chunks | Cuts(chunks, d) ensures FeedAll(false, NEW, chunks).1 == Open(d).1 {
        HeardAlike(d, chunks);
      }
    } else {
      var chunks := HeardOtherwise(d);
      assert |Open(d).1 + Said(d)| > |Open(d).1|;
    }
  }
}
