/** Clients that wait for their replies, one that does not, and what every run can come to. */
module ClientRuns {
  import opened Text
  import opened Buffers
  import opened Commands
  import opened Parsers
  import opened Maildrop
  import opened Session
  import opened SessionSafety
  import opened Reference
  import opened Sending
  import opened Hearing
  import opened SessionRuns

  // ----- every run -----

  /** The next writable event aborts the server, whatever the user table: there is no handler for it. */
  ghost predicate Lost(s: Conn) {
    s.Ok() && s.interest == OP_WRITE && s.stm in {READ, ERROR_STATE}
  }

  lemma {:induction false} LostIsFinal(s: Conn, inputs: seq<Input>)
    requires Lost(s)
    ensures Run(s, inputs) == (s, "")
  {
    if inputs != [] && Enabled(s, inputs[0].event) {
      NoHandlerDooms(inputs[0].users, s);
    }
  }

  /** Some event of the run strands input. */
  predicate StrandsOn(s: Conn, inputs: seq<Input>)
    requires s.Ok()
    decreases |inputs|
  {
    inputs != [] && Enabled(s, inputs[0].event) &&
    (Strands(s, inputs[0].event) ||
     match Step(inputs[0].users, s, inputs[0].event)
     case Aborted => false
     case Going(next, _) => StepKeepsOk(inputs[0].users, s, inputs[0].event); StrandsOn(next, inputs[1..]))
  }

  /**
   * At the end of every run, state and interest agree, if and only if no event of it stranded input; otherwise the
   * connection is lost.
   */
  lemma {:induction false} RunSettles(s: Conn, inputs: seq<Input>)
    requires Settled(s) && s.Ok()
    ensures var end := Run(s, inputs).0;
            && (Settled(end) <==> !StrandsOn(s, inputs))
            && (Lost(end) <==> StrandsOn(s, inputs))
    decreases |inputs|
  {
    hide Settled, Lost, Step, Enabled, Strands;
    NeverBothAtOnce(s);
    if inputs != [] && Enabled(s, inputs[0].event) {
      var users, e := inputs[0].users, inputs[0].event;
      StepKeepsOk(users, s, e);
      StateAndInterestAgree(users, s, e);
      if Strands(s, e) {
        StrandingLoses(users, s, e);
        var t := Step(users, s, e).conn;
        LostIsFinal(t, inputs[1..]);
        NeverBothAtOnce(t);
      } else if Step(users, s, e).Going? {
        RunSettles(Step(users, s, e).conn, inputs[1..]);
      }
    }
  }

  lemma {:induction false} StrandingLoses(users: set<(string, string)>, s: Conn, e: Event)
    requires Settled(s) && Enabled(s, e) && s.Ok() && Strands(s, e)
    ensures Step(users, s, e).Going? && Lost(Step(users, s, e).conn)
  {
    hide Step;
    StepKeepsOk(users, s, e);
    StrandingDooms(users, s, e);
  }

  lemma {:induction false} NeverBothAtOnce(s: Conn)
    ensures !(Settled(s) && Lost(s))
  {
  }

  /**
   * Every connection that has been accepted is, after any events, settled or lost: no state is without its interest.
   */
  lemma {:induction false} EveryRunSettles(store: Store, inputs: seq<Input>)
    requires store.Valid()
    ensures var s := InitialConn(store);
            s.Ok() && if StrandsOn(s, inputs) then Lost(Run(s, inputs).0) else Settled(Run(s, inputs).0)
  {
    InitialSettled(store);
    SettledOk(InitialConn(store));
    RunSettles(InitialConn(store), inputs);
  }

  // ----- lock-step clients -----

  /** The bytes end the current command or stay inside it: nothing follows an LF. */
  predicate StaysInLine(data: string) {
    data == "" || '\n' !in data[..|data| - 1]
  }

  /** Each read delivers at most the end of one command, and no chunk loses bytes. */
  ghost predicate LockStepRun(s: Conn, inputs: seq<Input>)
    requires s.Ok()
    decreases |inputs|
  {
    inputs == [] ||
    (Enabled(s, inputs[0].event) && Fits(s, inputs[0].event) && StaysInLine(Data(inputs[0].event)) &&
     match Step(inputs[0].users, s, inputs[0].event)
     case Aborted => true
     case Going(next, _) => StepKeepsOk(inputs[0].users, s, inputs[0].event); LockStepRun(next, inputs[1..]))
  }

  lemma {:induction false} FeedInsideLine(p: PState, c: char)
    requires p.Valid() && !p.finished && c != '\n'
    ensures !p.Feed(c).finished
  {
    hide Lookup, CStr, Overlay;
  }

  lemma {:induction false} ConsumeTakesLine(p: PState, data: string)
    requires p.Valid() && !p.finished && StaysInLine(data)
    ensures p.Consume(data).1 == ""
    decreases |data|
  {
    hide PState.Feed;
    if |data| > 1 {
      assert data[0] == data[..|data| - 1][0];
      FeedInsideLine(p, data[0]);
      var tail := data[1..];
      assert tail[..|tail| - 1] == data[..|data| - 1][1..];
      ConsumeTakesLine(p.Feed(data[0]), tail);
    }
  }

  /** The input buffer of a lock-step client is empty after every event. */
  lemma {:induction false} LockStepDrainsInput(users: set<(string, string)>, s: Conn, e: Event)
    requires Settled(s) && s.parser.Valid() && s.inp.pending == "" && Enabled(s, e) && !Strands(s, e)
    requires StaysInLine(Data(e))
    requires Step(users, s, e).Going?
    ensures Step(users, s, e).conn.inp.pending == ""
  {
    hide Step, Settled, Strands, PState.Consume, FedConn;
    SettledOk(s);
    if Fed(s, e) != "" {
      Feeds(users, s, e);
      ParseExecutes(users, FedConn(s, e));
      ConsumeTakesLine(s.parser, Fed(s, e));
      assert "" + Data(e) == Data(e);
    } else {
      FeedsNothing(users, s, e);
    }
  }

  /** Lock-step runs are good: such a client never strands its input. */
  lemma {:induction false} LockStepIsGood(s: Conn, inputs: seq<Input>)
    requires Settled(s) && s.Ok() && s.inp.pending == "" && LockStepRun(s, inputs)
    ensures GoodRun(s, inputs)
    ensures Run(s, inputs).0.inp.pending == ""
    decreases |inputs|
  {
    hide Step, Settled, Fits;
    if inputs != [] {
      var users, e := inputs[0].users, inputs[0].event;
      NoInputToStrand(s, e);
      StepKeepsOk(users, s, e);
      StateAndInterestAgree(users, s, e);
      if Step(users, s, e).Going? {
        LockStepDrainsInput(users, s, e);
        LockStepIsGood(Step(users, s, e).conn, inputs[1..]);
      }
    }
  }

  lemma {:induction false} NoInputToStrand(s: Conn, e: Event)
    requires s.parser.Valid() && s.inp.pending == ""
    ensures !Strands(s, e)
  {
  }

  /**
   * For every lock-step client, every split of its bytes over recv and of the replies over send, the bytes it gets are
   * the greeting and the reference replies, as far as they have been sent, and all of them once the server waits for
   * it.
   */
  lemma {:induction false} LockStepSession(users: set<(string, string)>, store: Store, inputs: seq<Input>)
    requires store.Valid() && LockStepRun(InitialConn(store), inputs)
    ensures var s := InitialConn(store);
            var (end, sent) := Run(s, inputs);
            var all := Told(store, inputs, false, users);
            var choices, steps := ChoicesOn(s, inputs, false), StepsOn(s, inputs);
            && Settled(end) && sent <= all && (end.stm in {READ, CLOSE_STATE} ==> sent == all)
            && |choices| == |steps| && (forall k :: 0 <= k < |steps| ==> choices[k].users == steps[k].users)
            && (CleanRun(s, inputs) && Plain(users, inputs) ==>
                  sent <= Expected(users, store, Received(inputs))
                  && (end.stm in {READ, CLOSE_STATE} ==> sent == Expected(users, store, Received(inputs))))
  {
    hide Run, GoodRun, CleanRun, LockStepRun, Expected, Told, Settled, Plain, ChoicesOn, StepsOn;
    InitialSettled(store);
    LockStepIsGood(InitialConn(store), inputs);
    SessionRefinesReference(users, store, inputs);
    RestIsIdle(Run(InitialConn(store), inputs).0);
    if CleanRun(InitialConn(store), inputs) && Plain(users, inputs) {
      CleanSession(users, store, inputs);
    }
  }

  lemma {:induction false} RestIsIdle(s: Conn)
    requires s.Ok() && s.inp.pending == ""
    ensures s.stm in {READ, CLOSE_STATE} ==> Idle(s)
  {
    ConsumeNothing(s.parser);
  }

  // ----- a client that does not wait -----

  /** A byte sent behind a command before the reply is sent: greeting, recv, send, and the connection is lost. */
  lemma {:induction false} FragmentDoomsServer(users: set<(string, string)>, store: Store)
    requires store.Valid()
    ensures var inputs := [Input(users, Send(|GREETING|, 0)), Input(users, Recv("\nN")),
                          Input(users, Send(|UNKNOWN|, 0))];
            Lost(Run(InitialConn(store), inputs).0)
  {
    hide Lost;
    var greet, recv, reply := Send(|GREETING|, 0), Recv("\nN"), Send(|UNKNOWN|, 0);
    var s := InitialConn(store);
    InitialSettled(store);
    var t := s.(stm := READ, interest := OP_READ, out := Buf(0, "", BUFFER_SIZE));
    assert Step(users, s, greet) == Going(t, GREETING[..|GREETING|]);
    WritingSettles(users, s, greet);
    var u := Step(users, t, recv);
    MalformedThenFragment(users, t);
    ReadingSettles(users, t, recv);
    LoneByte();
    StrandingLoses(users, u.conn, reply);
    ThreeSteps(s, Input(users, greet), Input(users, recv), Input(users, reply));
  }

  lemma {:induction false} ThreeSteps(s: Conn, a: Input, b: Input, c: Input)
    requires s.Ok() && Enabled(s, a.event) && Step(a.users, s, a.event).Going?
    requires var t := Step(a.users, s, a.event).conn;
             t.Ok() && Enabled(t, b.event) && Step(b.users, t, b.event).Going?
    requires var u := Step(b.users, Step(a.users, s, a.event).conn, b.event).conn;
             u.Ok() && Enabled(u, c.event) && Step(c.users, u, c.event).Going?
    ensures var u := Step(b.users, Step(a.users, s, a.event).conn, b.event).conn;
            Run(s, [a, b, c]).0 == Step(c.users, u, c.event).conn
  {
    hide Step;
    StepKeepsOk(a.users, s, a.event);
    var t := Step(a.users, s, a.event).conn;
    StepKeepsOk(b.users, t, b.event);
    var u := Step(b.users, t, b.event).conn;
    StepKeepsOk(c.users, u, c.event);
    RunCons(s, a, [b, c]);
    RunCons(t, b, [c]);
    RunCons(u, c, []);
    assert [b] + [c] == [b, c] && [a] + [b, c] == [a, b, c] && [c] + [] == [c];
  }

  lemma {:induction false} RunCons(s: Conn, i: Input, inputs: seq<Input>)
    requires s.Ok() && Enabled(s, i.event) && Step(i.users, s, i.event).Going? && Step(i.users, s, i.event).conn.Ok()
    ensures Run(s, [i] + inputs).0 == Run(Step(i.users, s, i.event).conn, inputs).0
  {
    hide Step;
    assert ([i] + inputs)[1..] == inputs;
  }

  lemma {:induction false} LoneByte()
    ensures !Init().Consume("N").0.finished
  {
    FeedInsideLine(Init(), 'N');
    assert "N"[1..] == "";
  }

  /** An empty line and one more byte: the line is answered, the byte stays in the input buffer. */
  lemma {:induction false} MalformedThenFragment(users: set<(string, string)>, s: Conn)
    requires Settled(s) && s.stm == READ && s.inp == Buf(0, "", BUFFER_SIZE) && s.parser == Init()
    requires s.mail.phase == AUTHORIZATION
    ensures var r := Step(users, s, Recv("\nN"));
            && r.Going? && r.conn.stm == WRITE && r.conn.out == Buf(0, UNKNOWN, BUFFER_SIZE)
            && r.conn.inp.pending == "N"
            && r.conn.parser == Init() && r.conn.mail.phase == AUTHORIZATION
  {
    hide CStr, Overlay, Lookup, Zeros;
    var t := s.(inp := s.inp.Append("\nN"));
    assert t.inp.pending == "\nN" && "\nN"[1..] == "N";
    assert Init().Consume("\nN") == (Init().Feed('\n'), "N");
    EmptyTakes(s.out, UNKNOWN);
    assert t.inp.Take(1).pending == "N";
    ReadingParses(users, s, Recv("\nN"));
  }
}
