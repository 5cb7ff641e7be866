/** The run-level theorems for the connection object, and for the maildrop behind it. */
module Server {
  import opened Text
  import opened Commands
  import opened Parsers
  import opened Maildrop
  import opened Session
  import opened SessionSafety
  import opened Reference
  import opened Sending
  import opened Hearing
  import opened SessionRuns
  import MaildropRuns
  import opened Clients

  // ----- the object -----

  /** Every event of the run can happen when its turn comes. */
  ghost predicate Possible(s: Conn, inputs: seq<Input>)
    requires s.Ok()
    decreases |inputs|
  {
    inputs == [] ||
    (Enabled(s, inputs[0].event) &&
     match Step(inputs[0].users, s, inputs[0].event)
     case Aborted => true
     case Going(next, _) => StepKeepsOk(inputs[0].users, s, inputs[0].event); Possible(next, inputs[1..]))
  }

  /** The run aborts the server. */
  predicate AbortsOn(s: Conn, inputs: seq<Input>)
    requires s.Ok()
    decreases |inputs|
  {
    inputs != [] && Enabled(s, inputs[0].event) &&
    match Step(inputs[0].users, s, inputs[0].event)
    case Aborted => true
    case Going(next, _) => StepKeepsOk(inputs[0].users, s, inputs[0].event); AbortsOn(next, inputs[1..])
  }

  /**
   * A connection served from accept on, event by event: the object does what the machine does, until an event aborts
   * it.  On a good run none does, and what the client has received is what the reference server answers.
   */
  method Serve(ghost users: set<(string, string)>, store: Store, inputs: seq<Input>)
      returns (c: Client, ok: bool, sent: string)
    requires store.Valid() && Possible(InitialConn(store), inputs)
    ensures ok <==> !AbortsOn(InitialConn(store), inputs)
    ensures sent == Run(InitialConn(store), inputs).1
    ensures ok ==> c.Valid() && c.View() == Run(InitialConn(store), inputs).0
    ensures GoodRun(InitialConn(store), inputs) ==> ok && Tells(c.View(), sent, Told(store, inputs, false, users))
  {
    hide Run, GoodRun, Step, InitialConn, Enabled, Possible, AbortsOn, Tells, Told;
    hide Client.View, Client.Parts, Client.MailOk, Client.Separate, Conn.Ok;
    if GoodRun(InitialConn(store), inputs) {
      GoodTells(users, store, inputs);
    }
    c := new Client(store);
    ok, sent := true, "";
    var i := 0;
    ghost var s0 := InitialConn(store);
    ghost var all, aborts := Run(s0, inputs), AbortsOn(s0, inputs);
    assert inputs[0..] == inputs && "" + all.1 == all.1;
    while i < |inputs|
      invariant 0 <= i <= |inputs| && c.Valid() && fresh(c.Repr()) && c.View().Ok() && Possible(c.View(), inputs[i..])
      invariant AbortsOn(c.View(), inputs[i..]) == aborts
      invariant var (end, more) := Run(c.View(), inputs[i..]); all == (end, sent + more)
    {
      ghost var s, rest := c.View(), inputs[i..];
      assert rest[0] == inputs[i] && rest[1..] == inputs[i + 1..];
      RunOneStep(s, rest);
      var bytes;
      ok, bytes := c.HandleEvent(inputs[i].users, inputs[i].event);
      if !ok {
        assert sent + "" == sent;
        return;
      }
      ghost var more := Run(c.View(), inputs[i + 1..]).1;
      Associate(sent, bytes, more);
      sent := sent + bytes;
      i := i + 1;
      MailOfOk(c);
    }
    RunOver(c.View());
    assert inputs[i..] == [] && sent + "" == sent;
  }

  lemma {:induction false} GoodTells(users: set<(string, string)>, store: Store, inputs: seq<Input>)
    requires store.Valid() && GoodRun(InitialConn(store), inputs)
    ensures !AbortsOn(InitialConn(store), inputs)
    ensures var (end, sent) := Run(InitialConn(store), inputs); Tells(end, sent, Told(store, inputs, false, users))
  {
    hide Run, GoodRun, AbortsOn, Told, Tells, Settled;
    InitialSettled(store);
    GoodGoes(InitialConn(store), inputs);
    SessionRefinesReference(users, store, inputs);
  }

  lemma {:induction false} GoodGoes(s: Conn, inputs: seq<Input>)
    requires Settled(s) && s.Ok() && GoodRun(s, inputs)
    ensures !AbortsOn(s, inputs) && Possible(s, inputs)
    decreases |inputs|
  {
    hide Step, Settled, Good, Enabled;
    if inputs != [] {
      GoodFits(s, inputs[0].event);
      StepKeepsOk(inputs[0].users, s, inputs[0].event);
      StateAndInterestAgree(inputs[0].users, s, inputs[0].event);
      GoodGoes(Step(inputs[0].users, s, inputs[0].event).conn, inputs[1..]);
    }
  }

  lemma {:induction false} MailOfOk(c: Client)
    requires c.Parts() && c.View().Ok()
    ensures c.Valid()
  {
    assert c.View().mail.Valid();
  }

  lemma {:induction false} RunOver(s: Conn)
    requires s.Ok()
    ensures Run(s, []) == (s, "") && !AbortsOn(s, [])
  {
  }

  lemma {:induction false} RunOneStep(s: Conn, inputs: seq<Input>)
    requires s.Ok() && inputs != [] && Possible(s, inputs)
    ensures Enabled(s, inputs[0].event)
    ensures var r := Step(inputs[0].users, s, inputs[0].event);
            && (AbortsOn(s, inputs) <==> r == Aborted || (r.conn.Ok() && AbortsOn(r.conn, inputs[1..])))
            && (r == Aborted ==> Run(s, inputs) == (s, ""))
            && (r.Going? ==> r.conn.Ok() && Possible(r.conn, inputs[1..])
                             && (Run(s, inputs)
                                 == (Run(r.conn, inputs[1..]).0, r.sent + Run(r.conn, inputs[1..]).1)))
  {
    hide Step, Enabled;
    StepKeepsOk(inputs[0].users, s, inputs[0].event);
  }

  // ----- the commands a run has executed, whatever is lost on it -----

  lemma {:induction false} AfterOne(m: Mail, s: MaildropRuns.Step)
    requires m.Valid()
    ensures MaildropRuns.After(m, [s]) == if m.phase == CLOSED then m else Exec(s.users, m, s.cmd).0
  {
    MaildropRuns.AfterNext(m, [], s);
    assert [] + [s] == [s];
  }

  lemma {:induction false} AfterConcat(m: Mail, a: seq<MaildropRuns.Step>, b: seq<MaildropRuns.Step>)
    requires m.Valid()
    ensures MaildropRuns.After(m, a + b) == MaildropRuns.After(MaildropRuns.After(m, a), b)
    decreases |b|
  {
    hide Exec;
    if b == [] {
      assert a + b == a;
    } else {
      var n := |b| - 1;
      AfterConcat(m, a, b[..n]);
      assert a + b == (a + b[..n]) + [b[n]] && b == b[..n] + [b[n]];
      MaildropRuns.AfterNext(m, a + b[..n], b[n]);
      MaildropRuns.AfterNext(MaildropRuns.After(m, a), b[..n], b[n]);
    }
  }

  function CommandsOf(steps: seq<MaildropRuns.Step>): (cmds: seq<Command>)
    ensures |cmds| == |steps|
  {
    seq(|steps|, i requires 0 <= i < |steps| => steps[i].cmd)
  }

  /** An event that strands input executes nothing, and nothing comes after it. */
  lemma {:induction false} StrandingEnds(users: set<(string, string)>, s: Conn, e: Event, later: seq<Input>)
    requires Settled(s) && Enabled(s, e) && Strands(s, e)
    ensures var r := Step(users, s, e);
            && r.Going? && r.conn.Ok() && r.conn.mail == s.mail
            && Run(r.conn, later) == (r.conn, "") && StepsOn(r.conn, later) == []
  {
    hide ParseCommand, PState.Consume;
    StrandingDooms(users, s, e);
    StrandingKeepsMail(users, s, e);
    NoMoreSteps(Step(users, s, e).conn, later);
    DoomedIsFinal(users, Step(users, s, e).conn, later);
  }

  lemma {:induction false} StrandingKeepsMail(users: set<(string, string)>, s: Conn, e: Event)
    requires Settled(s) && Enabled(s, e) && Strands(s, e)
    ensures var r := Step(users, s, e); r.Going? ==> r.conn.mail == s.mail
  {
    hide PState.Consume, ExecuteCommand, Pop3Error;
    var t := s.(out := s.out.Take(e.n));
    var (p, rest) := t.parser.Consume(t.inp.pending);
    var u := t.(parser := p, inp := t.inp.Take(|t.inp.pending| - |rest|));
    if s.mail.phase == CLOSED && p.finished {
      ClosedExecutesNothing(users, u, p.Result());
    }
    ErrorKeepsMail();
  }

  lemma {:induction false} ClosedExecutesNothing(users: set<(string, string)>, s: Conn, c: Command)
    requires s.mail.Valid() && s.cursor == -1 && s.mail.phase == CLOSED
    ensures ExecuteCommand(users, s, c) == Some(Next(s, ERROR_STATE))
  {
  }

  lemma {:induction false} ErrorKeepsMail()
    ensures forall s :: Pop3Error(s).mail == s.mail
  {
  }

  lemma {:induction false} DoomedIsFinal(users: set<(string, string)>, s: Conn, later: seq<Input>)
    requires Doomed(users, s) && s.stm in {READ, ERROR_STATE}
    ensures s.Ok() && Run(s, later) == (s, "")
  {
    if later != [] && Enabled(s, later[0].event) {
      NoHandlerDooms(later[0].users, s);
    }
  }

  lemma {:induction false} NoMoreSteps(s: Conn, later: seq<Input>)
    requires s.Ok() && s.interest == OP_WRITE && s.stm in {READ, ERROR_STATE}
    ensures StepsOn(s, later) == []
  {
    if later != [] && Enabled(s, later[0].event) {
      NoHandlerDooms(later[0].users, s);
    }
  }

  /**
   * Every run, whatever is dropped, stranded, forgotten or aborted on it, executes in order a prefix of the commands in
   * what was heard, and nothing else, each under the user table of the event that executes it.
   */
  lemma {:induction false} RunExecutes(s: Conn, inputs: seq<Input>, frag: string)
    requires Settled(s) && s.Ok() && Holds(s, frag)
    ensures s.mail.Valid() && Run(s, inputs).0.mail == MaildropRuns.After(s.mail, StepsOn(s, inputs))
    ensures CommandsOf(StepsOn(s, inputs)) <= Todo(s, frag, Heard(s, inputs))
    decreases |inputs|
  {
    hide Settled, Enabled, CommandsIn, Exec, Step, Holds, Strands, Todo, Executed, Forgets, MaildropRuns.After, StepOf;
    hide Run, Heard, StepsOn;
    MailIsValid(s);
    MaildropRuns.NothingDone(s.mail);
    RunUnfolds(s, inputs);
    if inputs != [] && Enabled(s, inputs[0].event) && Step(inputs[0].users, s, inputs[0].event).Going? {
      var users, e := inputs[0].users, inputs[0].event;
      var t := Step(users, s, e).conn;
      if Strands(s, e) {
        StrandingEnds(users, s, e, inputs[1..]);
      } else {
        StateAndInterestAgree(users, s, e);
        StepHears(users, s, e, frag, "");
        TodoNext(users, s, e, frag, Heard(t, inputs[1..]));
        MailAfterStep(users, s, e, frag);
        RunExecutes(t, inputs[1..], NextFrag(s, e, frag));
        var first, rest := StepOf(s, inputs[0]), StepsOn(t, inputs[1..]);
        AfterConcat(s.mail, first, rest);
        CommandOfStep(s, inputs[0]);
        assert CommandsOf(first + rest) == CommandsOf(first) + CommandsOf(rest);
      }
    }
  }

  /** A run is nothing, or its first event and the run of the others. */
  lemma {:induction false} RunUnfolds(s: Conn, inputs: seq<Input>)
    requires s.Ok()
    ensures if inputs != [] && Enabled(s, inputs[0].event) && Step(inputs[0].users, s, inputs[0].event).Going? then
              var t, e := Step(inputs[0].users, s, inputs[0].event).conn, inputs[0].event;
              && t.Ok() && Run(s, inputs).0 == Run(t, inputs[1..]).0
              && Heard(s, inputs) == (if Forgets(s, e) then [""] + Heard(t, inputs[1..])
                                      else Onto(Data(e), Heard(t, inputs[1..])))
              && StepsOn(s, inputs) == (if Strands(s, e) then [] else StepOf(s, inputs[0])) + StepsOn(t, inputs[1..])
            else Run(s, inputs).0 == s && StepsOn(s, inputs) == []
  {
    hide Enabled, Step, Strands, Executed, Forgets, StepOf;
    if inputs != [] && Enabled(s, inputs[0].event) {
      StepKeepsOk(inputs[0].users, s, inputs[0].event);
    }
  }

  lemma {:induction false} CommandOfStep(s: Conn, i: Input)
    requires s.parser.Valid()
    ensures CommandsOf(StepOf(s, i)) == Executed(s, i.event)
  {
    hide Executed;
    OneExecuted(s, i.event);
  }

  lemma {:induction false} MailIsValid(s: Conn)
    requires s.Ok()
    ensures s.mail.Valid()
  {
  }

  lemma {:induction false} MailAfterStep(users: set<(string, string)>, s: Conn, e: Event, frag: string)
    requires Settled(s) && s.Ok() && Enabled(s, e) && !Strands(s, e) && Step(users, s, e).Going? && Holds(s, frag)
    ensures s.mail.Valid() && Step(users, s, e).conn.mail == MaildropRuns.After(s.mail, StepOf(s, Input(users, e)))
  {
    hide Step, Enabled, CommandsIn, PState.Consume, Exec, Strands, Executed;
    StepHears(users, s, e, frag, "");
    if Executed(s, e) == [] {
      MaildropRuns.NothingDone(s.mail);
    } else {
      AfterOne(s.mail, MaildropRuns.Step(users, Executed(s, e)[0]));
    }
  }

  /**
   * A connection found in TRANSACTION, after any events whatever, has executed some of the commands heard, among them a
   * PASS that gave, for the last name, a password that the user table held for it at the event that executed it, and
   * has been in TRANSACTION since.
   */
  lemma {:induction false} SessionLogin(store: Store, inputs: seq<Input>)
    requires store.Valid() && Run(InitialConn(store), inputs).0.mail.phase == TRANSACTION
    ensures var s, steps := InitialConn(store), StepsOn(InitialConn(store), inputs);
            && CommandsOf(steps) <= CommandsHeard(Heard(s, inputs))
            && exists j :: 0 <= j < |steps| && MaildropRuns.LoggedInSince(InitialMail(store), steps, j, |steps|)
  {
    hide Run, Heard, StepsOn, CommandsIn, Exec, MaildropRuns.After, MaildropRuns.LoggedInSince;
    InitialSettled(store);
    HoldsNothing();
    RunExecutes(InitialConn(store), inputs, "");
    var streams, steps := Heard(InitialConn(store), inputs), StepsOn(InitialConn(store), inputs);
    assert "" + "" + streams[0] == streams[0];
    assert steps[..|steps|] == steps;
    MaildropRuns.LoginSafety(store, steps, |steps|);
  }
}
