/** The selector and the connections it drives: what src/utils/selector.c and src/pop3.c promise each other. */
module EventLoops {
  import opened Text
  import opened Maildrop
  import opened Session
  import opened SessionSafety
  import opened SessionRuns
  import opened ClientRuns
  import opened Server
  import MaildropRuns
  import Selectors

  /** The interest of a connection as the selector's bits. */
  function Bits(i: Interest): Selectors.Interest {
    Selectors.Interest(i == OP_READ, i == OP_WRITE)
  }

  /** What the kernel may answer to the handler's `recv` or `send`. */
  predicate Answerable(s: Conn, write: bool, e: Event) {
    match e
    case Recv(data) => !write && |data| <= s.inp.Room()
    case RecvFails => !write
    case Send(n, _) => write && n <= |s.out.pending|
  }

  /** An event can happen exactly if the selector calls that handler of the descriptor, and the kernel may so answer. */
  lemma {:induction false} EnabledExactly(s: Conn, e: Event)
    ensures Enabled(s, e)
       <==> Answerable(s, e.Send?, e) && (if e.Send? then Bits(s.interest).write else Bits(s.interest).read)
  {
  }

  /** A connection in the server, with the store it was accepted with and the events it has had since. */
  datatype Served = Served(store: Store, past: seq<Input>, conn: Conn)

  type Conns = map<int, Served>

  /** Every connection is registered with its interest. */
  ghost predicate Agree(t: Selectors.Table, conns: Conns) {
    forall fd :: fd in conns ==> conns[fd].conn.Ok() && fd in t && t[fd].interest == Bits(conns[fd].conn.interest)
  }

  /** What a handler call makes of the world: an event of a connection, an accepted connection, or neither. */
  datatype Turn = Happens(input: Input) | Accepts(fd: int, handler: nat, data: nat, store: Store) | Other

  /** What a handler call leaves in the table: the new interest, or nothing once the connection is closed. */
  function Effect(fd: int, next: Conn): seq<Selectors.Action> {
    if next.stm == CLOSE_STATE then [Selectors.Drop(fd)] else [Selectors.SetTo(fd, Bits(next.interest))]
  }

  /** The connection after an event, if that can happen and does not abort the server. */
  ghost function Response(s: Conn, i: Input): Option<Conn> {
    if !s.Ok() || !Enabled(s, i.event) then None else
    match Step(i.users, s, i.event)
    case Aborted => None
    case Going(next, _) => Some(next)
  }

  /** The connections after a handler call: one has made a step, or is closed and gone, or one has been accepted. */
  ghost function After(conns: Conns, fd: int, turn: Turn): Conns {
    match turn
    case Happens(i) =>
      if fd !in conns || Response(conns[fd].conn, i).None? then conns
      else if Response(conns[fd].conn, i).value.stm == CLOSE_STATE then conns - {fd}
      else conns[fd := Served(conns[fd].store, conns[fd].past + [i], Response(conns[fd].conn, i).value)]
    case Accepts(accepted, _, _, store) =>
      if fd in conns || accepted in conns then conns else conns[accepted := Served(store, [], InitialConn(store))]
    case Other => conns
  }

  /**
   * A handler call that does what the handlers of this server do: for a connection, the kernel answers and the call's
   * effect is that of the machine's step; a listening socket accepts and registers a connection for writing; any other
   * handler leaves the descriptors of connections alone.
   */
  ghost predicate Plays(conns: Conns, c: Selectors.Call, turn: Turn, actions: seq<Selectors.Action>) {
    if c.fd in conns then
      && turn.Happens? && Answerable(conns[c.fd].conn, c.write, turn.input.event)
      && (Enabled(conns[c.fd].conn, turn.input.event) ==>
            var next := Response(conns[c.fd].conn, turn.input);
            next.Some? && actions == Effect(c.fd, next.value))
    else
      match turn
      case Happens(_) => false
      case Accepts(fd, handler, data, store) =>
        && store.Valid() && fd !in c.table && !Selectors.InvalidFd(fd)
        && actions == [Selectors.Add(fd, handler, Bits(OP_WRITE), data)]
      case Other => forall a :: a in actions ==> a.fd !in conns
  }

  /** All handler calls of an iteration do so. */
  ghost predicate PlaysAll(conns: Conns, calls: seq<Selectors.Call>, turns: seq<Turn>,
                           script: seq<seq<Selectors.Action>>, k: nat)
    decreases |calls|
  {
    calls == [] ||
    (k < |turns| && Plays(conns, calls[0], turns[k], Selectors.Actions(script, k)) &&
     PlaysAll(After(conns, calls[0].fd, turns[k]), calls[1..], turns, script, k + 1))
  }

  ghost function AfterAll(conns: Conns, calls: seq<Selectors.Call>, turns: seq<Turn>, k: nat): Conns
    decreases |calls|
  {
    if calls == [] || k >= |turns| then conns
    else AfterAll(After(conns, calls[0].fd, turns[k]), calls[1..], turns, k + 1)
  }

  /** Every handler call on a connection is an event that can happen to it at that moment. */
  ghost predicate AllEnabled(conns: Conns, calls: seq<Selectors.Call>, turns: seq<Turn>, k: nat)
    decreases |calls|
  {
    calls == [] ||
    (k < |turns| &&
     (calls[0].fd in conns ==> turns[k].Happens? && Enabled(conns[calls[0].fd].conn, turns[k].input.event)) &&
     AllEnabled(After(conns, calls[0].fd, turns[k]), calls[1..], turns, k + 1))
  }

  // ----- one call -----

  lemma {:induction false} OthersKept(t: Selectors.Table, actions: seq<Selectors.Action>, fd: int)
    requires forall a :: a in actions ==> a.fd != fd
    ensures fd in Selectors.ActAll(t, actions) <==> fd in t
    ensures fd in t ==> Selectors.ActAll(t, actions)[fd] == t[fd]
    decreases |actions|
  {
    if actions != [] {
      assert actions[0].fd != fd;
      OthersKept(Selectors.Act(t, actions[0]), actions[1..], fd);
    }
  }

  lemma {:induction false} EffectOn(t: Selectors.Table, fd: int, next: Conn)
    requires fd in t
    ensures var u := Selectors.ActAll(t, Effect(fd, next));
            u == if next.stm == CLOSE_STATE then t - {fd} else t[fd := t[fd].(interest := Bits(next.interest))]
  {
    var actions := Effect(fd, next);
    assert actions[1..] == [];
    assert Selectors.ActAll(t, actions) == Selectors.ActAll(Selectors.Act(t, actions[0]), []);
  }

  /** A legitimate call on a connection is an event that can happen to it; table and connections agree afterwards. */
  lemma {:induction false} CallDrives(conns: Conns, c: Selectors.Call, turn: Turn, actions: seq<Selectors.Action>,
                                      readable: set<int>, writable: set<int>)
    requires Agree(c.table, conns) && Selectors.Legitimate(c, readable, writable) && Plays(conns, c, turn, actions)
    ensures c.fd in conns ==> turn.Happens? && Enabled(conns[c.fd].conn, turn.input.event)
    ensures Agree(Selectors.ActAll(c.table, actions), After(conns, c.fd, turn))
  {
    hide Step, Enabled, Conn.Ok, InitialConn;
    if c.fd in conns {
      var s := conns[c.fd].conn;
      EnabledExactly(s, turn.input.event);
      assert c.write == turn.input.event.Send?;
      ResponseOk(s, turn.input);
      EffectOn(c.table, c.fd, Response(s, turn.input).value);
    } else {
      ConnsUntouched(conns, c, turn, actions);
      forall fd | fd in conns
        ensures fd in Selectors.ActAll(c.table, actions) && Selectors.ActAll(c.table, actions)[fd] == c.table[fd]
      {
        OthersKept(c.table, actions, fd);
      }
      if turn.Accepts? {
        Registers(c.table, turn.fd, turn.handler, turn.data);
        FreshInterest(turn.store);
      }
    }
  }

  lemma {:induction false} ConnsUntouched(conns: Conns, c: Selectors.Call, turn: Turn, actions: seq<Selectors.Action>)
    requires Agree(c.table, conns) && c.fd !in conns && Plays(conns, c, turn, actions)
    ensures forall a, fd :: a in actions && fd in conns ==> a.fd != fd
  {
  }

  lemma {:induction false} Registers(t: Selectors.Table, fd: int, handler: nat, data: nat)
    requires fd !in t && !Selectors.InvalidFd(fd)
    ensures var actions := [Selectors.Add(fd, handler, Bits(OP_WRITE), data)];
            Selectors.ActAll(t, actions) == t[fd := Selectors.Item(fd, Bits(OP_WRITE), handler, data)]
  {
    var actions := [Selectors.Add(fd, handler, Bits(OP_WRITE), data)];
    assert actions[1..] == [];
    assert Selectors.ActAll(t, actions) == Selectors.ActAll(Selectors.Act(t, actions[0]), []);
  }

  lemma {:induction false} FreshInterest(store: Store)
    ensures InitialConn(store).interest == OP_WRITE
  {
  }

  lemma {:induction false} ResponseOk(s: Conn, i: Input)
    ensures Response(s, i).Some? ==> Response(s, i).value.Ok()
  {
    hide Step;
    if s.Ok() && Enabled(s, i.event) {
      StepKeepsOk(i.users, s, i.event);
    }
  }

  // ----- one iteration -----

  /** Each call sees the table that the calls before it have left. */
  ghost predicate Chained(t: Selectors.Table, end: Selectors.Table, calls: seq<Selectors.Call>,
                          script: seq<seq<Selectors.Action>>, k: nat)
    decreases |calls|
  {
    if calls == [] then end == t
    else calls[0].table == t
         && Chained(Selectors.ActAll(t, Selectors.Actions(script, k)), end, calls[1..], script, k + 1)
  }

  lemma {:induction false} ChainConcat(t: Selectors.Table, mid: Selectors.Table, end: Selectors.Table,
                                       x: seq<Selectors.Call>,
                                       y: seq<Selectors.Call>, script: seq<seq<Selectors.Action>>, k: nat)
    requires Chained(t, mid, x, script, k) && Chained(mid, end, y, script, k + |x|)
    ensures Chained(t, end, x + y, script, k)
    decreases |x|
  {
    if x == [] {
      assert x + y == y;
    } else {
      assert (x + y)[1..] == x[1..] + y;
      ChainConcat(Selectors.ActAll(t, Selectors.Actions(script, k)), mid, end, x[1..], y, script, k + 1);
    }
  }

  lemma {:induction false} VisitChains(t: Selectors.Table, i: int, readable: set<int>, writable: set<int>,
                                       script: seq<seq<Selectors.Action>>, k: nat)
    ensures var (u, calls) := Selectors.Visit(t, i, readable, writable, script, k); Chained(t, u, calls, script, k)
  {
    hide Selectors.ActAll, Selectors.Actions;
    var (u, calls) := Selectors.Visit(t, i, readable, writable, script, k);
    if |calls| == 2 {
      var mid := Selectors.ActAll(t, Selectors.Actions(script, k));
      assert calls[1..][0] == calls[1] && calls[1..][1..] == [];
      assert u == Selectors.ActAll(mid, Selectors.Actions(script, k + 1));
      assert Chained(u, u, calls[1..][1..], script, k + 2);
      assert Chained(mid, u, calls[1..], script, k + 1);
    } else if |calls| == 1 {
      assert calls[1..] == [];
    }
  }

  lemma {:induction false} DispatchChains(t: Selectors.Table, i: nat, last: int, readable: set<int>, writable: set<int>,
                                          script: seq<seq<Selectors.Action>>, k: nat)
    ensures var (end, calls) := Selectors.Dispatch(t, i, last, readable, writable, script, k);
            Chained(t, end, calls, script, k)
    decreases last - i
  {
    hide Selectors.Visit, Chained;
    if i <= last {
      var (u, calls) := Selectors.Visit(t, i, readable, writable, script, k);
      var (end, more) := Selectors.Dispatch(u, i + 1, last, readable, writable, script, k + |calls|);
      VisitChains(t, i, readable, writable, script, k);
      DispatchChains(u, i + 1, last, readable, writable, script, k + |calls|);
      ChainConcat(t, u, end, calls, more, script, k);
    } else {
      NoChain(t, script, k);
    }
  }

  lemma {:induction false} NoChain(t: Selectors.Table, script: seq<seq<Selectors.Action>>, k: nat)
    ensures Chained(t, t, [], script, k)
  {
  }

  lemma {:induction false} ChainDrives(t: Selectors.Table, end: Selectors.Table, calls: seq<Selectors.Call>,
                                       conns: Conns,
                                       turns: seq<Turn>, script: seq<seq<Selectors.Action>>, k: nat,
                                       readable: set<int>, writable: set<int>)
    requires Chained(t, end, calls, script, k) && Selectors.AllLegitimate(calls, readable, writable)
    requires Agree(t, conns) && PlaysAll(conns, calls, turns, script, k)
    ensures AllEnabled(conns, calls, turns, k) && Agree(end, AfterAll(conns, calls, turns, k))
    decreases |calls|
  {
    hide Agree, Plays, After, Enabled, Selectors.Legitimate, Selectors.ActAll, Selectors.Actions;
    if calls != [] {
      CallDrives(conns, calls[0], turns[k], Selectors.Actions(script, k), readable, writable);
      assert forall a :: 0 <= a < |calls| - 1 ==> calls[1..][a] == calls[a + 1];
      ChainDrives(Selectors.ActAll(t, Selectors.Actions(script, k)), end, calls[1..],
                  After(conns, calls[0].fd, turns[k]), turns, script, k + 1, readable, writable);
    }
  }

  /**
   * An iteration of the selector over connections that are registered with their interests: every handler call on a
   * connection is an event that can happen to it, so a step of its machine, and all are registered so afterwards.
   */
  lemma {:induction false} IterationDrivesConnections(t: Selectors.Table, i: nat, last: int, readable: set<int>,
                                                      writable: set<int>,
                                                      script: seq<seq<Selectors.Action>>, k: nat,
                                                      conns: Conns, turns: seq<Turn>)
    requires Agree(t, conns)
    requires PlaysAll(conns, Selectors.Dispatch(t, i, last, readable, writable, script, k).1, turns, script, k)
    ensures var (end, calls) := Selectors.Dispatch(t, i, last, readable, writable, script, k);
            AllEnabled(conns, calls, turns, k) && Agree(end, AfterAll(conns, calls, turns, k))
  {
    hide Selectors.Dispatch, Agree, PlaysAll, AllEnabled, AfterAll, Chained;
    DispatchChains(t, i, last, readable, writable, script, k);
    Selectors.DispatchIsSafe(t, i, last, readable, writable, script, k);
    var (end, calls) := Selectors.Dispatch(t, i, last, readable, writable, script, k);
    ChainDrives(t, end, calls, conns, turns, script, k, readable, writable);
  }

  // ----- and every event that is due is delivered -----

  lemma {:induction false} VisitDelivers(t: Selectors.Table, i: int, readable: set<int>, writable: set<int>,
                                         script: seq<seq<Selectors.Action>>, k: nat, s: Conn)
    requires i in t && t[i].interest == Bits(s.interest)
    ensures var calls := Selectors.Visit(t, i, readable, writable, script, k).1;
            && (Selectors.Has(calls, i, false) <==> i in readable && Enabled(s, RecvFails))
            && (!Selectors.Has(calls, i, false) ==>
                  (Selectors.Has(calls, i, true) <==> i in writable && Enabled(s, Send(0, 0))))
  {
    hide Selectors.ActAll, Selectors.Actions;
    var calls := Selectors.Visit(t, i, readable, writable, script, k).1;
    if calls != [] {
      assert calls[0].fd == i;
    }
  }

  lemma {:induction false} NoCallsFor(t: Selectors.Table, i: nat, last: int, readable: set<int>, writable: set<int>,
                                      script: seq<seq<Selectors.Action>>, k: nat, fd: int, write: bool)
    requires fd < i
    ensures !Selectors.Has(Selectors.Dispatch(t, i, last, readable, writable, script, k).1, fd, write)
  {
    hide Selectors.Dispatch;
    Selectors.DispatchIsSafe(t, i, last, readable, writable, script, k);
  }

  /** The calls of the visit to another descriptor leave this connection and its interest as they are. */
  lemma {:induction false} OtherVisits(t: Selectors.Table, end: Selectors.Table, calls: seq<Selectors.Call>,
                                       conns: Conns,
                                       turns: seq<Turn>, script: seq<seq<Selectors.Action>>, k: nat, fd: int)
    requires Chained(t, end, calls, script, k) && PlaysAll(conns, calls, turns, script, k)
    requires fd in conns && fd in t && forall a :: 0 <= a < |calls| ==> calls[a].fd != fd
    requires AllEnabled(conns, calls, turns, k)
    ensures var after := AfterAll(conns, calls, turns, k);
            fd in after && after[fd] == conns[fd] && fd in end && end[fd] == t[fd]
    decreases |calls|
  {
    hide Response, Enabled;
    if calls != [] {
      var c, actions := calls[0], Selectors.Actions(script, k);
      assert c.fd != fd;
      OthersKept(t, actions, fd);
      assert forall a :: 0 <= a < |calls| - 1 ==> calls[1..][a] == calls[a + 1];
      OtherVisits(Selectors.ActAll(t, actions), end, calls[1..], After(conns, c.fd, turns[k]),
                  turns, script, k + 1, fd);
    }
  }

  lemma {:induction false} PlaysSplit(conns: Conns, x: seq<Selectors.Call>, y: seq<Selectors.Call>,
                                      turns: seq<Turn>,
                                      script: seq<seq<Selectors.Action>>, k: nat)
    requires PlaysAll(conns, x + y, turns, script, k)
    ensures PlaysAll(conns, x, turns, script, k) && PlaysAll(AfterAll(conns, x, turns, k), y, turns, script, k + |x|)
    decreases |x|
  {
    hide Plays, After;
    if x == [] {
      assert x + y == y;
    } else {
      assert (x + y)[1..] == x[1..] + y;
      PlaysSplit(After(conns, x[0].fd, turns[k]), x[1..], y, turns, script, k + 1);
    }
  }

  /**
   * In such an iteration the read handler of a connection is called if and only if it is readable and a read can happen
   * to it; if it is not, the write handler if and only if it is writable and a write can happen to it.
   */
  lemma {:induction false} IterationDelivers(t: Selectors.Table, i: nat, last: int, readable: set<int>,
                                             writable: set<int>,
                                             script: seq<seq<Selectors.Action>>, k: nat,
                                             conns: Conns, turns: seq<Turn>, fd: int)
    requires Agree(t, conns) && fd in conns && i <= fd <= last
    requires PlaysAll(conns, Selectors.Dispatch(t, i, last, readable, writable, script, k).1, turns, script, k)
    ensures var calls := Selectors.Dispatch(t, i, last, readable, writable, script, k).1;
            && (Selectors.Has(calls, fd, false) <==> fd in readable && Enabled(conns[fd].conn, RecvFails))
            && (!Selectors.Has(calls, fd, false) ==>
                  (Selectors.Has(calls, fd, true) <==> fd in writable && Enabled(conns[fd].conn, Send(0, 0))))
    decreases last - i
  {
    hide Selectors.Visit, PlaysAll, AllEnabled, AfterAll, Chained, Enabled, Selectors.Legitimate;
    var (u, calls) := Selectors.Visit(t, i, readable, writable, script, k);
    var more := Selectors.Dispatch(u, i + 1, last, readable, writable, script, k + |calls|).1;
    Selectors.HasConcat(calls, more, fd, false);
    Selectors.HasConcat(calls, more, fd, true);
    if i == fd {
      VisitDelivers(t, i, readable, writable, script, k, conns[fd].conn);
      NoCallsFor(u, i + 1, last, readable, writable, script, k + |calls|, fd, false);
      NoCallsFor(u, i + 1, last, readable, writable, script, k + |calls|, fd, true);
    } else {
      Selectors.VisitIsSafe(t, i, readable, writable, script, k);
      VisitChains(t, i, readable, writable, script, k);
      PlaysSplit(conns, calls, more, turns, script, k);
      ChainDrives(t, u, calls, conns, turns, script, k, readable, writable);
      OtherVisits(t, u, calls, conns, turns, script, k, fd);
      IterationDelivers(u, i + 1, last, readable, writable, script, k + |calls|,
                        AfterAll(conns, calls, turns, k), turns, fd);
    }
  }

  // ----- a connection's events are a run of it -----

  /** Every event of the run happens when its turn comes, and none aborts. */
  ghost predicate Lives(s: Conn, inputs: seq<Input>)
    requires s.Ok()
    decreases |inputs|
  {
    inputs == [] ||
    (Response(s, inputs[0]).Some? &&
     (ResponseOk(s, inputs[0]); Lives(Response(s, inputs[0]).value, inputs[1..])))
  }

  lemma {:induction false} LivesOn(s: Conn, inputs: seq<Input>, i: Input)
    requires s.Ok() && Lives(s, inputs) && Response(Run(s, inputs).0, i).Some?
    ensures Lives(s, inputs + [i]) && Run(s, inputs + [i]).0 == Response(Run(s, inputs).0, i).value
    decreases |inputs|
  {
    hide Step, Enabled;
    if inputs == [] {
      assert [] + [i] == [i] && [i][1..] == [];
      ResponseOk(s, i);
    } else {
      ResponseOk(s, inputs[0]);
      assert (inputs + [i])[1..] == inputs[1..] + [i];
      LivesOn(Response(s, inputs[0]).value, inputs[1..], i);
    }
  }

  /** The connection is what its events since `accept` have made of a fresh one. */
  ghost predicate Recorded(v: Served) {
    v.store.Valid() && Lives(InitialConn(v.store), v.past) && v.conn == Run(InitialConn(v.store), v.past).0
  }

  ghost predicate AllRecorded(conns: Conns) {
    forall fd :: fd in conns ==> Recorded(conns[fd])
  }

  lemma {:induction false} CallRecords(conns: Conns, c: Selectors.Call, turn: Turn, actions: seq<Selectors.Action>)
    requires AllRecorded(conns) && Plays(conns, c, turn, actions)
    ensures AllRecorded(After(conns, c.fd, turn))
  {
    hide InitialConn, Run, Lives, Response;
    if c.fd in conns && Response(conns[c.fd].conn, turn.input).Some? {
      LivesOn(InitialConn(conns[c.fd].store), conns[c.fd].past, turn.input);
    } else if c.fd !in conns && turn.Accepts? {
      FreshRecorded(turn.store);
    }
  }

  lemma {:induction false} FreshRecorded(store: Store)
    requires store.Valid()
    ensures Recorded(Served(store, [], InitialConn(store)))
  {
  }

  lemma {:induction false} CallsRecord(conns: Conns, calls: seq<Selectors.Call>, turns: seq<Turn>,
                                       script: seq<seq<Selectors.Action>>, k: nat)
    requires AllRecorded(conns) && PlaysAll(conns, calls, turns, script, k)
    ensures AllRecorded(AfterAll(conns, calls, turns, k))
    decreases |calls|
  {
    hide AllRecorded, Plays, After, Selectors.Actions;
    if calls != [] {
      CallRecords(conns, calls[0], turns[k], Selectors.Actions(script, k));
      CallsRecord(After(conns, calls[0].fd, turns[k]), calls[1..], turns, script, k + 1);
    }
  }

  /** The events that these calls bring to a descriptor's connection, until it is closed. */
  ghost function InputsOf(conns: Conns, calls: seq<Selectors.Call>, turns: seq<Turn>, k: nat, fd: int): seq<Input>
    decreases |calls|
  {
    if calls == [] || k >= |turns| || fd !in conns then [] else
    (if calls[0].fd == fd && turns[k].Happens? then [turns[k].input] else [])
    + InputsOf(After(conns, calls[0].fd, turns[k]), calls[1..], turns, k + 1, fd)
  }

  /** The connection is not closed by these calls. */
  ghost predicate Stays(conns: Conns, calls: seq<Selectors.Call>, turns: seq<Turn>, k: nat, fd: int)
    decreases |calls|
  {
    && fd in conns
    && (calls == [] || k >= |turns| || Stays(After(conns, calls[0].fd, turns[k]), calls[1..], turns, k + 1, fd))
  }

  /** What the calls of an iteration do to a connection is the run of their events, to the end or to CLOSE_STATE. */
  lemma {:induction false} CallsAreARun(conns: Conns, calls: seq<Selectors.Call>, turns: seq<Turn>,
                                        script: seq<seq<Selectors.Action>>, k: nat, fd: int)
    requires fd in conns && conns[fd].conn.Ok() && PlaysAll(conns, calls, turns, script, k)
    requires AllEnabled(conns, calls, turns, k)
    ensures var v, ins := conns[fd], InputsOf(conns, calls, turns, k, fd);
            && Lives(v.conn, ins)
            && (if Stays(conns, calls, turns, k, fd)
                then fd in AfterAll(conns, calls, turns, k)
                     && AfterAll(conns, calls, turns, k)[fd] == Served(v.store, v.past + ins, Run(v.conn, ins).0)
                else Run(v.conn, ins).0.stm == CLOSE_STATE)
    decreases |calls|
  {
    hide Enabled, InitialConn, Run, Lives, Response, Plays;
    var v := conns[fd];
    RunOfNothing(v.conn);
    if calls == [] {
      assert v.past + [] == v.past;
    } else {
      var c, turn := calls[0], turns[k];
      var next := After(conns, c.fd, turn);
      var later := InputsOf(next, calls[1..], turns, k + 1, fd);
      if c.fd != fd {
        OtherCall(conns, c.fd, turn, fd);
        assert [] + later == later;
        CallsAreARun(next, calls[1..], turns, script, k + 1, fd);
      } else {
        var i := turn.input;
        OwnCall(conns, c, turn, Selectors.Actions(script, k));
        var s := Response(v.conn, i).value;
        RunOfFirst(v.conn, i, later);
        if fd in next {
          assert (v.past + [i]) + later == v.past + ([i] + later);
          CallsAreARun(next, calls[1..], turns, script, k + 1, fd);
        } else {
          RunOfNothing(s);
          NothingAfterClosing(next, calls[1..], turns, k + 1, fd);
        }
      }
    }
  }

  lemma {:induction false} NothingAfterClosing(conns: Conns, calls: seq<Selectors.Call>, turns: seq<Turn>, k: nat,
                                               fd: int)
    requires fd !in conns
    ensures InputsOf(conns, calls, turns, k, fd) == [] && !Stays(conns, calls, turns, k, fd)
  {
  }

  lemma {:induction false} RunOfNothing(s: Conn)
    requires s.Ok()
    ensures Run(s, []) == (s, "") && Lives(s, [])
  {
  }

  lemma {:induction false} RunOfFirst(s: Conn, i: Input, later: seq<Input>)
    requires s.Ok() && Response(s, i).Some?
    ensures var t := Response(s, i).value;
            && t.Ok() && Run(s, [i] + later).0 == Run(t, later).0
            && (Lives(s, [i] + later) <==> Lives(t, later))
  {
    hide Step, Enabled;
    ResponseOk(s, i);
    assert ([i] + later)[1..] == later;
  }

  lemma {:induction false} OtherCall(conns: Conns, caller: int, turn: Turn, fd: int)
    requires fd in conns && caller != fd
    ensures var next := After(conns, caller, turn); fd in next && next[fd] == conns[fd]
  {
    hide Response, InitialConn;
  }

  lemma {:induction false} OwnCall(conns: Conns, c: Selectors.Call, turn: Turn, actions: seq<Selectors.Action>)
    requires c.fd in conns && Plays(conns, c, turn, actions) && turn.Happens?
    requires Enabled(conns[c.fd].conn, turn.input.event)
    ensures var r, next, v := Response(conns[c.fd].conn, turn.input), After(conns, c.fd, turn), conns[c.fd];
            && r.Some?
            && (r.value.stm == CLOSE_STATE ==> c.fd !in next)
            && (r.value.stm != CLOSE_STATE ==>
                  c.fd in next && next[c.fd] == Served(v.store, v.past + [turn.input], r.value))
  {
    hide Response;
  }

  // ----- iterations -----

  /** An iteration up to this descriptor, on these ready sets, with these handlers and this world. */
  datatype Round = Round(last: int, readable: set<int>, writable: set<int>,
                         script: seq<seq<Selectors.Action>>, turns: seq<Turn>)

  ghost function CallsIn(t: Selectors.Table, r: Round): (Selectors.Table, seq<Selectors.Call>) {
    Selectors.Dispatch(t, 0, r.last, r.readable, r.writable, r.script, 0)
  }

  ghost predicate PlaysRounds(t: Selectors.Table, conns: Conns, rounds: seq<Round>)
    decreases |rounds|
  {
    rounds == [] ||
    (var (u, calls) := CallsIn(t, rounds[0]);
     && PlaysAll(conns, calls, rounds[0].turns, rounds[0].script, 0)
     && PlaysRounds(u, AfterAll(conns, calls, rounds[0].turns, 0), rounds[1..]))
  }

  /** Table and connections after these iterations. */
  ghost function Loop(t: Selectors.Table, conns: Conns, rounds: seq<Round>): (Selectors.Table, Conns)
    decreases |rounds|
  {
    if rounds == [] then (t, conns) else
    var (u, calls) := CallsIn(t, rounds[0]);
    Loop(u, AfterAll(conns, calls, rounds[0].turns, 0), rounds[1..])
  }

  lemma {:induction false} LoopKeepsRecords(t: Selectors.Table, conns: Conns, rounds: seq<Round>)
    requires Agree(t, conns) && AllRecorded(conns) && PlaysRounds(t, conns, rounds)
    ensures var (u, after) := Loop(t, conns, rounds); Agree(u, after) && AllRecorded(after)
    decreases |rounds|
  {
    hide Agree, AllRecorded, PlaysAll, AfterAll, AllEnabled, Selectors.Dispatch;
    if rounds != [] {
      var r := rounds[0];
      var (u, calls) := CallsIn(t, r);
      IterationDrivesConnections(t, 0, r.last, r.readable, r.writable, r.script, 0, conns, r.turns);
      CallsRecord(conns, calls, r.turns, r.script, 0);
      LoopKeepsRecords(u, AfterAll(conns, calls, r.turns, 0), rounds[1..]);
    }
  }

  /**
   * A server from its start, with whatever listening sockets, after any iterations that accept, serve and close any
   * connections: each connection is registered with its interest and is the run, from `accept` on, of exactly the
   * events it has had; so its state and interest agree, unless it has stranded input, and if it is in TRANSACTION it
   * has logged in.
   */
  lemma {:induction false} ServerRun(t: Selectors.Table, rounds: seq<Round>, fd: int)
    requires PlaysRounds(t, map[], rounds) && fd in Loop(t, map[], rounds).1
    ensures var (u, conns) := Loop(t, map[], rounds);
            var v := conns[fd];
            && fd in u && u[fd].interest == Bits(v.conn.interest)
            && v.store.Valid() && v.conn == Run(InitialConn(v.store), v.past).0
            && (if StrandsOn(InitialConn(v.store), v.past) then Lost(v.conn) else Settled(v.conn))
            && (v.conn.mail.phase == TRANSACTION ==>
                  var steps := StepsOn(InitialConn(v.store), v.past);
                  && CommandsOf(steps) <= CommandsHeard(Heard(InitialConn(v.store), v.past))
                  && exists j ::
                       0 <= j < |steps| && MaildropRuns.LoggedInSince(InitialMail(v.store), steps, j, |steps|))
  {
    hide Loop, PlaysRounds, Run, InitialConn, Settled, Lost, StrandsOn, Heard, StepsOn, MaildropRuns.LoggedInSince;
    hide CommandsHeard, CommandsOf, Lives;
    LoopKeepsRecords(t, map[], rounds);
    var v := Loop(t, map[], rounds).1[fd];
    assert Recorded(v);
    EveryRunSettles(v.store, v.past);
    if v.conn.mail.phase == TRANSACTION {
      SessionLogin(v.store, v.past);
    }
  }
}
