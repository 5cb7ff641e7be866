/** What one event makes of the bytes received: which command it executes, which fragment it leaves in the parser. */
module Hearing {
  import opened Text
  import opened Buffers
  import opened Commands
  import opened Parsers
  import opened Maildrop
  import opened DotStuffing
  import opened Session
  import opened SessionSafety

  /** The parser holds this fragment of a line. */
  ghost predicate Holds(s: Conn, frag: string) {
    Init().Consume(frag).0 == s.parser
  }

  function Data(e: Event): string {
    if e.Recv? then e.data else ""
  }

  /** A failing `recv` finds no input and resets the parser: a fragment in it is forgotten. */
  predicate Forgets(s: Conn, e: Event) {
    e.RecvFails? && s.inp.pending == "" && s.parser != Init()
  }

  /** The bytes that the event gives to the parser. */
  function Fed(s: Conn, e: Event): string {
    if !e.Send? then s.inp.pending + Data(e)
    else if s.stm == WRITE && e.n == |s.out.pending| then s.inp.pending
    else ""
  }

  /** The command that the event executes, if any. */
  function Executed(s: Conn, e: Event): seq<Command>
    requires s.parser.Valid()
  {
    var (p, _) := s.parser.Consume(Fed(s, e));
    if Fed(s, e) != "" && p.finished then [p.Result()] else []
  }

  /** The fragment held after the event. */
  function NextFrag(s: Conn, e: Event, frag: string): string
    requires s.parser.Valid()
  {
    if Executed(s, e) != [] || Forgets(s, e) then "" else frag + Fed(s, e)
  }

  // ----- the parser on the input -----

  lemma {:induction false} ConsumeSuffix(p: PState, s: string)
    requires p.Valid()
    ensures p.Consume(s).1 == s[|s| - |p.Consume(s).1|..]
    ensures !p.Consume(s).0.finished ==> p.Consume(s).1 == ""
    decreases |s|
  {
    hide PState.Feed;
    if s != "" && !p.Feed(s[0]).finished {
      ConsumeSuffix(p.Feed(s[0]), s[1..]);
    }
  }

  /** What the parser makes of the input, in terms of the whole stream. */
  lemma {:induction false} ConsumeInput(frag: string, p: PState, pending: string, later: string)
    requires Init().Consume(frag).0 == p && !p.finished
    ensures var (q, rest) := p.Consume(pending);
            && (q.finished ==> CommandsIn(frag + pending + later) == [q.Result()] + CommandsIn("" + rest + later))
            && (!q.finished ==> Init().Consume(frag + pending).0 == q)
  {
    hide PState.Consume, CommandsIn;
    ConsumeSplit(Init(), frag, pending);
    var (q, rest) := p.Consume(pending);
    if q.finished {
      ConsumeMore(Init(), frag + pending, later);
      FirstCommand(frag + pending + later);
      assert "" + rest + later == rest + later;
    }
  }

  lemma {:induction false} HoldsNothing()
    ensures Init().Consume("").0 == Init()
  {
  }

  /** A fragment completes no command. */
  lemma {:induction false} FragmentIsIncomplete(s: Conn, frag: string)
    requires s.Ok() && Holds(s, frag)
    ensures CommandsIn(frag) == []
  {
    hide PState.Consume, CommandsIn;
    FirstCommand(frag);
  }

  // ----- the event on the connection -----

  /** The connection whose input the parser is given. */
  function FedConn(s: Conn, e: Event): Conn
    requires e.Send? ==> e.n <= |s.out.pending|
  {
    match e
    case Recv(data) => s.(inp := s.inp.Append(data))
    case RecvFails => s
    case Send(n, _) => s.(out := s.out.Take(n))
  }

  lemma {:induction false} SettledReading(s: Conn)
    requires Settled(s)
    ensures s.Ok()
    ensures s.stm == READ ==>
              Empty(s.out) && s.inp.cap == BUFFER_SIZE && s.file.None? && s.mail.phase != CLOSED && s.cursor == -1
  {
  }

  /** An event that feeds the parser is a step of it, on an empty server buffer. */
  lemma {:induction false} Feeds(users: set<(string, string)>, s: Conn, e: Event)
    requires Settled(s) && Enabled(s, e) && !Strands(s, e) && Fed(s, e) != ""
    ensures var t := FedConn(s, e);
            && s.stm in {READ, WRITE} && t.Ok() && t.cursor == -1 && Empty(t.out)
            && t.out.cap == t.inp.cap == BUFFER_SIZE
            && t.file.None? && t.mail == s.mail && t.mail.phase != CLOSED && t.newLine == s.newLine
            && t.inp.CanRead() && t.inp.pending == Fed(s, e) && t.parser == s.parser && t.stm == s.stm
            && var x := ParseCommand(users, t);
               && x.Some? && Step(users, s, e) == Going(x.value.conn.(stm := x.value.stm), s.out.pending)
  {
    hide ParseCommand, PState.Consume;
    SettledOk(s);
    NothingHappens(s, e);
    if e.Send? {
      WritingParses(users, s, e);
      assert s.out.pending[..e.n] == s.out.pending;
    } else {
      ReadingParses(users, s, e);
    }
  }

  /** Any other event leaves the maildrop and the input alone, and the parser, unless it resets it. */
  lemma {:induction false} FeedsNothing(users: set<(string, string)>, s: Conn, e: Event)
    requires Settled(s) && Enabled(s, e) && !Strands(s, e) && Fed(s, e) == "" && Step(users, s, e).Going?
    ensures var t := Step(users, s, e).conn;
            && t.mail == s.mail && t.inp.pending == s.inp.pending
            && t.parser == (if e.RecvFails? then Init() else s.parser)
            && (e.RecvFails? ==> s.inp.pending == "")
  {
    hide ParseCommand, PState.Consume;
    NothingHappens(s, e);
    match s.stm {
      case READ => NoInput(users, s, e);
      case WRITE => StillWriting(users, s, e);
      case WRITE_LIST => ListKeepsInput(users, s, e);
      case WRITE_FILE => FileKeepsInput(users, s, e);
    }
  }

  lemma {:induction false} NoInput(users: set<(string, string)>, s: Conn, e: Event)
    requires Settled(s) && Enabled(s, e) && s.stm == READ && Fed(s, e) == ""
    ensures var r := Step(users, s, e);
            && r.Going? && r.sent == "" && r.conn.out == s.out
            && r.conn.stm == (if e == Recv("") then CLOSE_STATE else READ)
            && r.conn.newLine == s.newLine
            && r.conn.mail == s.mail && r.conn.inp.pending == s.inp.pending == ""
            && r.conn.parser == if e.RecvFails? then Init() else s.parser
  {
    hide ParseCommand, PState.Consume;
    SettledReading(s);
    ReadingSettles(users, s, e);
    var t := FedConn(s, e);
    assert t.inp.pending == "" + Data(e);
    ParseNothing(users, t);
  }

  lemma {:induction false} StillWriting(users: set<(string, string)>, s: Conn, e: Event)
    requires Settled(s) && Enabled(s, e) && s.stm == WRITE && Fed(s, e) == ""
    ensures var r := Step(users, s, e);
            && r.Going? && r.sent == s.out.pending[..e.n] && r.conn.out.pending == s.out.pending[e.n..]
            && r.conn.stm == (if e.n < |s.out.pending| then WRITE
                              else if s.mail.phase == CLOSED then CLOSE_STATE else READ)
            && r.conn.newLine == s.newLine
            && r.conn.mail == s.mail && r.conn.inp == s.inp && r.conn.parser == s.parser
  {
    hide ParseCommand, PState.Consume;
    SettledOk(s);
    WritingSettles(users, s, e);
  }

  /** The client hangs up while nothing waits: the connection is closed, and its descriptor unregistered. */
  lemma {:induction false} HangUpCloses(users: set<(string, string)>, s: Conn)
    requires Settled(s) && s.stm == READ && s.inp.pending == ""
    ensures Enabled(s, Recv("")) && Step(users, s, Recv("")) == Going(s.(stm := CLOSE_STATE, interest := OP_NOOP), "")
  {
    hide ParseCommand;
    assert "" + "" == "";
  }

  /**
   * A connection is closed exactly when its client hangs up while nothing waits, or its last reply is out after QUIT
   * and nothing waits.
   */
  lemma {:induction false} ClosesExactly(users: set<(string, string)>, s: Conn, e: Event)
    requires Settled(s) && Enabled(s, e) && Step(users, s, e).Going?
    ensures Step(users, s, e).conn.stm == CLOSE_STATE <==>
              s.inp.pending == ""
              && ((s.stm == READ && e == Recv(""))
                  || (s.stm == WRITE && e.Send? && e.n == |s.out.pending| && s.mail.phase == CLOSED))
  {
    hide Step, PState.Consume, ParseCommand;
    SettledOk(s);
    NothingHappens(s, e);
    ReadsOnlyReading(s, e);
    if s.stm == WRITE_LIST {
      ListGoesOn(users, s, e);
    } else if s.stm == WRITE_FILE {
      FileSettles(users, s, e);
    } else if Strands(s, e) {
      StrandingDooms(users, s, e);
    } else if Fed(s, e) != "" {
      Feeds(users, s, e);
      ParseSettles(users, FedConn(s, e));
    } else if s.stm == READ {
      NoInput(users, s, e);
    } else {
      StillWriting(users, s, e);
    }
  }

  /**
   * What stranded input leads to: a fragment is taken in, with write interest in READ, where nothing writes; a command
   * behind QUIT is taken off the input and answered `-ERR` in ERROR_STATE, where nothing sends it.
   */
  lemma {:induction false} StrandedExactly(users: set<(string, string)>, s: Conn, e: Event)
    requires Settled(s) && Enabled(s, e) && Strands(s, e)
    ensures var (p, rest) := s.parser.Consume(s.inp.pending);
            var t := s.(inp := s.inp.Take(|s.inp.pending| - |rest|));
            Step(users, s, e)
            == Going(if p.finished
                     then t.(out := Buf(0, "-ERR\r\n", BUFFER_SIZE), parser := Init(), stm := ERROR_STATE)
                     else t.(out := Buf(0, "", BUFFER_SIZE), parser := p, stm := READ),
                     s.out.pending)
    ensures s.interest == OP_WRITE && (s.parser.Consume(s.inp.pending).0.finished ==> s.mail.phase == CLOSED)
  {
    hide PState.Consume, Exec;
    SettledOk(s);
    var t := s.(out := s.out.Take(e.n));
    assert s.out.pending[..e.n] == s.out.pending && t.out == Buf(0, "", BUFFER_SIZE);
    assert t.out.Printed("-ERR\r\n") == Some(Buf(0, "-ERR\r\n", BUFFER_SIZE)) by {
      assert "" + "-ERR\r\n" == "-ERR\r\n";
    }
  }

  lemma {:induction false} ReadsOnlyReading(s: Conn, e: Event)
    requires Settled(s) && Enabled(s, e)
    ensures s.stm == READ <==> !e.Send?
  {
  }

  lemma {:induction false} ListGoesOn(users: set<(string, string)>, s: Conn, e: Event)
    requires Settled(s) && Enabled(s, e) && s.stm == WRITE_LIST
    ensures var r := Step(users, s, e); r.Going? && r.conn.stm in {WRITE, WRITE_LIST}
  {
    hide ReadList;
    ListSettles(users, s, e);
    var t := s.(out := s.out.Take(e.n));
    if !t.out.CanRead() {
      ReadListSettles(t);
    }
  }

  lemma {:induction false} ListKeepsInput(users: set<(string, string)>, s: Conn, e: Event)
    requires Settled(s) && Enabled(s, e) && s.stm == WRITE_LIST
    ensures var r := Step(users, s, e);
            && r.Going? && r.conn.mail == s.mail && r.conn.parser == s.parser
            && r.conn.inp == s.inp && r.conn.newLine == s.newLine
  {
    hide ReadList;
    ListSettles(users, s, e);
    var t := s.(out := s.out.Take(e.n));
    if !t.out.CanRead() {
      ReadListSettles(t);
    }
  }

  lemma {:induction false} FileKeepsInput(users: set<(string, string)>, s: Conn, e: Event)
    requires Settled(s) && Enabled(s, e) && s.stm == WRITE_FILE
    ensures var r := Step(users, s, e);
            r.Going? ==> r.conn.inp == s.inp && r.conn.parser == s.parser && r.conn.mail == s.mail
  {
    hide *;
    StepSendsFile(users, s, e);
    WriteFileKeepsInput(s, e.n, e.k);
  }

  lemma {:induction false} StepSendsFile(users: set<(string, string)>, s: Conn, e: Event)
    requires Settled(s) && Enabled(s, e) && s.stm == WRITE_FILE
    ensures e.Send? && e.n <= |s.out.pending|
    ensures var r := Step(users, s, e);
            r.Going? ==>
              var x := WriteFile(s, e.n, e.k);
              && x.Some? && r.conn.inp == x.value.conn.inp
              && r.conn.parser == x.value.conn.parser && r.conn.mail == x.value.conn.mail
  {
    hide WriteFile, Settled;
    assert s.interest == OP_WRITE by { SettledSending(s); }
  }

  lemma {:induction false} SettledSending(s: Conn)
    requires Settled(s) && s.stm == WRITE_FILE
    ensures s.interest == OP_WRITE
  {
  }

  lemma {:induction false} WriteFileKeepsInput(s: Conn, n: nat, k: nat)
    requires n <= |s.out.pending|
    ensures var x := WriteFile(s, n, k);
            x.Some? ==> x.value.conn.inp == s.inp && x.value.conn.parser == s.parser && x.value.conn.mail == s.mail
  {
    hide Encode, Conn.Chunk, Conn.Unread, After, CStr, Buf.PutAll, Buf.Printed, Buf.Take, Buf.CanRead, Buf.CanWrite;
  }

  /** Parsing the input executes its first command, if it is complete, and takes in all of it, if not. */
  lemma {:induction false} ParseExecutes(users: set<(string, string)>, s: Conn)
    requires s.Ok() && s.cursor == -1 && Empty(s.out) && s.inp.cap == BUFFER_SIZE && s.file.None?
    requires s.mail.phase != CLOSED
    requires s.inp.CanRead()
    ensures var x := ParseCommand(users, s);
            var (p, rest) := s.parser.Consume(s.inp.pending);
            && x.Some? && x.value.conn.inp.pending == rest
            && (p.finished ==> x.value.conn.parser == Init() && x.value.conn.mail == Exec(users, s.mail, p.Result()).0)
            && (!p.finished ==>
                  x.value.conn.parser == p && rest == "" && x.value.conn.mail == s.mail && x.value.stm == READ)
  {
    hide ExecuteCommand, PState.Consume, Exec;
    ParseSettles(users, s);
    ConsumeSuffix(s.parser, s.inp.pending);
    var (p, rest) := s.parser.Consume(s.inp.pending);
    var t := s.(parser := p, inp := s.inp.Take(|s.inp.pending| - |rest|));
    if p.finished {
      ExecuteSettles(users, t, p.Result());
      ExecuteExecutes(users, t, p.Result());
    }
  }

  lemma {:induction false} ExecuteExecutes(users: set<(string, string)>, s: Conn, c: Command)
    requires s.mail.Valid() && s.mail.phase != CLOSED && s.cursor == -1 && ExecuteCommand(users, s, c).Some?
    ensures ExecuteCommand(users, s, c).value.conn.mail == Exec(users, s.mail, c).0
    ensures ExecuteCommand(users, s, c).value.conn.inp == s.inp
  {
    hide Exec, Buf.Printed;
    ExecKeepsValid(users, s.mail, c);
  }

  /** What the event leaves: the parser's fragment, the maildrop, and the stream from the next command on. */
  ghost predicate Hears(users: set<(string, string)>, s: Conn, e: Event, t: Conn, frag: string, later: string)
    requires s.parser.Valid()
  {
    var cmds := Executed(s, e);
    && Holds(t, NextFrag(s, e, frag))
    && (cmds == [] ==> t.mail == s.mail)
    && (cmds != [] ==> s.mail.Valid() && s.mail.phase != CLOSED && t.mail == Exec(users, s.mail, cmds[0]).0)
    && (Forgets(s, e) ==> cmds == [] && CommandsIn(frag + s.inp.pending + "") == [] && t.inp.pending == "")
    && (!Forgets(s, e) ==>
          (CommandsIn(frag + s.inp.pending + (Data(e) + later))
           == cmds + CommandsIn(NextFrag(s, e, frag) + t.inp.pending + later)))
  }

  lemma {:induction false} FedHears(users: set<(string, string)>, s: Conn, e: Event, frag: string, later: string)
    requires Settled(s) && Enabled(s, e) && s.parser.Valid() && !Strands(s, e) && Step(users, s, e).Going?
    requires Holds(s, frag) && Fed(s, e) != ""
    ensures Hears(users, s, e, Step(users, s, e).conn, frag, later)
  {
    hide Step, CommandsIn, PState.Consume, Settled, Enabled, Strands, Exec;
    HoldsNothing();
    Regroup(frag, s.inp.pending, Data(e), later);
    Feeds(users, s, e);
    var u := FedConn(s, e);
    ParseExecutes(users, u);
    ConsumeInput(frag, s.parser, u.inp.pending, later);
    assert s.inp.pending + "" == s.inp.pending && frag + u.inp.pending + "" == frag + u.inp.pending;
  }

  lemma {:induction false} UnfedHears(users: set<(string, string)>, s: Conn, e: Event, frag: string, later: string)
    requires Settled(s) && Enabled(s, e) && s.parser.Valid() && !Strands(s, e) && Step(users, s, e).Going?
    requires Holds(s, frag) && Fed(s, e) == ""
    ensures Hears(users, s, e, Step(users, s, e).conn, frag, later)
  {
    hide Step, CommandsIn, PState.Consume, Settled, Enabled, Strands, Exec;
    SettledOk(s);
    HoldsNothing();
    Regroup(frag, s.inp.pending, Data(e), later);
    FeedsNothing(users, s, e);
    FragmentIsIncomplete(s, frag);
    assert frag + "" == frag && frag + "" + "" == frag;
    assert [] + CommandsIn(frag + s.inp.pending + later) == CommandsIn(frag + s.inp.pending + later);
  }

  /** One event executes at most the next command of the stream, and holds on to the fragment behind it. */
  lemma {:induction false} StepHears(users: set<(string, string)>, s: Conn, e: Event, frag: string, later: string)
    requires Settled(s) && Enabled(s, e) && s.parser.Valid() && !Strands(s, e) && Step(users, s, e).Going?
    requires Holds(s, frag)
    ensures Hears(users, s, e, Step(users, s, e).conn, frag, later)
  {
    hide *;
    if Fed(s, e) != "" {
      FedHears(users, s, e, frag, later);
    } else {
      UnfedHears(users, s, e, frag, later);
    }
  }

  lemma {:induction false} Regroup(frag: string, pending: string, data: string, later: string)
    ensures frag + pending + (data + later) == frag + (pending + data) + later
    ensures data == "" ==> frag + pending + (data + later) == frag + pending + later
    ensures frag + (pending + data) + "" + later == frag + (pending + data) + later
    ensures frag + pending + "" + later == frag + pending + later
  {
    assert "" + later == later;
  }
}
