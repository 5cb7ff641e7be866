/** State and interest agree in every reachable state, except after one exactly described event; another aborts. */
module SessionSafety {
  import opened Text
  import opened Buffers
  import opened Commands
  import opened Parsers
  import opened Maildrop
  import opened DotStuffing
  import opened Session

  // ----- every step yields a well-formed connection -----

  /** What a handler must leave for the next state to be well-formed. */
  ghost predicate Landing(x: Next) {
    && x.conn.out.Valid() && x.conn.inp.Valid() && x.conn.parser.Valid() && !x.conn.parser.finished
    && x.conn.mail.Valid()
    && (x.conn.cursor == -1 || (x.stm == WRITE_LIST && 0 <= x.conn.cursor <= x.conn.mail.cant))
  }

  lemma {:induction false} JumpOk(x: Next)
    requires Landing(x)
    ensures Jump(x.conn, x.stm).Ok()
  {
  }

  lemma {:induction false} ReadListOk(s: Conn)
    requires Landing(Next(s, WRITE_LIST)) && ReadList(s).Some?
    ensures Landing(ReadList(s).value)
  {
    hide Dec, ListHeader, ListLine;
  }

  lemma {:induction false} ExecuteOk(users: set<(string, string)>, s: Conn, c: Command)
    requires s.mail.Valid() && s.cursor == -1 && s.out.Valid() && s.inp.Valid() && ExecuteCommand(users, s, c).Some?
    ensures var x := ExecuteCommand(users, s, c).value; Landing(Next(x.conn.(parser := Init()), x.stm))
  {
    hide Exec, ReadList;
    if s.mail.phase != CLOSED {
      ExecKeepsValid(users, s.mail, c);
      var t := s.(mail := Exec(users, s.mail, c).0);
      var clean := t.(parser := Init());
      ListIgnoresParser(t);
      if ReadList(clean).Some? {
        ReadListOk(clean);
      }
    }
  }

  lemma {:induction false} ListIgnoresParser(s: Conn)
    requires s.mail.Valid() && -1 <= s.cursor <= s.mail.cant
    ensures ReadList(s.(parser := Init()))
         == match ReadList(s) { case None => None case Some(x) => Some(Next(x.conn.(parser := Init()), x.stm)) }
  {
    hide Dec, ListHeader, ListLine;
  }

  lemma {:induction false} ParseOk(users: set<(string, string)>, s: Conn)
    requires s.mail.Valid() && s.cursor == -1 && s.out.Valid() && s.inp.Valid() && s.parser.Valid()
    requires !s.parser.finished
    requires ParseCommand(users, s).Some?
    ensures Landing(ParseCommand(users, s).value)
  {
    hide ExecuteCommand, PState.Consume;
    if s.inp.CanRead() {
      var (p, rest) := s.parser.Consume(s.inp.pending);
      var t := s.(parser := p, inp := s.inp.Take(|s.inp.pending| - |rest|));
      if p.finished {
        ExecuteOk(users, t, p.Result());
      }
    }
  }

  lemma {:induction false} ReadCommandOk(users: set<(string, string)>, s: Conn, data: Option<string>)
    requires s.Ok() && s.cursor == -1 && (data.Some? ==> |data.value| <= s.inp.Room())
    ensures var x := ReadCommand(users, s, data); x.Some? ==> Landing(x.value)
  {
    hide ParseCommand;
    var t := if data.Some? then s.(inp := s.inp.Append(data.value)) else s;
    if ParseCommand(users, t).Some? {
      ParseOk(users, t);
    }
  }

  lemma {:induction false} WriteCommandOk(users: set<(string, string)>, s: Conn, n: nat)
    requires s.Ok() && s.cursor == -1 && n <= |s.out.pending|
    ensures var x := WriteCommand(users, s, n); x.Some? ==> Landing(x.value)
  {
    hide ParseCommand;
    var t := s.(out := s.out.Take(n));
    if ParseCommand(users, t).Some? {
      ParseOk(users, t);
    }
  }

  lemma {:induction false} WriteListOk(s: Conn, n: nat)
    requires s.Ok() && s.stm == WRITE_LIST && n <= |s.out.pending|
    ensures var x := WriteList(s, n); x.Some? ==> Landing(x.value)
  {
    hide ReadList;
    var t := s.(out := s.out.Take(n));
    if ReadList(t).Some? {
      ReadListOk(t);
    }
  }

  lemma {:induction false} ReadFileOk(s: Conn, k: nat)
    requires Landing(Next(s, WRITE_FILE)) && s.cursor == -1
    ensures var x := ReadFile(s, k); x.Some? ==> Landing(x.value)
  {
    hide Encode, CStr, After, Conn.Chunk, Conn.Unread, Buf.PutAll, Buf.Printed, PState.Valid, Mail.Valid;
  }

  lemma {:induction false} WriteFileOk(s: Conn, n: nat, k: nat)
    requires s.Ok() && s.stm == WRITE_FILE && n <= |s.out.pending|
    ensures var x := WriteFile(s, n, k); x.Some? ==> Landing(x.value)
  {
    hide ReadFile, PState.Valid, Mail.Valid;
    ReadFileOk(if s.out.CanRead() then s.(out := s.out.Take(n)) else s, k);
  }

  lemma {:induction false} StepKeepsOk(users: set<(string, string)>, s: Conn, e: Event)
    requires s.Ok() && Enabled(s, e)
    ensures var r := Step(users, s, e); r.Going? ==> r.conn.Ok()
  {
    hide ReadCommand, WriteCommand, WriteFile, WriteList, Jump, Landing;
    if e.Send? {
      match s.stm {
        case WRITE => WriteCommandOk(users, s, e.n);
        case WRITE_FILE => WriteFileOk(s, e.n, e.k);
        case WRITE_LIST => WriteListOk(s, e.n);
        case _ =>
      }
    } else if s.stm == READ {
      ReadCommandOk(users, s, if e.Recv? then Some(e.data) else None);
    }
    forall x | Landing(x) ensures Jump(x.conn, x.stm).Ok() {
      JumpOk(x);
    }
  }

  // ----- replies fit an empty buffer -----

  lemma {:induction false} ShortNumbers(m: Mail)
    requires m.Valid()
    ensures forall i :: 0 <= i < m.cant ==> |Dec(m.files[i].id)| <= 11
    ensures forall i :: 0 <= i < MAX_EMAILS ==> |Dec(m.files[i].size)| <= 11
  {
    hide Dec;
    forall i | 0 <= i < m.cant ensures |Dec(m.files[i].id)| <= 11 {
      DecInt32Length(m.files[i].id);
      assert ToInt32(m.files[i].id) == m.files[i].id;
    }
    forall i | 0 <= i < MAX_EMAILS ensures |Dec(m.files[i].size)| <= 11 {
      DecInt32Length(m.files[i].size);
      assert ToInt32(m.files[i].size) == m.files[i].size;
    }
  }

  lemma {:induction false} SmallCount(n: nat)
    requires n <= MAX_EMAILS
    ensures |Dec(n)| <= 11
  {
    hide Dec;
    DecInt32Length(n);
    assert ToInt32(n) == n;
  }

  lemma {:induction false} ReplyIsShort(users: set<(string, string)>, m: Mail, c: Command)
    requires m.Valid() && m.phase != CLOSED
    ensures var r := Exec(users, m, c).1;
            (r.Line? ==> |r.text| < 200) && (r.FileBody? ==> |r.status| < 200)
  {
    hide Dec;
    ShortNumbers(m);
    DecInt32Length(m.activeCant);
    DecInt32Length(m.activeSize);
    if m.phase == TRANSACTION {
      if c.keyword == QUIT {
        QuitReplyIsShort(m);
      } else if c.keyword == RSET {
        RsetReplyIsShort(m);
      }
    }
  }

  lemma {:induction false} QuitReplyIsShort(m: Mail)
    requires m.Valid()
    ensures ExecQuit(m).1.Line? && |ExecQuit(m).1.text| < 200
  {
    hide Dec, SweepFrom;
    SweepKeepsValid(m.store, m.name, m.files, 0, m.cant, m.cant, true);
    var s := SweepFrom(m.store, m.name, m.files, 0, m.cant, m.cant, true);
    SmallCount(s.cant);
  }

  lemma {:induction false} RsetReplyIsShort(m: Mail)
    requires m.Valid()
    ensures ExecRset(m).1.Line? && |ExecRset(m).1.text| < 200
  {
    hide Dec;
    DecInt32Length(ExecRset(m).0.activeCant);
    DecInt32Length(ExecRset(m).0.activeSize);
  }

  lemma {:induction false} ListIsShort(m: Mail)
    requires m.Valid()
    ensures |ListHeader(Count(m.files[..m.cant]))| < 200
    ensures forall i :: 0 <= i < m.cant ==> |ListLine(m.files[i])| < 200
  {
    hide Dec;
    CountBound(m.files[..m.cant]);
    SmallCount(Count(m.files[..m.cant]));
    ShortNumbers(m);
  }

  // ----- the invariant -----

  ghost predicate Empty(b: Buf) {
    b == Buf(0, "", BUFFER_SIZE)
  }

  /** State and interest agree, and the buffers are as that state needs them. */
  ghost predicate Settled(s: Conn) {
    && s.Ok() && s.out.cap == s.inp.cap == BUFFER_SIZE
    && (s.stm == WRITE || s.stm == WRITE_FILE || s.stm == WRITE_LIST ==> s.interest == OP_WRITE)
    && (s.stm == READ ==> s.interest == OP_READ && Empty(s.out))
    && (s.stm == CLOSE_STATE ==> s.interest == OP_NOOP && s.out.pending == s.inp.pending == "")
    && s.stm != ERROR_STATE
    && (s.stm == WRITE_LIST <==> s.cursor != -1)
    && (s.stm == WRITE_LIST || s.stm == WRITE_FILE ==> s.mail.phase == TRANSACTION)
    && (s.mail.phase == CLOSED ==> s.stm == WRITE || s.stm == CLOSE_STATE)
    && (s.stm == WRITE_FILE && s.done ==> s.out.CanWrite() && s.file.None?)
    && (s.stm != WRITE_FILE ==> s.file.None?)
  }

  /** No event but a failing one is left: the next event the selector delivers aborts the server. */
  ghost predicate Doomed(users: set<(string, string)>, s: Conn) {
    && s.Ok() && s.interest == OP_WRITE && forall e :: Enabled(s, e) ==> Step(users, s, e) == Aborted
  }

  /** This event calls `pop3ReadFile`: nothing was left to send, or a short send came out of a full buffer. */
  predicate ReadsFile(s: Conn, e: Event) {
    && e.Send? && s.stm == WRITE_FILE && !s.done
    && (s.out.pending == "" || (s.out.Room() <= 0 && e.n < |s.out.pending|))
  }

  /** It finds a chunk of the file to encode. */
  predicate ReadsChunk(s: Conn, e: Event) {
    ReadsFile(s, e) && s.Unread() != ""
  }

  /** It finds the end of the file, and no room for the terminator: the assert of `buffer_write_adv` fails. */
  predicate Aborts(s: Conn, e: Event) {
    ReadsFile(s, e) && s.Unread() == "" && s.out.pending != ""
  }

  /** The encoding that the event has for the buffer. */
  function Offered(s: Conn, e: Event): string {
    if ReadsChunk(s, e) then Encode(s.newLine, false, CStr(s.Chunk(e.k))) else ""
  }

  /** A chunk loses bytes: its encoding is longer than the buffer, or is read behind a short send from a full one. */
  predicate Overfull(s: Conn, e: Event) {
    if s.out.pending == "" then |Offered(s, e)| > BUFFER_SIZE else Offered(s, e) != ""
  }

  predicate Fits(s: Conn, e: Event) {
    !Aborts(s, e) && !Overfull(s, e)
  }

  /** There is room behind the file chunk being sent. */
  predicate Roomy(s: Conn) {
    s.stm == WRITE_FILE ==> s.out.CanWrite()
  }

  /** The chunk that this event may read is shorter than half the buffer. */
  predicate SmallChunk(s: Conn, e: Event) {
    e.Send? ==> 2 * |s.Chunk(e.k)| < BUFFER_SIZE
  }

  /** The reply is drained while input is pending that is not a complete command, or that follows a QUIT. */
  predicate Strands(s: Conn, e: Event)
    requires s.parser.Valid()
  {
    && e.Send? && s.stm == WRITE && e.n == |s.out.pending| && s.inp.CanRead()
    && (s.mail.phase == CLOSED || !s.parser.Consume(s.inp.pending).0.finished)
  }

  lemma {:induction false} InitialSettled(store: Store)
    requires store.Valid()
    ensures Settled(InitialConn(store))
  {
  }

  /** A command executed on an empty buffer puts its reply there, and the machine into a writing state. */
  lemma {:induction false} ExecuteSettles(users: set<(string, string)>, s: Conn, c: Command)
    requires s.mail.Valid() && s.mail.phase != CLOSED && s.cursor == -1 && Empty(s.out) && s.file.None?
    ensures var x := ExecuteCommand(users, s, c);
            && x.Some? && x.value.stm in {WRITE, WRITE_FILE, WRITE_LIST}
            && x.value.conn.out.Valid() && x.value.conn.out.cap == BUFFER_SIZE && x.value.conn.out.CanWrite()
            && x.value.conn.mail.Valid() && x.value.conn.inp == s.inp && x.value.conn.file.None?
            && (x.value.stm == WRITE_LIST ==> x.value.conn.cursor == 0)
            && (x.value.stm != WRITE_LIST ==> x.value.conn.cursor == -1)
            && (x.value.stm != WRITE ==> x.value.conn.mail.phase == TRANSACTION)
            && (x.value.stm == WRITE_FILE ==> !x.value.conn.done)
  {
    hide Exec, ListHeader;
    ExecKeepsValid(users, s.mail, c);
    ReplyIsShort(users, s.mail, c);
    ListIsShort(Exec(users, s.mail, c).0);
  }

  /** Reading the listing on settles again. */
  lemma {:induction false} ReadListSettles(s: Conn)
    requires s.mail.Valid() && 0 <= s.cursor <= s.mail.cant && Empty(s.out)
    ensures var x := ReadList(s);
            && x.Some? && x.value.stm in {WRITE, WRITE_LIST} && x.value.conn.interest == OP_WRITE
            && x.value.conn.out.Valid() && x.value.conn.out.cap == BUFFER_SIZE
            && x.value.conn == s.(cursor := x.value.conn.cursor, out := x.value.conn.out, interest := OP_WRITE)
            && (x.value.stm == WRITE_LIST ==> s.cursor < x.value.conn.cursor <= s.mail.cant)
            && (x.value.stm == WRITE ==> x.value.conn.cursor == -1)
  {
    hide ListLine;
    ListIsShort(s.mail);
  }

  lemma {:induction false} ParseSettles(users: set<(string, string)>, s: Conn)
    requires s.Ok() && s.cursor == -1 && s.out.cap == s.inp.cap == BUFFER_SIZE && Empty(s.out) && s.file.None?
    requires s.mail.phase != CLOSED && s.inp.CanRead()
    ensures var x := ParseCommand(users, s);
            var fin := s.parser.Consume(s.inp.pending).0.finished;
            && x.Some? && x.value.conn.inp.cap == BUFFER_SIZE
            && (fin ==> x.value.stm in {WRITE, WRITE_FILE, WRITE_LIST} && x.value.conn.out.CanWrite()
                        && Settled(x.value.conn.(stm := x.value.stm)))
            && (!fin ==>
                  x.value.stm == READ && x.value.conn == s.(parser := x.value.conn.parser, inp := x.value.conn.inp))
  {
    hide ExecuteCommand, PState.Consume;
    var (p, rest) := s.parser.Consume(s.inp.pending);
    var t := s.(parser := p, inp := s.inp.Take(|s.inp.pending| - |rest|));
    if p.finished {
      ExecuteSettles(users, t, p.Result());
    }
    ParseOk(users, s);
  }

  /** A read that leaves something in the input buffer is a step of the parser. */
  lemma {:induction false} ReadingParses(users: set<(string, string)>, s: Conn, e: Event)
    requires Settled(s) && Enabled(s, e) && s.stm == READ
    requires var t := if e.Recv? then s.(inp := s.inp.Append(e.data)) else s; t.inp.CanRead()
    ensures var t := if e.Recv? then s.(inp := s.inp.Append(e.data)) else s;
            var x := ParseCommand(users, t);
            x.Some? && Step(users, s, e) == Going(x.value.conn.(stm := x.value.stm), "")
  {
    hide ParseCommand, PState.Consume;
    var t := if e.Recv? then s.(inp := s.inp.Append(e.data)) else s;
    ParseSettles(users, t);
    var x := ParseCommand(users, t).value;
    if x.stm == READ {
      assert Step(users, s, e) == Going(x.conn, "");
    } else {
      assert Step(users, s, e) == Going(x.conn.(stm := x.stm), "");
    }
  }

  lemma {:induction false} ReadingSettles(users: set<(string, string)>, s: Conn, e: Event)
    requires Settled(s) && Enabled(s, e) && s.stm == READ
    ensures var r := Step(users, s, e); r.Going? && Settled(r.conn) && Roomy(r.conn)
  {
    hide ParseCommand, PState.Consume;
    StepKeepsOk(users, s, e);
    var t := if e.Recv? then s.(inp := s.inp.Append(e.data)) else s;
    if t.inp.CanRead() {
      ParseSettles(users, t);
      ReadingParses(users, s, e);
    } else {
      ParseNothing(users, t);
    }
  }

  lemma {:induction false} ParseNothing(users: set<(string, string)>, s: Conn)
    requires s.mail.Valid() && s.cursor == -1 && s.parser.Valid() && !s.inp.CanRead()
    ensures ParseCommand(users, s) == Some(Next(s.(parser := Init(), interest := OP_READ), READ))
  {
  }

  /** What `pop3ReadFile` leaves: the terminator, an abort for want of room, or a chunk as far as there is room. */
  lemma {:induction false} ReadFileLeaves(s: Conn, k: nat)
    requires s.out.Valid() && s.out.cap == BUFFER_SIZE && (s.out.pending == "" || s.out.Room() == 0)
    ensures var x := ReadFile(s, k);
            && (x.None? <==> s.Unread() == "" && s.out.pending != "")
            && (x.Some? ==>
                  var t := x.value.conn;
                  && x.value.stm == WRITE_FILE && t.interest == OP_WRITE && t.out.Valid() && t.out.cap == BUFFER_SIZE
                  && t == s.(out := t.out, newLine := t.newLine, file := t.file, done := t.done, interest := OP_WRITE)
                  && (s.Unread() == "" ==> t.done && t.file.None? && t.out.CanWrite())
                  && (s.Unread() != "" ==> t.done == s.done)
                  && (s.Unread() != "" && s.out.pending == ""
                      && |Encode(s.newLine, false, CStr(s.Chunk(k)))| < BUFFER_SIZE
                      ==> t.out.CanWrite()))
  {
    hide Encode, Buf.PutAll, CStr, Conn.Chunk, Conn.Unread;
    PutAllKeepsPrefix(s.out, Encode(s.newLine, false, CStr(s.Chunk(k))));
  }

  lemma {:induction false} WriteFileSettles(s: Conn, n: nat, k: nat)
    requires Settled(s) && s.stm == WRITE_FILE && n <= |s.out.pending|
    ensures var x, e := WriteFile(s, n, k), Send(n, k);
            && (x.None? <==> Aborts(s, e))
            && (x.Some? ==>
                  var t := x.value.conn.(stm := x.value.stm);
                  && t.stm in {WRITE_FILE, READ} && Settled(t)
                  && (s.out.CanWrite() && |Offered(s, e)| < BUFFER_SIZE ==> Roomy(t)))
  {
    hide Encode, CStr, Conn.Chunk, ReadFile, Landing;
    WriteFileOk(s, n, k);
    if WriteFile(s, n, k).Some? {
      LandingOk(WriteFile(s, n, k).value);
    }
    if ReadsFile(s, Send(n, k)) {
      ReadFileLeaves(if s.out.CanRead() then s.(out := s.out.Take(n)) else s, k);
    }
  }

  lemma {:induction false} LandingOk(x: Next)
    requires Landing(x)
    ensures x.conn.(stm := x.stm).Ok()
  {
  }

  /**
   * Sending a file settles again, or aborts the server: exactly a short send from a full buffer at the end of the file.
   */
  lemma {:induction false} FileSettles(users: set<(string, string)>, s: Conn, e: Event)
    requires Settled(s) && Enabled(s, e) && s.stm == WRITE_FILE
    ensures var r := Step(users, s, e);
            && (r == Aborted <==> Aborts(s, e))
            && (r.Going? ==> Settled(r.conn) && r.conn.stm in {WRITE_FILE, READ})
            && (r.Going? && s.out.CanWrite() && |Offered(s, e)| < BUFFER_SIZE ==> Roomy(r.conn))
  {
    hide WriteFile, Aborts, Offered, Roomy;
    assert e.Send? && e == Send(e.n, e.k);
    WriteFileSettles(s, e.n, e.k);
    hide Settled;
  }

  lemma {:induction false} ListSettles(users: set<(string, string)>, s: Conn, e: Event)
    requires Settled(s) && Enabled(s, e) && s.stm == WRITE_LIST
    ensures var r := Step(users, s, e); r.Going? && Settled(r.conn) && Roomy(r.conn)
  {
    hide ReadList;
    StepKeepsOk(users, s, e);
    var t := s.(out := s.out.Take(e.n));
    if !t.out.CanRead() {
      ReadListSettles(t);
    }
  }

  /** A reply drained over waiting input is a step of the parser, unless the session is closed. */
  lemma {:induction false} WritingParses(users: set<(string, string)>, s: Conn, e: Event)
    requires Settled(s) && Enabled(s, e) && s.stm == WRITE && s.mail.phase != CLOSED
    requires !s.out.Take(e.n).CanRead() && s.inp.CanRead()
    ensures var x := ParseCommand(users, s.(out := s.out.Take(e.n)));
            x.Some? && Step(users, s, e) == Going(x.value.conn.(stm := x.value.stm), s.out.pending[..e.n])
  {
    hide ParseCommand, PState.Consume;
    ParseSettles(users, s.(out := s.out.Take(e.n)));
  }

  lemma {:induction false} StrandingDooms(users: set<(string, string)>, s: Conn, e: Event)
    requires Settled(s) && Enabled(s, e) && Strands(s, e)
    ensures var r := Step(users, s, e); r.Going? && Doomed(users, r.conn) && r.conn.stm in {READ, ERROR_STATE}
  {
    hide ParseCommand, PState.Consume;
    StepKeepsOk(users, s, e);
    var t := s.(out := s.out.Take(e.n));
    assert !t.out.CanRead();
    if s.mail.phase != CLOSED {
      ParseSettles(users, t);
      WritingParses(users, s, e);
    } else {
      ParseAfterQuit(users, t);
    }
    NoHandlerDooms(users, Step(users, s, e).conn);
  }

  /** A drained reply settles exactly when it does not strand input; otherwise the server is doomed. */
  lemma {:induction false} WritingSettles(users: set<(string, string)>, s: Conn, e: Event)
    requires Settled(s) && Enabled(s, e) && s.stm == WRITE
    ensures var r := Step(users, s, e);
            && r.Going?
            && (!Strands(s, e) ==> Settled(r.conn) && Roomy(r.conn))
            && (Strands(s, e) ==> Doomed(users, r.conn) && r.conn.stm in {READ, ERROR_STATE})
  {
    hide ParseCommand, PState.Consume, Doomed;
    if Strands(s, e) {
      StrandingDooms(users, s, e);
    } else {
      StepKeepsOk(users, s, e);
      var t := s.(out := s.out.Take(e.n));
      if !t.out.CanRead() && t.inp.CanRead() {
        ParseSettles(users, t);
        WritingParses(users, s, e);
      }
    }
  }

  lemma {:induction false} NoHandlerDooms(users: set<(string, string)>, s: Conn)
    requires s.Ok() && s.interest == OP_WRITE && s.stm in {READ, ERROR_STATE}
    ensures Doomed(users, s)
  {
  }

  lemma {:induction false} ParseAfterQuit(users: set<(string, string)>, s: Conn)
    requires s.Ok() && s.cursor == -1 && s.mail.phase == CLOSED && s.inp.CanRead() && s.interest == OP_WRITE
    ensures var x := ParseCommand(users, s);
            && x.Some? && x.value.stm in {READ, ERROR_STATE} && x.value.conn.interest == OP_WRITE
            && x.value.conn.out == s.out && x.value.conn.stm == s.stm
  {
    hide PState.Consume;
  }

  /**
   * An event aborts the server if and only if it is a short send from a full buffer at the end of a file.  Otherwise
   * state and interest agree after it, if and only if no reply is drained over input that is not a complete command
   * or that follows a QUIT; after such an event every next one aborts.
   */
  lemma {:induction false} StateAndInterestAgree(users: set<(string, string)>, s: Conn, e: Event)
    requires Settled(s) && Enabled(s, e)
    ensures var r := Step(users, s, e);
            && (r == Aborted <==> Aborts(s, e))
            && (r.Going? ==> (Settled(r.conn) <==> !Strands(s, e)) && (Doomed(users, r.conn) <==> Strands(s, e)))
  {
    SettledOk(s);
    StepKeepsOk(users, s, e);
    hide *;
    match s.stm {
      case READ => ReadingSettles(users, s, e);
      case WRITE => WritingSettles(users, s, e);
      case WRITE_FILE => FileSettles(users, s, e);
      case WRITE_LIST => ListSettles(users, s, e);
      case _ => NothingHappens(s, e);
    }
    NotStranded(s, e);
    var r := Step(users, s, e);
    if r.Going? && Settled(r.conn) {
      SettledIsNotDoomed(users, r.conn);
    }
  }

  /**
   * Where chunks stay below half the buffer, nothing aborts and nothing is lost, from any state with room to the next.
   */
  lemma {:induction false} SmallChunksFit(users: set<(string, string)>, s: Conn, e: Event)
    requires Settled(s) && Enabled(s, e) && Roomy(s) && SmallChunk(s, e)
    ensures Fits(s, e)
    ensures var r := Step(users, s, e); r.Going? && Roomy(r.conn)
  {
    hide Step, Encode, Conn.Chunk;
    if e.Send? {
      EncodeLength(s.newLine, false, CStr(s.Chunk(e.k)));
    }
    NothingHappens(s, e);
    match s.stm {
      case READ => ReadingSettles(users, s, e);
      case WRITE => WritingSettles(users, s, e);
      case WRITE_FILE => FileSettles(users, s, e);
      case WRITE_LIST => ListSettles(users, s, e);
    }
  }

  lemma {:induction false} SettledOk(s: Conn)
    requires Settled(s)
    ensures s.Ok() && s.parser.Valid()
  {
  }

  lemma {:induction false} NothingHappens(s: Conn, e: Event)
    requires Settled(s) && Enabled(s, e)
    ensures s.stm in {READ, WRITE, WRITE_FILE, WRITE_LIST} && s.parser.Valid()
  {
  }

  lemma {:induction false} NotStranded(s: Conn, e: Event)
    requires s.parser.Valid()
    ensures s.stm != WRITE ==> !Strands(s, e)
    ensures s.stm != WRITE_FILE ==> !Aborts(s, e)
  {
  }

  lemma {:induction false} GoesOn(users: set<(string, string)>, s: Conn, e: Event)
    requires s.Ok() && Enabled(s, e) && Step(users, s, e).Going?
    ensures !Doomed(users, s)
  {
  }

  lemma {:induction false} SettledIsNotDoomed(users: set<(string, string)>, s: Conn)
    requires Settled(s)
    ensures !Doomed(users, s)
  {
    hide Step;
    var e := Send(|s.out.pending|, 0);
    if s.interest == OP_WRITE {
      assert Enabled(s, e) && s.stm in {WRITE, WRITE_FILE, WRITE_LIST};
      match s.stm {
        case WRITE => WritingSettles(users, s, e);
        case WRITE_FILE => FileSettles(users, s, e);
        case WRITE_LIST => ListSettles(users, s, e);
      }
      GoesOn(users, s, e);
    }
  }
}
