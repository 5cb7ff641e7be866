/** Whatever the scheduling, the bytes a client gets are the replies of the reference server to the bytes it sent. */
module SessionRuns {
  import opened Text
  import opened Buffers
  import opened Commands
  import opened Parsers
  import opened Maildrop
  import opened DotStuffing
  import opened Session
  import opened SessionSafety
  import opened Reference
  import opened Sending
  import opened Hearing
  import MaildropRuns

  // ----- what a connection still owes its client -----

  /** The rest of the reply in progress, if the rest of its file is read in these pieces. */
  function Rest(s: Conn, cur: Option<seq<string>>): string
    requires s.mail.Valid()
  {
    match s.stm
    case WRITE_LIST => if s.cursor >= 0 then ListText(s.mail.files, s.mail.cant, s.cursor) else ""
    case WRITE_FILE => if s.done then "" else BodyText(s.newLine, s.Unread(), cur) + FINAL
    case _ => ""
  }

  /** `newLine` once the reply in progress is complete. */
  function NewLineAfter(s: Conn, cur: Option<seq<string>>): bool {
    if s.stm == WRITE_FILE && !s.done then FlagText(s.newLine, s.Unread(), cur) else s.newLine
  }

  /** The buffer and the rest of the reply in progress. */
  function Owed(s: Conn, cur: Option<seq<string>>): string
    requires s.mail.Valid()
  {
    s.out.pending + Rest(s, cur)
  }

  /** These are pieces of what is left of the file in progress. */
  predicate Pieces(s: Conn, cur: Option<seq<string>>) {
    cur.Some? && s.stm == WRITE_FILE && !s.done ==> Flatten(cur.value) == s.Unread()
  }

  /** The pieces before the event, given those after it. */
  function PiecesBefore(s: Conn, e: Event, cur: Option<seq<string>>): (before: Option<seq<string>>)
    ensures before.None? <==> cur.None?
  {
    if !ReadsFile(s, e) || cur.None? then cur
    else if ReadsChunk(s, e) then Some([s.Chunk(e.k)] + cur.value)
    else Some([])
  }

  /** The chunk read, if any, has no NUL and does not end between a CR and its LF. */
  predicate Clean(s: Conn, e: Event) {
    ReadsChunk(s, e) ==>
      var chunk := s.Chunk(e.k);
      var rest := s.Unread()[|chunk|..];
      '\0' !in chunk && !(chunk != "" && chunk[|chunk| - 1] == '\r' && rest != "" && rest[0] == '\n')
  }

  /** An event on which nothing is lost. */
  ghost predicate Good(s: Conn, e: Event)
    requires s.parser.Valid()
  {
    Fits(s, e) && !Strands(s, e)
  }

  // ----- one command -----

  /** The connection x has been given the whole answer, and will have its `newLine`. */
  ghost predicate Answers(x: Option<Next>, cur: Option<seq<string>>, a: (Mail, bool, string)) {
    && x.Some? && x.value.conn.mail.Valid()
    && var t := x.value.conn.(stm := x.value.stm);
       t.mail == a.0 && NewLineAfter(t, cur) == a.1 && Owed(t, cur) == a.2
  }

  lemma {:induction false} LineOwed(s: Conn, mail: Mail, text: string, cur: Option<seq<string>>)
    requires Empty(s.out) && mail.Valid() && |text| < BUFFER_SIZE
    ensures WriteToClient(s.(mail := mail), text) == Some(s.(mail := mail, out := Buf(0, text, BUFFER_SIZE)))
    ensures Answers(Some(Next(s.(mail := mail, out := Buf(0, text, BUFFER_SIZE)), WRITE)), cur, (mail, s.newLine, text))
  {
    hide Buf.Printed;
    EmptyTakes(s.out, text);
    assert text + "" == text;
  }

  lemma {:induction false} ListingOwed(s: Conn, cur: Option<seq<string>>)
    requires Empty(s.out) && s.mail.Valid() && s.cursor == -1
    ensures Answers(ReadList(s), cur,
                    (s.mail, s.newLine,
                     ListHeader(Count(s.mail.files[..s.mail.cant])) + ListText(s.mail.files, s.mail.cant, 0)))
  {
    hide Buf.Printed, ListHeader, ListText;
    ListIsShort(s.mail);
    EmptyTakes(s.out, ListHeader(Count(s.mail.files[..s.mail.cant])));
  }

  lemma {:induction false} FileOwed(s: Conn, status: string, file: string, cur: Option<seq<string>>)
    requires Empty(s.out) && s.mail.Valid() && |status| < BUFFER_SIZE && s.file.None?
    ensures var t := s.(out := Buf(0, status, BUFFER_SIZE));
            var body := s.mail.store.Content(s.mail.name, file);
            && WriteToClient(s, status) == Some(t)
            && Answers(Some(Next(t.(active := file, done := false), WRITE_FILE)), cur,
                       (s.mail, FlagText(s.newLine, body, cur), status + (BodyText(s.newLine, body, cur) + FINAL)))
  {
    hide Buf.Printed, BodyText, FlagText;
    EmptyTakes(s.out, status);
  }

  /** Executing a command puts the reference's reply into the buffer and what is still to be read. */
  lemma {:induction false} ExecuteAnswers(users: set<(string, string)>, s: Conn, c: Command, cur: Option<seq<string>>)
    requires s.mail.Valid() && s.mail.phase != CLOSED && s.cursor == -1 && Empty(s.out) && s.file.None?
    ensures Answers(ExecuteCommand(users, s, c), cur, AnswerIn(Choice(users, cur), s.mail, s.newLine, c))
  {
    hide Exec, ListHeader, BodyText, FlagText, ListText, Answers, ReadList, WriteToClient;
    ExecKeepsValid(users, s.mail, c);
    ReplyIsShort(users, s.mail, c);
    var (mail, reply) := Exec(users, s.mail, c);
    match reply {
      case Line(text) => LineOwed(s, mail, text, cur);
      case Listing => ListingOwed(s.(mail := mail), cur);
      case FileBody(status, file) => FileOwed(s.(mail := mail), status, file, cur);
    }
  }

  // ----- one event -----

  /** What the event has sent and the connection then owes is what it owed, and the answer to the command executed. */
  ghost predicate Settles(users: set<(string, string)>, s: Conn, e: Event, r: Outcome, cur: Option<seq<string>>)
    requires s.Ok()
  {
    && r.Going? && r.conn.mail.Valid()
    && var before, cmds := PiecesBefore(s, e, cur), Executed(s, e);
       if cmds == [] then
         && r.conn.mail == s.mail && r.sent + Owed(r.conn, cur) == Owed(s, before)
         && NewLineAfter(r.conn, cur) == NewLineAfter(s, before)
       else
         && s.mail.phase != CLOSED
         && var a := AnswerIn(Choice(users, cur), s.mail, NewLineAfter(s, before), cmds[0]);
            && r.conn.mail == a.0 && r.sent + Owed(r.conn, cur) == Owed(s, before) + a.2
            && NewLineAfter(r.conn, cur) == a.1
  }

  lemma {:induction false} FedSettles(users: set<(string, string)>, s: Conn, e: Event, cur: Option<seq<string>>)
    requires Settled(s) && Enabled(s, e) && s.Ok() && !Strands(s, e) && Fed(s, e) != ""
    ensures Settles(users, s, e, Step(users, s, e), cur)
  {
    hide Step, ParseCommand, PState.Consume, Settled, Strands, Exec, AnswerIn, FedConn, Fed;
    Feeds(users, s, e);
    FedBefore(s, e, cur);
    var t := FedConn(s, e);
    ParseAnswers(users, t, cur);
    var x := ParseCommand(users, t).value;
    SameOwed(x.conn, x.stm, cur);
    assert s.out.pending + "" == s.out.pending;
  }

  /** A connection that feeds the parser has no file or listing in progress, and an empty buffer if it reads. */
  lemma {:induction false} FedBefore(s: Conn, e: Event, cur: Option<seq<string>>)
    requires Settled(s) && s.mail.Valid() && s.stm in {READ, WRITE}
    ensures PiecesBefore(s, e, cur) == cur && NewLineAfter(s, cur) == s.newLine && Owed(s, cur) == s.out.pending
  {
    assert s.out.pending + "" == s.out.pending;
  }

  lemma {:induction false} SameOwed(s: Conn, st: Stm, cur: Option<seq<string>>)
    requires s.mail.Valid()
    ensures Owed(s.(stm := st), cur) == s.out.pending + Rest(s.(stm := st), cur)
  {
  }

  lemma {:induction false} ParseAnswers(users: set<(string, string)>, s: Conn, cur: Option<seq<string>>)
    requires s.Ok() && s.cursor == -1 && Empty(s.out) && s.inp.cap == BUFFER_SIZE && s.file.None?
    requires s.mail.phase != CLOSED
    requires s.inp.CanRead()
    ensures var x, p := ParseCommand(users, s), s.parser.Consume(s.inp.pending).0;
            && (p.finished ==> Answers(x, cur, AnswerIn(Choice(users, cur), s.mail, s.newLine, p.Result())))
            && (!p.finished ==> Answers(x, cur, (s.mail, s.newLine, "")))
  {
    hide ExecuteCommand, PState.Consume, AnswerIn, BodyText, FlagText, ListText;
    var (p, rest) := s.parser.Consume(s.inp.pending);
    var t := s.(parser := p, inp := s.inp.Take(|s.inp.pending| - |rest|));
    if p.finished {
      ExecuteAnswers(users, t, p.Result(), cur);
    } else {
      assert "" + "" == "";
    }
  }

  lemma {:induction false} WaitingSettles(users: set<(string, string)>, s: Conn, e: Event, cur: Option<seq<string>>)
    requires Settled(s) && Enabled(s, e) && s.Ok() && s.stm in {READ, WRITE} && Fed(s, e) == ""
    ensures Settles(users, s, e, Step(users, s, e), cur)
  {
    hide Step, PState.Consume, Fed;
    var r := Step(users, s, e);
    FedBefore(s, e, cur);
    if s.stm == READ {
      NoInput(users, s, e);
      assert "" + (s.out.pending + "") == s.out.pending;
    } else {
      StillWriting(users, s, e);
      TakeFromFuture(s.out.pending, e.n, "");
      assert s.out.pending[e.n..] + "" == s.out.pending[e.n..];
    }
  }

  /** The listing from the cursor on, with marked messages skipped. */
  lemma {:induction false} SkipListsTheSame(files: seq<FileEntry>, cant: nat, i: nat)
    requires i <= cant <= |files|
    ensures ListText(files, cant, i) == ListText(files, cant, SkipMarked(files, cant, i))
    decreases cant - i
  {
    hide ListLine;
    if i < cant && files[i].deleted {
      SkipListsTheSame(files, cant, i + 1);
      assert "" + ListText(files, cant, i + 1) == ListText(files, cant, i + 1);
    }
  }

  lemma {:induction false} ReadListIs(s: Conn)
    requires s.mail.Valid() && 0 <= s.cursor <= s.mail.cant && Empty(s.out)
    ensures var k := SkipMarked(s.mail.files, s.mail.cant, s.cursor);
            ReadList(s) == Some(
              if k == s.mail.cant
              then Next(s.(cursor := -1, out := Buf(0, ".\r\n", BUFFER_SIZE), interest := OP_WRITE), WRITE)
              else Next(s.(cursor := k + 1, out := Buf(0, ListLine(s.mail.files[k]), BUFFER_SIZE),
                           interest := OP_WRITE), WRITE_LIST))
  {
    hide ListLine, Dec, Buf.Printed, Buf.Store, SkipMarked;
    ListIsShort(s.mail);
    var k := SkipMarked(s.mail.files, s.mail.cant, s.cursor);
    if k < s.mail.cant {
      EmptyTakes(s.out, ListLine(s.mail.files[k]));
    } else {
      EmptyTakes(s.out, ".\r\n");
    }
  }

  lemma {:induction false} ListTextAt(files: seq<FileEntry>, cant: nat, k: nat)
    requires k <= cant <= |files| && (k < cant ==> !files[k].deleted)
    ensures ListText(files, cant, k) == if k == cant then ".\r\n" else ListLine(files[k]) + ListText(files, cant, k + 1)
  {
    hide ListLine;
  }

  lemma {:induction false} ReadListKeepsRest(s: Conn, cur: Option<seq<string>>)
    requires s.mail.Valid() && 0 <= s.cursor <= s.mail.cant && Empty(s.out)
    ensures var x := ReadList(s);
            && x.Some? && x.value.conn.mail == s.mail
            && Owed(x.value.conn.(stm := x.value.stm), cur) == ListText(s.mail.files, s.mail.cant, s.cursor)
  {
    hide ReadList, ListLine, ListText, SkipMarked;
    ReadListIs(s);
    var k := SkipMarked(s.mail.files, s.mail.cant, s.cursor);
    SkipListsTheSame(s.mail.files, s.mail.cant, s.cursor);
    ListTextAt(s.mail.files, s.mail.cant, k);
    assert ".\r\n" + "" == ".\r\n";
  }

  lemma {:induction false} ListingOwes(users: set<(string, string)>, s: Conn, e: Event, cur: Option<seq<string>>)
    requires Settled(s) && Enabled(s, e) && s.Ok() && s.stm == WRITE_LIST
    ensures var r := Step(users, s, e);
            && r.Going? && r.conn.mail == s.mail && r.conn.stm in {WRITE, WRITE_LIST}
            && r.sent + Owed(r.conn, cur) == Owed(s, cur)
  {
    hide ReadList, ListText, PState.Consume;
    var t := s.(out := s.out.Take(e.n));
    TakeFromFuture(s.out.pending, e.n, Rest(s, cur));
    if !t.out.CanRead() {
      ReadListSettles(t);
      ReadListKeepsRest(t, cur);
    }
  }

  lemma {:induction false} ListingSettles(users: set<(string, string)>, s: Conn, e: Event, cur: Option<seq<string>>)
    requires Settled(s) && Enabled(s, e) && s.Ok() && s.stm == WRITE_LIST
    ensures Settles(users, s, e, Step(users, s, e), cur)
  {
    hide Step, Owed, PState.Consume;
    ListingOwes(users, s, e, cur);
    ListKeepsInput(users, s, e);
    ConsumeNothing(s.parser);
    hide Settled;
  }

  lemma {:induction false} EncodeFlag(newLine: bool, afterCR: bool, s: string)
    requires afterCR ==> s == "" || s[0] != '\n'
    ensures Encode(newLine, afterCR, s) == Encode(newLine, false, s)
  {
  }

  /** The text of a file, its first piece off. */
  lemma {:induction false} BodyCons(newLine: bool, chunk: string, rest: string, cur: Option<seq<string>>)
    requires cur.Some? ==> Flatten(cur.value) == rest
    requires cur.None? ==> '\0' !in chunk
    requires cur.None? ==> !(chunk != "" && chunk[|chunk| - 1] == '\r' && rest != "" && rest[0] == '\n')
    ensures var before := if cur.None? then None else Some([chunk] + cur.value);
            var nl := After(newLine, CStr(chunk), '\n');
            && BodyText(newLine, chunk + rest, before) == Encode(newLine, false, CStr(chunk)) + BodyText(nl, rest, cur)
            && FlagText(newLine, chunk + rest, before) == FlagText(nl, rest, cur)
  {
    hide Encode;
    if cur.Some? {
      assert ([chunk] + cur.value)[1..] == cur.value;
    } else {
      EncodeConcat(newLine, false, chunk, rest);
      EncodeFlag(After(newLine, chunk, '\n'), After(false, chunk, '\r'), rest);
      AfterConcat(newLine, chunk, rest, '\n');
    }
  }

  lemma {:induction false} BodyOver(newLine: bool, cur: Option<seq<string>>)
    requires cur.None? || cur == Some([])
    ensures BodyText(newLine, "", cur) == "" && FlagText(newLine, "", cur) == newLine
  {
  }

  /** A send of a file on which nothing is lost. */
  lemma {:induction false} FileSends(users: set<(string, string)>, s: Conn, e: Event)
    requires Settled(s) && Enabled(s, e) && s.Ok() && s.stm == WRITE_FILE && Fits(s, e) && Step(users, s, e).Going?
    ensures var r := Step(users, s, e);
            var t := r.conn;
            && t.mail == s.mail && s.mail.Valid() && Executed(s, e) == []
            && t.stm in {WRITE_FILE, READ} && (t.stm == READ ==> s.done)
            && (t.done <==> s.done || (ReadsFile(s, e) && !ReadsChunk(s, e)))
            && r.sent + t.out.pending == s.out.pending + (Offered(s, e) + Ending(s, t))
            && (if ReadsChunk(s, e)
                then s.Unread() == s.Chunk(e.k) + t.Unread() && !t.done && !s.done
                     && t.newLine == After(s.newLine, CStr(s.Chunk(e.k)), '\n')
                     && Offered(s, e) == Encode(s.newLine, false, CStr(s.Chunk(e.k)))
                else Offered(s, e) == "" && t.newLine == s.newLine && (!t.done ==> t.Unread() == s.Unread())
                     && (ReadsFile(s, e) ==> s.Unread() == ""))
  {
    hide Step, Encode, Settled, Conn.Chunk, Conn.Unread, CStr;
    StepSendsFile(users, s, e);
    FileStep(users, s, e);
    KeptIsPrefix(s, e);
    FileKeepsInput(users, s, e);
    ConsumeNothing(s.parser);
  }

  lemma {:induction false} FileSettled(users: set<(string, string)>, s: Conn, e: Event, cur: Option<seq<string>>)
    requires Settled(s) && Enabled(s, e) && s.Ok() && s.stm == WRITE_FILE && Fits(s, e) && Step(users, s, e).Going?
    requires Pieces(Step(users, s, e).conn, cur) && (cur.None? ==> Clean(s, e))
    ensures Settles(users, s, e, Step(users, s, e), cur) && Pieces(s, PiecesBefore(s, e, cur))
  {
    hide Step, Encode, Settled, Enabled, BodyText, FlagText, Conn.Chunk, CStr, Conn.Unread, PState.Consume, Offered;
    hide Kept;
    hide ReadsChunk, ReadsFile, Executed, Rest, NewLineAfter, PiecesBefore, Pieces, Clean, Fits, Aborts, Overfull;
    hide Ending;
    FileSends(users, s, e);
    var r := Step(users, s, e);
    FileRests(s, e, r.conn, cur);
    OwedBefore(r.sent, r.conn.out.pending, s.out.pending, Offered(s, e), Ending(s, r.conn), Rest(r.conn, cur));
  }

  /** The rest of the reply before and after. */
  lemma {:induction false} FileRests(s: Conn, e: Event, t: Conn, cur: Option<seq<string>>)
    requires s.stm == WRITE_FILE && t.mail == s.mail && s.mail.Valid()
    requires t.stm in {WRITE_FILE, READ} && (t.stm == READ ==> s.done)
    requires t.done <==> s.done || (ReadsFile(s, e) && !ReadsChunk(s, e))
    requires if ReadsChunk(s, e)
             then s.Unread() == s.Chunk(e.k) + t.Unread() && !t.done && !s.done
                  && t.newLine == After(s.newLine, CStr(s.Chunk(e.k)), '\n')
                  && Offered(s, e) == Encode(s.newLine, false, CStr(s.Chunk(e.k)))
             else Offered(s, e) == "" && t.newLine == s.newLine && (!t.done ==> t.Unread() == s.Unread())
                  && (ReadsFile(s, e) ==> s.Unread() == "")
    requires Pieces(t, cur) && (cur.None? ==> Clean(s, e))
    ensures var before := PiecesBefore(s, e, cur);
            && Rest(s, before) == Offered(s, e) + (Ending(s, t) + Rest(t, cur))
            && NewLineAfter(t, cur) == NewLineAfter(s, before) && Pieces(s, before)
  {
    hide Encode, BodyText, FlagText, Conn.Chunk, Conn.Unread, CStr, Offered, Rest, NewLineAfter, After, Mail.Valid;
    RestOfFile(s, PiecesBefore(s, e, cur));
    if t.stm == WRITE_FILE {
      RestOfFile(t, cur);
    } else {
      NoRest(t, cur);
    }
    if ReadsChunk(s, e) {
      if cur.None? {
        CleanChunk(s, e, t.Unread());
      }
      BodyCons(s.newLine, s.Chunk(e.k), t.Unread(), cur);
      PiecesCons(s.Chunk(e.k), cur);
      Associate(Offered(s, e), BodyText(t.newLine, t.Unread(), cur), FINAL);
      NothingAhead(BodyText(t.newLine, t.Unread(), cur) + FINAL);
    } else if ReadsFile(s, e) {
      BodyOver(s.newLine, PiecesBefore(s, e, cur));
      NothingAhead(FINAL);
    } else {
      NothingAhead(Rest(t, cur));
    }
  }

  lemma {:induction false} RestOfFile(s: Conn, cur: Option<seq<string>>)
    requires s.mail.Valid() && s.stm == WRITE_FILE
    ensures Rest(s, cur) == if s.done then "" else BodyText(s.newLine, s.Unread(), cur) + FINAL
    ensures NewLineAfter(s, cur) == if s.done then s.newLine else FlagText(s.newLine, s.Unread(), cur)
  {
    hide BodyText, FlagText;
  }

  lemma {:induction false} NoRest(s: Conn, cur: Option<seq<string>>)
    requires s.mail.Valid() && s.stm == READ
    ensures Rest(s, cur) == "" && NewLineAfter(s, cur) == s.newLine
  {
  }

  lemma {:induction false} CleanChunk(s: Conn, e: Event, rest: string)
    requires ReadsChunk(s, e) && Clean(s, e) && s.Unread() == s.Chunk(e.k) + rest
    ensures var chunk := s.Chunk(e.k);
            '\0' !in chunk && !(chunk != "" && chunk[|chunk| - 1] == '\r' && rest != "" && rest[0] == '\n')
  {
    hide Conn.Chunk, Conn.Unread;
    assert s.Unread()[|s.Chunk(e.k)|..] == rest;
  }

  lemma {:induction false} PiecesCons(chunk: string, cur: Option<seq<string>>)
    ensures cur.Some? ==> Flatten([chunk] + cur.value) == chunk + Flatten(cur.value)
    ensures Flatten([]) == ""
  {
    if cur.Some? {
      assert ([chunk] + cur.value)[1..] == cur.value;
    }
  }

  lemma {:induction false} NothingAhead(x: string)
    ensures "" + x == x && x + "" == x && "" + ("" + x) == x && "" + (x + "") == x
  {
  }

  lemma {:induction false} OwedBefore(sent: string, mid: string, pending: string, enc: string, ending: string,
                                      rest: string)
    requires sent + mid == pending + (enc + ending)
    ensures sent + (mid + rest) == pending + (enc + (ending + rest))
  {
    assert sent + (mid + rest) == (sent + mid) + rest;
  }

  /** Any good event: what was sent, and is then owed, is what was owed, and the answer to the command executed. */
  lemma {:induction false} StepSettles(users: set<(string, string)>, s: Conn, e: Event, cur: Option<seq<string>>)
    requires Settled(s) && Enabled(s, e) && s.Ok() && Good(s, e) && Step(users, s, e).Going?
    requires Pieces(Step(users, s, e).conn, cur) && (cur.None? ==> Clean(s, e))
    ensures Settles(users, s, e, Step(users, s, e), cur) && Pieces(s, PiecesBefore(s, e, cur))
  {
    hide *;
    NothingHappens(s, e);
    GoodFits(s, e);
    match s.stm {
      case WRITE_LIST => ListingSettles(users, s, e, cur);
      case WRITE_FILE => FileSettled(users, s, e, cur);
      case _ =>
        if Fed(s, e) != "" {
          FedSettles(users, s, e, cur);
        } else {
          WaitingSettles(users, s, e, cur);
        }
    }
    if s.stm != WRITE_FILE {
      NoPieces(s, e, cur);
    }
  }

  lemma {:induction false} GoodFits(s: Conn, e: Event)
    requires s.parser.Valid() && Good(s, e)
    ensures Fits(s, e) && !Strands(s, e) && !Aborts(s, e)
  {
  }

  lemma {:induction false} NoPieces(s: Conn, e: Event, cur: Option<seq<string>>)
    requires s.stm != WRITE_FILE
    ensures Pieces(s, PiecesBefore(s, e, cur))
  {
  }

  // ----- whole runs -----

  /** An event, with the user table at that moment. */
  datatype Input = Input(users: set<(string, string)>, event: Event)

  /**
   * The connection after a run and the bytes sent during it; it ends early if the server aborts or an event cannot
   * happen.
   */
  function Run(s: Conn, inputs: seq<Input>): (r: (Conn, string))
    requires s.Ok()
    ensures r.0.Ok()
    decreases |inputs|
  {
    if inputs == [] || !Enabled(s, inputs[0].event) then (s, "") else
    match Step(inputs[0].users, s, inputs[0].event)
    case Aborted => (s, "")
    case Going(next, sent) =>
      StepKeepsOk(inputs[0].users, s, inputs[0].event);
      var (end, more) := Run(next, inputs[1..]);
      (end, sent + more)
  }

  /** A run in which every event can happen, and nothing is lost or stranded on it. */
  ghost predicate GoodRun(s: Conn, inputs: seq<Input>)
    requires s.Ok()
    decreases |inputs|
  {
    inputs == [] ||
    (Enabled(s, inputs[0].event) && Good(s, inputs[0].event) &&
     match Step(inputs[0].users, s, inputs[0].event)
     case Aborted => true
     case Going(next, _) => StepKeepsOk(inputs[0].users, s, inputs[0].event); GoodRun(next, inputs[1..]))
  }

  /** No chunk read on the run has a NUL or ends between a CR and its LF. */
  ghost predicate CleanRun(s: Conn, inputs: seq<Input>)
    requires s.Ok()
    decreases |inputs|
  {
    inputs == [] || !Enabled(s, inputs[0].event) ||
    (Clean(s, inputs[0].event) &&
     match Step(inputs[0].users, s, inputs[0].event)
     case Aborted => true
     case Going(next, _) => StepKeepsOk(inputs[0].users, s, inputs[0].event); CleanRun(next, inputs[1..]))
  }

  /** `data` put before the first of these streams. */
  function Onto(data: string, streams: seq<string>): (r: seq<string>)
    requires streams != []
    ensures r != []
  {
    [data + streams[0]] + streams[1..]
  }

  /** The bytes received on a run, a new stream begun wherever the server forgets a fragment. */
  function Heard(s: Conn, inputs: seq<Input>): (streams: seq<string>)
    requires s.Ok()
    ensures streams != []
    decreases |inputs|
  {
    if inputs == [] || !Enabled(s, inputs[0].event) then [""] else
    match Step(inputs[0].users, s, inputs[0].event)
    case Aborted => [""]
    case Going(next, _) =>
      StepKeepsOk(inputs[0].users, s, inputs[0].event);
      var rest := Heard(next, inputs[1..]);
      if Forgets(s, inputs[0].event) then [""] + rest else Onto(Data(inputs[0].event), rest)
  }

  ghost function CommandsHeard(streams: seq<string>): seq<Command>
    decreases |streams|
  {
    if streams == [] then [] else CommandsIn(streams[0]) + CommandsHeard(streams[1..])
  }

  /** The commands that the fragment held, the input buffer and what is still heard complete. */
  ghost function Todo(s: Conn, frag: string, streams: seq<string>): seq<Command>
    requires streams != []
  {
    CommandsIn(frag + s.inp.pending + streams[0]) + CommandsHeard(streams[1..])
  }

  lemma {:induction false} TodoNext(users: set<(string, string)>, s: Conn, e: Event, frag: string, rest: seq<string>)
    requires Settled(s) && Enabled(s, e) && s.parser.Valid() && !Strands(s, e) && Step(users, s, e).Going?
    requires Holds(s, frag) && rest != []
    ensures var streams := if Forgets(s, e) then [""] + rest else Onto(Data(e), rest);
            Todo(s, frag, streams) == Executed(s, e) + Todo(Step(users, s, e).conn, NextFrag(s, e, frag), rest)
  {
    hide *;
    SettledOk(s);
    StepHears(users, s, e, frag, rest[0]);
    TodoHeard(users, s, e, Step(users, s, e).conn, frag, rest);
  }

  lemma {:induction false} TodoHeard(users: set<(string, string)>, s: Conn, e: Event, t: Conn, frag: string,
                                     rest: seq<string>)
    requires rest != [] && s.parser.Valid() && Hears(users, s, e, t, frag, rest[0])
    ensures var streams := if Forgets(s, e) then [""] + rest else Onto(Data(e), rest);
            Todo(s, frag, streams) == Executed(s, e) + Todo(t, NextFrag(s, e, frag), rest)
  {
    hide CommandsIn, Executed, Forgets, Exec, Holds, Data, NextFrag, CommandsHeard;
    FragForgotten(s, e, frag);
    var next := CommandsIn(NextFrag(s, e, frag) + t.inp.pending + rest[0]);
    if Forgets(s, e) {
      assert ([""] + rest)[1..] == rest && "" + "" + rest[0] == rest[0];
      HeardCons(rest);
      OneBefore([], [], CommandsHeard(rest));
    } else {
      assert Onto(Data(e), rest)[1..] == rest[1..];
      OneBefore(Executed(s, e), next, CommandsHeard(rest[1..]));
    }
  }

  lemma {:induction false} OneBefore(cmds: seq<Command>, next: seq<Command>, more: seq<Command>)
    ensures (cmds + next) + more == cmds + (next + more) && [] + more == more
  {
  }

  lemma {:induction false} HeardCons(streams: seq<string>)
    requires streams != []
    ensures CommandsHeard(streams) == CommandsIn(streams[0]) + CommandsHeard(streams[1..])
  {
    hide CommandsIn;
  }

  lemma {:induction false} FragForgotten(s: Conn, e: Event, frag: string)
    requires s.parser.Valid()
    ensures Forgets(s, e) ==> NextFrag(s, e, frag) == ""
  {
  }

  /** All that is still to be sent: what is owed, and the replies to these commands. */
  function Future(s: Conn, cur: Option<seq<string>>, cmds: seq<Command>, choices: seq<Choice>, users: set<(string,
                  string)>): string
    requires s.Ok()
  {
    Owed(s, cur) + Replies(s.mail, NewLineAfter(s, cur), cmds, choices, users)
  }

  /** The choices before the event: one more if it executes a command. */
  function ChoicesBefore(s: Conn, i: Input, cur: Option<seq<string>>, choices: seq<Choice>): seq<Choice>
    requires s.parser.Valid()
  {
    if Executed(s, i.event) == [] then choices else [Choice(i.users, cur)] + choices
  }

  /** Any good event: what was sent, and will be, is what would have been sent. */
  lemma {:induction false} StepKeepsFuture(i: Input, s: Conn, cur: Option<seq<string>>, rest: seq<Command>,
                                           choices: seq<Choice>, users: set<(string, string)>)
    requires Settled(s) && Enabled(s, i.event) && s.Ok() && Good(s, i.event)
    requires Step(i.users, s, i.event).Going? ==> Pieces(Step(i.users, s, i.event).conn, cur)
    requires cur.None? ==> Clean(s, i.event)
    ensures var r, before := Step(i.users, s, i.event), PiecesBefore(s, i.event, cur);
            && r.Going? && Settled(r.conn) && r.conn.Ok() && Pieces(s, before)
            && (r.sent + Future(r.conn, cur, rest, choices, users)
                == Future(s, before, Executed(s, i.event) + rest, ChoicesBefore(s, i, cur, choices), users))
  {
    hide Step, Settled, Enabled, Good, Executed, Owed, NewLineAfter, Pieces, PiecesBefore, Clean, AnswerIn;
    StateAndInterestAgree(i.users, s, i.event);
    GoodFits(s, i.event);
    StepSettles(i.users, s, i.event, cur);
    var r, cmds := Step(i.users, s, i.event), Executed(s, i.event);
    SettledOk(r.conn);
    var more := Replies(r.conn.mail, NewLineAfter(r.conn, cur), rest, choices, users);
    Associate(r.sent, Owed(r.conn, cur), more);
    if cmds == [] {
      assert cmds + rest == rest;
    } else {
      OneExecuted(s, i.event);
      assert (cmds + rest)[1..] == rest && (cmds + rest)[0] == cmds[0];
      assert ([Choice(i.users, cur)] + choices)[1..] == choices;
      Associate(Owed(s, PiecesBefore(s, i.event, cur)),
                AnswerIn(Choice(i.users, cur), s.mail, NewLineAfter(s, PiecesBefore(s, i.event, cur)), cmds[0]).2,
                more);
    }
  }

  lemma {:induction false} OneExecuted(s: Conn, e: Event)
    requires s.parser.Valid()
    ensures |Executed(s, e)| <= 1
  {
    hide PState.Consume;
  }

  /** What is left of a file at the end of a run, read in one piece, or in one go. */
  function PiecesAtEnd(s: Conn, whole: bool): (cur: Option<seq<string>>)
    ensures Pieces(s, cur) && (cur.None? <==> whole)
  {
    if whole then None else
    assert [s.Unread()][1..] == [] && s.Unread() + Flatten([]) == s.Unread();
    Some([s.Unread()])
  }

  /** The pieces in which the file in progress is read on the run; what a run leaves of it is one more piece. */
  function PiecesOn(s: Conn, inputs: seq<Input>, whole: bool): (cur: Option<seq<string>>)
    requires s.Ok()
    ensures cur.None? <==> whole
    decreases |inputs|
  {
    if inputs == [] || !Enabled(s, inputs[0].event) then PiecesAtEnd(s, whole) else
    match Step(inputs[0].users, s, inputs[0].event)
    case Aborted => PiecesAtEnd(s, whole)
    case Going(next, _) =>
      StepKeepsOk(inputs[0].users, s, inputs[0].event);
      PiecesBefore(s, inputs[0].event, PiecesOn(next, inputs[1..], whole))
  }

  /** For each command that the run executes, in order: the user table of that moment and the pieces of its file. */
  function ChoicesOn(s: Conn, inputs: seq<Input>, whole: bool): seq<Choice>
    requires s.Ok()
    decreases |inputs|
  {
    if inputs == [] || !Enabled(s, inputs[0].event) then [] else
    match Step(inputs[0].users, s, inputs[0].event)
    case Aborted => []
    case Going(next, _) =>
      StepKeepsOk(inputs[0].users, s, inputs[0].event);
      ChoicesBefore(s, inputs[0], PiecesOn(next, inputs[1..], whole), ChoicesOn(next, inputs[1..], whole))
  }

  /** The event's command with the table of its moment. */
  function StepOf(s: Conn, i: Input): seq<MaildropRuns.Step>
    requires s.parser.Valid()
  {
    if Executed(s, i.event) == [] then [] else [MaildropRuns.Step(i.users, Executed(s, i.event)[0])]
  }

  /**
   * The commands that the run executes, each with the user table of its moment; an event that strands executes none.
   */
  function StepsOn(s: Conn, inputs: seq<Input>): seq<MaildropRuns.Step>
    requires s.Ok()
    decreases |inputs|
  {
    if inputs == [] || !Enabled(s, inputs[0].event) then [] else
    match Step(inputs[0].users, s, inputs[0].event)
    case Aborted => []
    case Going(next, _) =>
      StepKeepsOk(inputs[0].users, s, inputs[0].event);
      (if Strands(s, inputs[0].event) then [] else StepOf(s, inputs[0])) + StepsOn(next, inputs[1..])
  }

  /** Each command executed is answered under the table of the event that executes it. */
  lemma {:induction false} ChoicesFollowSteps(s: Conn, inputs: seq<Input>, whole: bool)
    requires Settled(s) && s.Ok() && GoodRun(s, inputs)
    ensures var choices, steps := ChoicesOn(s, inputs, whole), StepsOn(s, inputs);
            && |choices| == |steps|
            && forall k :: 0 <= k < |choices| ==>
                 choices[k].users == steps[k].users && (choices[k].chunks.None? <==> whole)
    decreases |inputs|
  {
    hide Step, Settled, Enabled, Good, Executed;
    if inputs != [] {
      var i := inputs[0];
      GoodFits(s, i.event);
      StepKeepsOk(i.users, s, i.event);
      StateAndInterestAgree(i.users, s, i.event);
      ChoicesFollowSteps(Step(i.users, s, i.event).conn, inputs[1..], whole);
    }
  }

  lemma {:induction false} RunKeepsFuture(users: set<(string, string)>, s: Conn, inputs: seq<Input>, frag: string,
                                          whole: bool)
      returns (frag': string)
    requires Settled(s) && s.Ok() && GoodRun(s, inputs) && Holds(s, frag) && (whole ==> CleanRun(s, inputs))
    ensures Pieces(s, PiecesOn(s, inputs, whole))
    ensures var (end, sent) := Run(s, inputs);
            && Settled(end) && Holds(end, frag')
            && (sent + Future(end, PiecesAtEnd(end, whole), CommandsIn(frag' + end.inp.pending), [], users)
                == Future(s, PiecesOn(s, inputs, whole), Todo(s, frag, Heard(s, inputs)), ChoicesOn(s, inputs, whole),
                          users))
    decreases |inputs|
  {
    hide Future, Step, Settled, Holds, Good, Clean, Pieces, PiecesBefore, Enabled, Todo, CommandsIn, ChoicesBefore;
    hide Executed, Forgets, PiecesAtEnd;
    if inputs == [] {
      frag' := frag;
      AtEnd(s, frag);
      var f := Future(s, PiecesAtEnd(s, whole), CommandsIn(frag + s.inp.pending), [], users);
      assert "" + f == f;
    } else {
      var i := inputs[0];
      GoodFits(s, i.event);
      StepKeepsOk(i.users, s, i.event);
      StateAndInterestAgree(i.users, s, i.event);
      var r := Step(i.users, s, i.event);
      StepHears(i.users, s, i.event, frag, "");
      var later, more := PiecesOn(r.conn, inputs[1..], whole), ChoicesOn(r.conn, inputs[1..], whole);
      frag' := RunKeepsFuture(users, r.conn, inputs[1..], NextFrag(s, i.event, frag), whole);
      var rest := Heard(r.conn, inputs[1..]);
      TodoNext(i.users, s, i.event, frag, rest);
      StepKeepsFuture(i, s, later, Todo(r.conn, NextFrag(s, i.event, frag), rest), more, users);
      var (end, sent) := Run(r.conn, inputs[1..]);
      Associate(r.sent, sent, Future(end, PiecesAtEnd(end, whole), CommandsIn(frag' + end.inp.pending), [], users));
    }
  }

  lemma {:induction false} AtEnd(s: Conn, frag: string)
    ensures Todo(s, frag, [""]) == CommandsIn(frag + s.inp.pending)
  {
    hide CommandsIn;
    assert frag + s.inp.pending + "" == frag + s.inp.pending;
    assert [""][1..] == [] && CommandsIn(frag + s.inp.pending) + [] == CommandsIn(frag + s.inp.pending);
  }

  /** Closed, or reading with no complete command waiting in the input buffer. */
  predicate Idle(s: Conn)
    requires s.parser.Valid()
  {
    s.stm == CLOSE_STATE || (s.stm == READ && !s.parser.Consume(s.inp.pending).0.finished)
  }

  lemma {:induction false} NothingPending(x: string)
    ensures "" + ("" + x) == x
  {
  }

  lemma {:induction false} AnswerIsNotEmpty(ch: Choice, m: Mail, newLine: bool, c: Command)
    requires m.Valid() && m.phase != CLOSED
    ensures AnswerIn(ch, m, newLine, c).2 != ""
  {
    hide Dec, BodyText, SweepFrom, Populate, ListText;
  }

  lemma {:induction false} NoRepliesIffNoCommands(m: Mail, newLine: bool, cmds: seq<Command>, users: set<(string,
                                                  string)>)
    requires m.Valid()
    ensures cmds == [] ==> Replies(m, newLine, cmds, [], users) == ""
    ensures m.phase != CLOSED ==> (Replies(m, newLine, cmds, [], users) == "" <==> cmds == [])
  {
    hide AnswerIn;
    if cmds != [] && m.phase != CLOSED {
      AnswerIsNotEmpty(Choice(users, None), m, newLine, cmds[0]);
    }
  }

  /** At rest, nothing is left to send if and only if the connection is idle. */
  lemma {:induction false} IdleHasNoFuture(users: set<(string, string)>, s: Conn, cur: Option<seq<string>>,
                                           frag: string)
    requires Settled(s) && s.Ok() && Holds(s, frag) && s.stm in {READ, CLOSE_STATE}
    ensures Future(s, cur, CommandsIn(frag + s.inp.pending), [], users) == "" <==> Idle(s)
  {
    hide PState.Consume, CommandsIn, Replies;
    var stream := frag + s.inp.pending;
    assert stream + "" == stream;
    ConsumeInput(frag, s.parser, s.inp.pending, "");
    FirstCommand(stream);
    NoRepliesIffNoCommands(s.mail, s.newLine, CommandsIn(stream), users);
    NothingPending(Replies(s.mail, s.newLine, CommandsIn(stream), [], users));
    if s.stm == CLOSE_STATE {
      ConsumeNothing(s.parser);
    }
  }

  /** Only the end of a RETR leaves the machine reading over a complete command: it is answered when more bytes come. */
  lemma {:induction false} RestFollowsFile(users: set<(string, string)>, s: Conn, e: Event)
    requires Settled(s) && Enabled(s, e) && !Strands(s, e)
    ensures var r := Step(users, s, e);
            r.Going? && r.conn.stm == READ ==>
              r.conn.Ok() && (s.stm == WRITE_FILE ==> r.conn.inp == s.inp && r.conn.parser == s.parser)
              && (s.stm != WRITE_FILE ==> Idle(r.conn))
  {
    hide *;
    SettledOk(s);
    StepKeepsOk(users, s, e);
    var r := Step(users, s, e);
    if s.stm == WRITE_FILE {
      FileKeepsInput(users, s, e);
    } else if r.Going? && r.conn.stm == READ {
      ReadingLeavesFragment(users, s, e);
      NoInputIsIdle(r.conn);
    }
  }

  lemma {:induction false} NoInputIsIdle(s: Conn)
    requires s.Ok() && s.stm == READ && s.inp.pending == ""
    ensures Idle(s)
  {
    ConsumeNothing(s.parser);
  }

  lemma {:induction false} ReadingLeavesFragment(users: set<(string, string)>, s: Conn, e: Event)
    requires Settled(s) && Enabled(s, e) && !Strands(s, e) && s.stm != WRITE_FILE
    ensures var r := Step(users, s, e); r.Going? && r.conn.stm == READ ==> r.conn.inp.pending == ""
  {
    hide ParseCommand, PState.Consume;
    NothingHappens(s, e);
    match s.stm {
      case READ =>
        var t := if e.Recv? then s.(inp := s.inp.Append(e.data)) else s;
        if t.inp.CanRead() {
          ReadingParses(users, s, e);
          ParseSettles(users, t);
          if !t.parser.Consume(t.inp.pending).0.finished {
            UnfinishedTakesAll(users, t);
          }
        } else {
          ParseNothing(users, t);
        }
      case WRITE =>
        var t := s.(out := s.out.Take(e.n));
        if !t.out.CanRead() && t.inp.CanRead() {
          WritingParses(users, s, e);
          ParseSettles(users, t);
        }
      case WRITE_LIST => ListSettles(users, s, e);
    }
  }

  lemma {:induction false} UnfinishedTakesAll(users: set<(string, string)>, s: Conn)
    requires s.Ok() && s.cursor == -1 && s.inp.CanRead() && !s.parser.Consume(s.inp.pending).0.finished
    ensures ParseCommand(users, s).Some? && ParseCommand(users, s).value.conn.inp.pending == ""
  {
    hide PState.Consume;
    ConsumeSuffix(s.parser, s.inp.pending);
  }

  lemma {:induction false} InitialFuture(store: Store, streams: seq<string>, cur: Option<seq<string>>,
                                         choices: seq<Choice>,
                                         users: set<(string, string)>)
    requires store.Valid() && streams != []
    ensures var s := InitialConn(store);
            && Settled(s) && s.Ok() && Holds(s, "")
            && (Future(s, cur, Todo(s, "", streams), choices, users)
                == GREETING + Replies(InitialMail(store), true, CommandsHeard(streams), choices, users))
  {
    hide Replies, CommandsIn;
    InitialSettled(store);
    HoldsNothing();
    assert "" + "" + streams[0] == streams[0] && GREETING + "" == GREETING;
  }

  /**
   * All that a client is to be told on a run: the greeting and the reference replies to what was heard of its bytes, a
   * command executed on the run under the table of its moment, with its file read as on the run.
   */
  ghost function Told(store: Store, inputs: seq<Input>, whole: bool, users: set<(string, string)>): string
    requires store.Valid()
  {
    var s := InitialConn(store);
    GREETING + Replies(InitialMail(store), true, CommandsHeard(Heard(s, inputs)), ChoicesOn(s, inputs, whole), users)
  }

  /** What was sent is a prefix of this; at rest it is all of it if and only if the connection is idle. */
  ghost predicate Tells(end: Conn, sent: string, all: string)
    requires end.Ok()
  {
    sent <= all && (end.stm in {READ, CLOSE_STATE} ==> (sent == all <==> Idle(end)))
  }

  lemma {:induction false} RunTells(users: set<(string, string)>, store: Store, inputs: seq<Input>, whole: bool)
    requires store.Valid() && GoodRun(InitialConn(store), inputs)
    requires whole ==> CleanRun(InitialConn(store), inputs)
    ensures var (end, sent) := Run(InitialConn(store), inputs);
            Settled(end) && Tells(end, sent, Told(store, inputs, whole, users))
  {
    hide Replies, CommandsIn, CommandsHeard, Run, GoodRun, CleanRun, Heard, Settled, Holds, Future, Todo;
    hide PState.Consume, Pieces, PiecesOn, ChoicesOn;
    var s, streams := InitialConn(store), Heard(InitialConn(store), inputs);
    InitialFuture(store, streams, None, [], users);
    var frag := RunKeepsFuture(users, s, inputs, "", whole);
    InitialFuture(store, streams, PiecesOn(s, inputs, whole), ChoicesOn(s, inputs, whole), users);
    var (end, sent) := Run(s, inputs);
    SettledOk(end);
    if end.stm in {READ, CLOSE_STATE} {
      IdleHasNoFuture(users, end, PiecesAtEnd(end, whole), frag);
      assert sent + "" == sent;
    }
  }

  /**
   * In every run on which no chunk loses bytes and no input is stranded, whatever pieces the input came in, the output
   * went out in and the files were read in: the server does not abort, and what was sent is a prefix of the greeting
   * and the reference replies, each command executed under the user table of the event that executes it and with its
   * file in the pieces read; once the connection rests, it is all of them if and only if no complete command waits in
   * the input buffer.
   */
  lemma {:induction false} SessionRefinesReference(users: set<(string, string)>, store: Store, inputs: seq<Input>)
    requires store.Valid() && GoodRun(InitialConn(store), inputs)
    ensures var s := InitialConn(store);
            var (end, sent) := Run(s, inputs);
            var choices, steps := ChoicesOn(s, inputs, false), StepsOn(s, inputs);
            && Settled(end) && Tells(end, sent, Told(store, inputs, false, users))
            && |choices| == |steps| && forall k :: 0 <= k < |steps| ==> choices[k].users == steps[k].users
  {
    hide Run, GoodRun, Settled, Told, Tells, ChoicesOn, StepsOn;
    InitialSettled(store);
    RunTells(users, store, inputs, false);
    ChoicesFollowSteps(InitialConn(store), inputs, false);
  }

  // ----- files read clean, one user table -----

  function Received(inputs: seq<Input>): string
    decreases |inputs|
  {
    if inputs == [] then "" else Data(inputs[0].event) + Received(inputs[1..])
  }

  /** What the reference server sends in all to a client that has sent `input`. */
  ghost function Expected(users: set<(string, string)>, store: Store, input: string): string
    requires store.Valid()
  {
    GREETING + Replies(InitialMail(store), true, CommandsIn(input), [], users)
  }

  /** One user table throughout, and no `recv` that fails. */
  ghost predicate Plain(users: set<(string, string)>, inputs: seq<Input>) {
    forall i :: 0 <= i < |inputs| ==> inputs[i].users == users && !inputs[i].event.RecvFails?
  }

  lemma {:induction false} PlainIsHeard(users: set<(string, string)>, s: Conn, inputs: seq<Input>)
    requires Settled(s) && s.Ok() && GoodRun(s, inputs) && Plain(users, inputs)
    ensures Heard(s, inputs) == [Received(inputs)]
    decreases |inputs|
  {
    hide Step, Settled, Good, Enabled;
    if inputs != [] {
      var i := inputs[0];
      GoodFits(s, i.event);
      StepKeepsOk(i.users, s, i.event);
      StateAndInterestAgree(i.users, s, i.event);
      PlainIsHeard(users, Step(i.users, s, i.event).conn, inputs[1..]);
    }
  }

  /**
   * With files whose chunks are clean and one user table, the replies are those of the reference to the bytes sent, and
   * to nothing else of the run.
   */
  lemma {:induction false} CleanSession(users: set<(string, string)>, store: Store, inputs: seq<Input>)
    requires store.Valid() && GoodRun(InitialConn(store), inputs)
    requires CleanRun(InitialConn(store), inputs) && Plain(users, inputs)
    ensures var (end, sent) := Run(InitialConn(store), inputs);
            Settled(end) && Tells(end, sent, Expected(users, store, Received(inputs)))
  {
    hide Run, GoodRun, CleanRun, Settled, Replies, CommandsIn, Idle, Heard, ChoicesOn, Tells;
    InitialSettled(store);
    RunTells(users, store, inputs, true);
    PlainIsHeard(users, InitialConn(store), inputs);
    var streams, choices := [Received(inputs)], ChoicesOn(InitialConn(store), inputs, true);
    assert streams[1..] == [] && CommandsIn(streams[0]) + [] == CommandsIn(streams[0]);
    assert CommandsHeard(streams) == CommandsIn(Received(inputs)) + CommandsHeard([]);
    AllPlain(users, InitialConn(store), inputs);
    PlainChoices(InitialMail(store), true, CommandsIn(Received(inputs)), choices, users);
  }

  lemma {:induction false} AllPlain(users: set<(string, string)>, s: Conn, inputs: seq<Input>)
    requires s.Ok() && Plain(users, inputs)
    ensures forall ch :: ch in ChoicesOn(s, inputs, true) ==> ch == Choice(users, None)
    decreases |inputs|
  {
    hide Step, Enabled, Executed, PiecesOn;
    if inputs != [] && Enabled(s, inputs[0].event) && Step(inputs[0].users, s, inputs[0].event).Going? {
      StepKeepsOk(inputs[0].users, s, inputs[0].event);
      AllPlain(users, Step(inputs[0].users, s, inputs[0].event).conn, inputs[1..]);
    }
  }

  /** Two such schedules of the same input that both come to rest have sent the same bytes. */
  lemma {:induction false} SchedulingIndependence(users: set<(string, string)>, store: Store, a: seq<Input>,
                                                  b: seq<Input>)
    requires store.Valid() && GoodRun(InitialConn(store), a) && GoodRun(InitialConn(store), b)
    requires CleanRun(InitialConn(store), a) && CleanRun(InitialConn(store), b) && Plain(users, a) && Plain(users, b)
    requires Received(a) == Received(b) && Idle(Run(InitialConn(store), a).0) && Idle(Run(InitialConn(store), b).0)
    ensures Run(InitialConn(store), a).1 == Run(InitialConn(store), b).1
  {
    hide Run, GoodRun, CleanRun, Expected, Plain, Settled;
    CleanSession(users, store, a);
    CleanSession(users, store, b);
  }
}
