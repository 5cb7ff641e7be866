/**
 * One client connection as a state machine over the events of the selector: src/pop3.c, src/utils/stm.c and the
 * state table of src/include/pop3.h.  Each function is one C function on the value of the `Client` structure;
 * None stands for a failed assert.
 */
module Session {
  import opened Text
  import opened Buffers
  import opened Commands
  import opened Parsers
  import opened Maildrop
  import opened DotStuffing

  datatype Stm = WRITE | READ | WRITE_FILE | WRITE_LIST | CLOSE_STATE | ERROR_STATE

  datatype Interest = OP_NOOP | OP_READ | OP_WRITE

  const GREETING := "+OK POP3 server ready\r\n"

  datatype Conn = Conn(
    stm: Stm, interest: Interest, out: Buf, inp: Buf, parser: PState, mail: Mail,
    cursor: int,            // lastFileList
    active: string,         // activeFile
    done: bool,             // fileDoneReading
    newLine: bool,
    file: Option<string>)   // what is left to read of the open file
  {
    ghost predicate Ok() {
      && out.Valid() && inp.Valid() && parser.Valid() && !parser.finished && mail.Valid()
      && (cursor == -1 || (stm == WRITE_LIST && 0 <= cursor <= mail.cant))
    }

    /** What the next reads of the active file will still return. */
    function Unread(): string {
      if file.Some? then file.value else mail.store.Content(mail.name, active)
    }

    /** A `read` of at most BUFFER_SIZE - 1 bytes returns between one byte and all it may; `k` says how many. */
    function Chunk(k: nat): string {
      var rest := Unread();
      var most := if |rest| < BUFFER_SIZE then |rest| else BUFFER_SIZE - 1;
      if k == 0 then rest[..if most == 0 then 0 else 1] else if k < most then rest[..k] else rest[..most]
    }
  }

  datatype Next = Next(conn: Conn, stm: Stm)

  function InitialConn(store: Store): (s: Conn)
    ensures store.Valid() ==> s.Ok()
  {
    Conn(WRITE, OP_WRITE, Buf(0, GREETING, BUFFER_SIZE), Buf(0, "", BUFFER_SIZE), Init(), InitialMail(store),
         -1, "", false, true, None)
  }

  /** `write_to_client` */
  function WriteToClient(s: Conn, text: string): Option<Conn> {
    var b :- s.out.Printed(text);
    Some(s.(out := b))
  }

  // ----- LIST -----

  function SkipMarked(files: seq<FileEntry>, cant: nat, i: nat): (k: nat)
    requires i <= cant <= |files|
    ensures i <= k <= cant && (k < cant ==> !files[k].deleted)
    decreases cant - i
  {
    if i < cant && files[i].deleted then SkipMarked(files, cant, i + 1) else i
  }

  function ListHeader(count: nat): string {
    "+OK " + Dec(count) + " message" + (if count > 1 then "s" else "") + "\r\n"
  }

  function ListLine(f: FileEntry): string {
    Dec(f.id) + " " + Dec(f.size) + "\r\n"
  }

  /** `pop3ReadList` */
  function ReadList(s: Conn): Option<Next>
    requires s.mail.Valid() && -1 <= s.cursor <= s.mail.cant
  {
    var files, cant := s.mail.files, s.mail.cant;
    if s.cursor == -1 then
      var b :- s.out.Printed(ListHeader(Count(files[..cant])));
      Some(Next(s.(cursor := 0, out := b, interest := OP_WRITE), WRITE_LIST))
    else
      var k := SkipMarked(files, cant, s.cursor);
      if k == cant then
        var b :- s.out.Store(".\r\n");
        Some(Next(s.(cursor := -1, out := b, interest := OP_WRITE), WRITE))
      else
        var b :- s.out.Printed(ListLine(files[k]));
        Some(Next(s.(cursor := k + 1, out := b, interest := OP_WRITE), WRITE_LIST))
  }

  /** `pop3WriteList`, `send` having taken n bytes. */
  function WriteList(s: Conn, n: nat): Option<Next>
    requires s.mail.Valid() && -1 <= s.cursor <= s.mail.cant && n <= |s.out.pending|
  {
    var t := s.(out := s.out.Take(n));
    if t.out.CanRead() then Some(Next(t.(interest := OP_WRITE), WRITE_LIST)) else ReadList(t)
  }

  // ----- RETR -----

  /** `pop3ReadFile`: encode the next chunk into the buffer, or end the reply. */
  function ReadFile(s: Conn, k: nat): Option<Next> {
    if s.Unread() == "" then
      var b :- s.out.Printed(FINAL);
      Some(Next(s.(done := true, file := None, out := b, interest := OP_WRITE), WRITE_FILE))
    else
      var text := CStr(s.Chunk(k));
      Some(Next(s.(out := s.out.PutAll(Encode(s.newLine, false, text)),
                   newLine := After(s.newLine, text, '\n'),
                   file := Some(s.Unread()[|s.Chunk(k)|..]),
                   interest := OP_WRITE), WRITE_FILE))
  }

  /** `pop3WriteFile` */
  function WriteFile(s: Conn, n: nat, k: nat): Option<Next>
    requires n <= |s.out.pending|
  {
    var t := if s.out.CanRead() then s.(out := s.out.Take(n)) else s;
    if s.out.CanRead() && t.out.CanWrite() then Some(Next(t.(interest := OP_WRITE), WRITE_FILE))
    else if !t.done then ReadFile(t, k)
    else Some(Next(t.(interest := OP_READ), READ))
  }

  // ----- commands -----

  /** `executeCommand` */
  function ExecuteCommand(users: set<(string, string)>, s: Conn, c: Command): Option<Next>
    requires s.mail.Valid() && s.cursor == -1
  {
    if s.mail.phase == CLOSED then Some(Next(s, ERROR_STATE)) else
    var (mail, reply) := Exec(users, s.mail, c);
    ExecKeepsValid(users, s.mail, c);
    var t := s.(mail := mail);
    match reply
    case Line(text) => var u :- WriteToClient(t, text); Some(Next(u, WRITE))
    case Listing => ReadList(t)
    case FileBody(status, file) =>
      var u :- WriteToClient(t, status);
      Some(Next(u.(active := file, done := false), WRITE_FILE))
  }

  /** `parseCommandInBuffer` */
  function ParseCommand(users: set<(string, string)>, s: Conn): Option<Next>
    requires s.mail.Valid() && s.cursor == -1 && s.parser.Valid()
  {
    if !s.inp.CanRead() then Some(Next(s.(parser := Init(), interest := OP_READ), READ)) else
    var (p, rest) := s.parser.Consume(s.inp.pending);
    var t := s.(parser := p, inp := s.inp.Take(|s.inp.pending| - |rest|));
    if p.finished then
      var x :- ExecuteCommand(users, t, p.Result());
      Some(Next(x.conn.(parser := Init(), interest := OP_WRITE), x.stm))
    else Some(Next(t, READ))
  }

  /** `pop3ReadCommand`; `data` is what `recv` delivered, None when it failed. */
  function ReadCommand(users: set<(string, string)>, s: Conn, data: Option<string>): Option<Next>
    requires s.mail.Valid() && s.cursor == -1 && s.parser.Valid()
  {
    var t := if data.Some? then s.(inp := s.inp.Append(data.value)) else s;
    if t.mail.phase == CLOSED then Some(Next(t, CLOSE_STATE))
    else if data == Some("") && !t.inp.CanRead() then Some(Next(t, CLOSE_STATE))
    else
      var x :- ParseCommand(users, t);
      if x.stm == ERROR_STATE || x.conn.out.CanRead() then Some(Next(x.conn.(interest := OP_WRITE), x.stm)) else Some(x)
  }

  /** `pop3WriteCommand` */
  function WriteCommand(users: set<(string, string)>, s: Conn, n: nat): Option<Next>
    requires s.mail.Valid() && s.cursor == -1 && s.parser.Valid() && n <= |s.out.pending|
  {
    var t := s.(out := s.out.Take(n));
    if t.out.CanRead() then Some(Next(t.(interest := OP_WRITE), WRITE))
    else if t.inp.CanRead() then
      var x :- ParseCommand(users, t);
      if x.stm == ERROR_STATE then Some(Next(x.conn.(interest := OP_NOOP), ERROR_STATE)) else Some(x)
    else if t.mail.phase == CLOSED then Some(Next(t, CLOSE_STATE))
    else Some(Next(t.(interest := OP_READ), READ))
  }

  // ----- the state machine engine -----

  /** `pop3Error`, on arrival in ERROR_STATE. */
  function Pop3Error(s: Conn): Conn {
    if s.out.Room() < 6 || s.out.Printed("-ERR\r\n").None? then s.(interest := OP_WRITE)
    else s.(out := s.out.Printed("-ERR\r\n").value, interest := OP_WRITE)
  }

  /** `jump`; arriving in CLOSE_STATE unregisters the descriptor. */
  function Jump(s: Conn, next: Stm): Conn {
    if s.stm == next then s
    else if next == CLOSE_STATE then s.(stm := next, interest := OP_NOOP)
    else if next == ERROR_STATE then Pop3Error(s.(stm := next))
    else s.(stm := next)
  }

  /** What the selector and the kernel do next to the descriptor. */
  datatype Event =
    | Recv(data: string)        // readable: `recv` returns these bytes, none at the end of the stream
    | RecvFails                 // readable: `recv` returns -1
    | Send(n: nat, k: nat)      // writable: `send` takes n bytes; a file read, if there is one, returns Chunk(k)

  predicate Enabled(s: Conn, e: Event) {
    match e
    case Recv(data) => s.interest == OP_READ && |data| <= s.inp.Room()
    case RecvFails => s.interest == OP_READ
    case Send(n, k) => s.interest == OP_WRITE && n <= |s.out.pending|
  }

  datatype Outcome = Going(conn: Conn, sent: string) | Aborted

  /** One event: `pop3Read` or `pop3Write`; a state without a handler for it aborts, so does a failed assert. */
  function Step(users: set<(string, string)>, s: Conn, e: Event): Outcome
    requires s.Ok() && Enabled(s, e)
  {
    var next :=
      if !e.Send? then
        if s.stm == READ then ReadCommand(users, s, if e.Recv? then Some(e.data) else None) else None
      else match s.stm
        case WRITE => WriteCommand(users, s, e.n)
        case WRITE_FILE => WriteFile(s, e.n, e.k)
        case WRITE_LIST => WriteList(s, e.n)
        case _ => None;
    if next.None? then Aborted
    else Going(Jump(next.value.conn, next.value.stm), if e.Send? then s.out.pending[..e.n] else "")
  }
}
