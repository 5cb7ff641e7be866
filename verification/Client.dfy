/**
 * The connection object of src/include/pop3.h with the functions of src/pop3.c, src/command_handler.c,
 * src/pop3file.c and src/utils/stm.c that update it.  Every method is proved against the function of the same name
 * on the value of the object.
 */
module Clients {
  import opened Text
  import opened Buffers
  import opened Commands
  import opened Parsers
  import opened Maildrop
  import opened DotStuffing
  import opened Session

  const NON_AUTH_TABLE := [QUIT, USER, PASS, CAPA]
  const AUTH_TABLE := [QUIT, STAT, LIST, RETR, DELE, NOOP, RSET, CAPA]

  /** `getTable` */
  function GetTable(state: Phase): Option<seq<Keyword>> {
    match state
    case AUTHORIZATION => Some(NON_AUTH_TABLE)
    case TRANSACTION => Some(AUTH_TABLE)
    case UPDATE => Some(NON_AUTH_TABLE)
    case CLOSED => None
  }

  /** A line given to the client. */
  function LineTo(s: Conn, text: string): Option<Next> {
    var t :- WriteToClient(s, text);
    Some(Next(t, WRITE))
  }

  /** `handleList` */
  function ListTo(s: Conn, arg: string): Option<Next>
    requires s.mail.Valid() && s.cursor == -1
  {
    match ExecList(s.mail, arg)
    case Line(text) => LineTo(s, text)
    case _ => ReadList(s)
  }

  class Client {
    const serverBuffer: Buffer
    const clientBuffer: Buffer
    const parser: Pop3Parser
    var name: Option<string>
    var state: Phase
    const files: array<FileEntry>
    var fileCant: nat
    var activeFileCant: int
    var activeFileSize: int
    var lastFileList: int
    var activeFile: string
    var fileDoneReading: bool
    var newLine: bool
    var openFile: Option<string>    // the unread bytes of fileState.file
    var current: Stm                // of the state machine
    var interest: Interest          // of the descriptor, in the selector
    var store: Store                // the file system

    ghost function Repr(): set<object> {
      {this, serverBuffer, serverBuffer.data, clientBuffer, clientBuffer.data, files,
       parser, parser.line, parser.arg1, parser.arg2}
    }

    ghost predicate Separate() {
      && serverBuffer != clientBuffer && serverBuffer.data != clientBuffer.data
      && serverBuffer.data != parser.line && serverBuffer.data != parser.arg1 && serverBuffer.data != parser.arg2
      && clientBuffer.data != parser.line && clientBuffer.data != parser.arg1 && clientBuffer.data != parser.arg2
      && files.Length == MAX_EMAILS
    }

    ghost function MailView(): (m: Mail)
      reads `state, `name, `fileCant, `activeFileCant, `activeFileSize, `store, files
      ensures m.phase == state && m.name == name && m.cant == fileCant && m.store == store
    {
      Mail(state, name, files[..], fileCant, activeFileCant, activeFileSize, store)
    }

    /** The maildrop is well-formed. */
    ghost predicate MailOk()
      reads `state, `name, `fileCant, `activeFileCant, `activeFileSize, `store, files
    {
      files.Length == MAX_EMAILS && MailView().Valid()
    }

    /** The buffers and the parser are well-formed. */
    ghost predicate Parts()
      reads serverBuffer, clientBuffer, parser, parser.line, parser.arg1, parser.arg2
    {
      Separate() && serverBuffer.Valid() && clientBuffer.Valid() && parser.Valid()
    }

    ghost predicate Valid()
      reads `state, `name, `fileCant, `activeFileCant, `activeFileSize, `store, files
      reads serverBuffer, clientBuffer, parser, parser.line, parser.arg1, parser.arg2
    {
      Parts() && MailOk()
    }

    ghost function View(): (s: Conn)
      requires Parts()
      reads this, files, serverBuffer, serverBuffer.data, clientBuffer, clientBuffer.data
      reads parser, parser.line, parser.arg1, parser.arg2
      ensures s.stm == current && s.interest == interest && s.mail == MailView() && s.cursor == lastFileList
      ensures s.done == fileDoneReading && s.active == activeFile && s.newLine == newLine && s.file == openFile
      ensures s.out == serverBuffer.View() && s.inp == clientBuffer.View() && s.parser == parser.View()
    {
      Conn(current, interest, serverBuffer.View(), clientBuffer.View(), parser.View(),
           MailView(), lastFileList, activeFile, fileDoneReading, newLine, openFile)
    }

    // ----- the parts of the object that every handler uses -----

    /** `selector_set_interest_key` */
    method SetInterestKey(i: Interest)
      requires Parts()
      modifies this`interest
      ensures Parts() && View() == old(View()).(interest := i)
    {
      hide Buffer.View, Buffer.Valid, Buffer.InBounds, Pop3Parser.View, Pop3Parser.Valid, MailView;
      interest := i;
    }

    /** `send`: the kernel takes n of the pending bytes. */
    method SendPending(n: nat) returns (sent: string)
      requires Parts() && n <= |View().out.pending|
      modifies serverBuffer, serverBuffer.data
      ensures Parts() && sent == old(View()).out.pending[..n]
      ensures View() == old(View()).(out := old(View()).out.Take(n))
    {
      hide Buffer.View, Buffer.Valid, Buffer.InBounds, Pop3Parser.View, Pop3Parser.Valid, MailView, Buf.Take;
      sent := serverBuffer.ReadAdv(n);
    }

    /** `snprintf` into the server buffer. */
    method PrintReply(text: string) returns (ok: bool)
      requires Parts()
      modifies serverBuffer, serverBuffer.data
      ensures Parts()
      ensures match old(View()).out.Printed(text)
              case None => !ok && View() == old(View())
              case Some(b) => ok && View() == old(View()).(out := b)
    {
      hide Buffer.View, Buffer.Valid, Buffer.InBounds, Pop3Parser.View, Pop3Parser.Valid, MailView, Buf.Printed;
      ok := serverBuffer.Print(text);
    }

    /** `recv` into the client buffer. */
    method ReceiveBytes(data: string)
      requires Parts() && |data| <= View().inp.Room()
      modifies clientBuffer, clientBuffer.data
      ensures Parts() && View() == old(View()).(inp := old(View()).inp.Append(data))
    {
      hide Buffer.View, Buffer.Valid, Buffer.InBounds, Pop3Parser.View, Pop3Parser.Valid, MailView;
      var _ := clientBuffer.StoreBytes(data);
    }

    method ResetParser()
      requires Parts()
      modifies parser, parser.line, parser.arg1, parser.arg2
      ensures Parts() && View() == old(View()).(parser := Init())
    {
      hide Buffer.View, Buffer.Valid, Buffer.InBounds, Pop3Parser.View, Pop3Parser.Valid, MailView, Init;
      parser.Reset();
    }

    /** The connection and the returned state are those of `x`; both are None when an assert has failed. */
    ghost predicate Lands(r: Option<Stm>, x: Option<Next>)
      reads this, files, serverBuffer, serverBuffer.data, clientBuffer, clientBuffer.data
      reads parser, parser.line, parser.arg1, parser.arg2
    {
      && Parts()
      && match x
         case None => r == None
         case Some(next) => r == Some(next.stm) && View() == next.conn
    }

    /** The initial values of src/main.c, the greeting included. */
    constructor (store: Store)
      requires store.Valid()
      ensures Valid() && fresh(Repr()) && View() == InitialConn(store)
    {
      hide Buffer.View, Buffer.Valid, Buffer.InBounds, Pop3Parser.View, Pop3Parser.Valid, Init, Mail.Valid;
      var greeted, empty := NewBuffers();
      serverBuffer, clientBuffer := greeted, empty;
      parser := new Pop3Parser();
      var table := NewFiles();
      files := table;
      name, state, fileCant, activeFileCant, activeFileSize := None, AUTHORIZATION, 0, 0, 0;
      lastFileList, activeFile, fileDoneReading, newLine, openFile := -1, "", false, true, None;
      current, interest := WRITE, OP_WRITE;
      this.store := store;
      new;
      assert Parts();
      assert MailView() == InitialMail(store);
      hide MailView, InitialMail, Parts, Separate;
    }

    /** The two buffers, the greeting in the first. */
    static method NewBuffers() returns (greeted: Buffer, empty: Buffer)
      ensures fresh(greeted) && fresh(greeted.data) && fresh(empty) && fresh(empty.data)
      ensures greeted != empty && greeted.data != empty.data && greeted.Valid() && empty.Valid()
      ensures greeted.View() == Buf(0, GREETING, BUFFER_SIZE) && empty.View() == Buf(0, "", BUFFER_SIZE)
    {
      greeted := new Buffer(BUFFER_SIZE);
      Greet(greeted);
      empty := new Buffer(BUFFER_SIZE);
    }

    /** `calloc` */
    static method NewFiles() returns (files: array<FileEntry>)
      ensures fresh(files) && files[..] == seq(MAX_EMAILS, _ => FileEntry("", 0, 0, false))
    {
      files := new FileEntry[MAX_EMAILS](_ => FileEntry("", 0, 0, false));
    }

    static method Greet(b: Buffer)
      requires b.Valid() && b.View() == Buf(0, "", BUFFER_SIZE)
      modifies b, b.data
      ensures b.Valid() && b.View() == Buf(0, GREETING, BUFFER_SIZE)
    {
      var s, i := GREETING, 0;
      while i < |s|
        invariant 0 <= i <= |s| && b.Valid() && b.View() == Buf(0, s[..i], BUFFER_SIZE)
      {
        b.WriteByte(s[i]);
        assert s[..i + 1] == s[..i] + [s[i]];
        i := i + 1;
      }
      assert s[..|s|] == s;
    }

    // ----- command_handler.c -----

    /** The server buffer b has been given this text, and the handler has returned `st`; or an assert has failed. */
    ghost predicate Answered(b: Buf, text: string, r: Option<Stm>, st: Stm)
      reads serverBuffer, serverBuffer.data
    {
      && serverBuffer.Valid()
      && match b.Printed(text)
         case Some(next) => r == Some(st) && serverBuffer.View() == next
         case None => r == None
    }

    /** `write_to_client`, then return this state. */
    method WriteBack(message: string, st: Stm) returns (r: Option<Stm>)
      requires serverBuffer.Valid()
      modifies serverBuffer, serverBuffer.data
      ensures Answered(old(serverBuffer.View()), message, r, st)
    {
      var ok := serverBuffer.Print(message);
      r := if ok then Some(st) else None;
    }

    /** The position of the entry with this id among the first `fileCant`. */
    method FindFile(id: int) returns (i: Option<nat>)
      requires MailOk()
      ensures i == MailView().Slot(id)
    {
      var k := 0;
      while k < fileCant
        invariant 0 <= k <= fileCant
        invariant forall j :: 0 <= j < k ==> files[j].id != id
      {
        if files[k].id == id {
          return Some(k);
        }
        k := k + 1;
      }
      SlotIsPosition(MailView(), id);
      return None;
    }

    /** `remove_file`: true on failure. */
    method RemoveFile(file: string) returns (error: bool)
      requires store.Valid()
      modifies this`store
      ensures store.Valid()
      ensures error == old(store).Remove(name, file).None?
      ensures store == if error then old(store) else old(store).Remove(name, file).value
    {
      var removed := store.Remove(name, file);
      match removed {
        case None => error := true;
        case Some(next) =>
          RemoveKeepsValid(store, name, file);
          store, error := next, false;
      }
    }

    /** The loop of `handleQuitAuth`: its bound is the count that it decrements. */
    method RemoveMarked() returns (error: bool)
      requires files.Length == MAX_EMAILS && fileCant < MAX_EMAILS && store.Valid()
      modifies this`store, this`fileCant
      ensures Sweep(store, fileCant, error)
           == SweepFrom(old(store), name, files[..], 0, old(fileCant), old(fileCant), true)
    {
      ghost var goal := SweepFrom(store, name, files[..], 0, fileCant, fileCant, true);
      error := false;
      var i := 0;
      while !error && i < fileCant
        invariant 0 <= i <= MAX_EMAILS && fileCant < MAX_EMAILS && store.Valid()
        invariant if error then goal == Sweep(store, fileCant, true)
                  else goal == SweepFrom(store, name, files[..], i, fileCant, fileCant, true)
        decreases MAX_EMAILS - i
      {
        if files[i].deleted {
          error := RemoveFile(files[i].name);
          if !error {
            fileCant := fileCant - 1;
          }
        }
        i := i + 1;
      }
    }

    method HandleQuitAuth() returns (r: Option<Stm>)
      requires Valid()
      modifies this`state, this`store, this`fileCant, serverBuffer, serverBuffer.data
      ensures MailView() == ExecQuit(old(MailView())).0
      ensures ExecQuit(old(MailView())).1.Line?
      ensures Answered(old(serverBuffer.View()), ExecQuit(old(MailView())).1.text, r, WRITE)
    {
      hide SweepFrom, SignOff;
      state := UPDATE;
      var error := RemoveMarked();
      if error {
        r := WriteBack("-ERR some deleted messages not removed\r\n", WRITE);
      } else {
        r := WriteBack(SignOff(fileCant), WRITE);
        state := CLOSED;
      }
    }

    method HandleStat() returns (r: Option<Stm>)
      requires serverBuffer.Valid()
      modifies serverBuffer, serverBuffer.data
      ensures Answered(old(serverBuffer.View()), StatText(old(MailView())), r, WRITE)
    {
      r := WriteBack("+OK " + Dec(ToInt32(activeFileCant)) + " " + Dec(ToInt32(activeFileSize)) + "\r\n", WRITE);
    }

    method HandleList(arg1: string) returns (r: Option<Stm>)
      requires Valid() && lastFileList == -1
      modifies this`lastFileList, this`interest, serverBuffer, serverBuffer.data
      ensures Lands(r, ListTo(old(View()), arg1))
    {
      hide Buffer.View, Buffer.Valid, Buffer.InBounds, Pop3Parser.View, Pop3Parser.Valid;
      hide Dec, Atoi, Buf.Printed, ReadList;
      if files[0].id == 0 {
        r := AnswerLine("-ERR Error opening user folder.\r\n");
      } else if |arg1| == 0 {
        r := Pop3ReadList();
      } else {
        var i := FindFile(Atoi(arg1));
        match i {
          case None => r := AnswerLine("-ERR no such message \r\n");
          case Some(k) =>
            if !files[k].deleted {
              r := AnswerLine("+OK " + Dec(files[k].id) + " " + Dec(files[k].size) + "\r\n");
            } else {
              r := AnswerLine("-ERR message is deleted\r\n");
            }
        }
      }
    }

    /** `write_to_client` and WRITE, on the whole object. */
    method AnswerLine(text: string) returns (r: Option<Stm>)
      requires Parts()
      modifies serverBuffer, serverBuffer.data
      ensures Lands(r, LineTo(old(View()), text))
    {
      hide View, Buffer.View, Buffer.Valid, Buffer.InBounds, Pop3Parser.View, Pop3Parser.Valid, MailView, Buf.Printed;
      var ok := PrintReply(text);
      r := if ok then Some(WRITE) else None;
    }

    method HandleRetr(arg1: string) returns (r: Option<Stm>)
      requires Valid()
      modifies this`activeFile, this`fileDoneReading, serverBuffer, serverBuffer.data
      ensures match ExecRetr(old(MailView()), arg1)
              case Line(text) => Answered(old(serverBuffer.View()), text, r, WRITE)
                              && activeFile == old(activeFile) && fileDoneReading == old(fileDoneReading)
              case FileBody(status, file) => Answered(old(serverBuffer.View()), status, r, WRITE_FILE)
                              && activeFile == file && !fileDoneReading
              case Listing => false
    {
      hide Dec, Atoi;
      var i := FindFile(Atoi(arg1));
      if i.Some? && !files[i.value].deleted {
        r := WriteBack("+OK " + Dec(files[i.value].size) + " octets\r\n", WRITE_FILE);
        activeFile, fileDoneReading := files[i.value].name, false;
      } else {
        r := WriteBack(NO_MESSAGE, WRITE);
      }
    }

    method HandleDele(arg1: string) returns (r: Option<Stm>)
      requires Valid()
      modifies this`activeFileCant, this`activeFileSize, files, serverBuffer, serverBuffer.data
      ensures MailView() == ExecDele(old(MailView()), arg1).0
      ensures ExecDele(old(MailView()), arg1).1.Line?
      ensures Answered(old(serverBuffer.View()), ExecDele(old(MailView()), arg1).1.text, r, WRITE)
    {
      hide Dec, Atoi;
      var i := FindFile(Atoi(arg1));
      var message := NO_MESSAGE;
      if i.Some? {
        var k := i.value;
        if !files[k].deleted {
          files[k] := files[k].(deleted := true);
          activeFileCant := (activeFileCant - 1) % TWO_32;
          activeFileSize := (activeFileSize - files[k].size) % TWO_32;
          message := "+OK message " + Dec(files[k].id) + " deleted\r\n";
        } else {
          message := "-ERR message " + Dec(files[k].id) + " already deleted\r\n";
        }
      }
      r := WriteBack(message, WRITE);
    }

    method HandleRset() returns (r: Option<Stm>)
      requires Valid()
      modifies this`activeFileCant, this`activeFileSize, files, serverBuffer, serverBuffer.data
      ensures MailView() == ExecRset(old(MailView())).0
      ensures ExecRset(old(MailView())).1.Line?
      ensures Answered(old(serverBuffer.View()), ExecRset(old(MailView())).1.text, r, WRITE)
    {
      hide Dec, Count, Size;
      Undelete();
      r := WriteBack("+OK maildrop has " + Dec(ToInt32(activeFileCant)) + " messages ("
                     + Dec(ToInt32(activeFileSize)) + " octets)\r\n", WRITE);
    }

    /** The loop of `handleRset`. */
    method Undelete()
      requires MailOk()
      modifies this`activeFileCant, this`activeFileSize, files
      ensures MailView() == ExecRset(old(MailView())).0
    {
      hide Dec, CountGain, SizeGain, Unmarked, ExecRset;
      StartsUnmarked(files[..]);
      ghost var was, cant0, size0 := files[..], activeFileCant, activeFileSize;
      var i := 0;
      while i < fileCant
        invariant 0 <= i <= fileCant && files[..] == Unmarked(was, i)
        invariant activeFileCant == (cant0 + CountGain(was, i)) % TWO_32
        invariant activeFileSize == (size0 + SizeGain(was, i)) % TWO_32
      {
        UnmarkedNext(was, i);
        WrapAgain(cant0 + CountGain(was, i), 1);
        WrapAgain(size0 + SizeGain(was, i), files[i].size);
        if files[i].deleted {
          files[i] := files[i].(deleted := false);
          activeFileCant := (activeFileCant + 1) % TWO_32;
          activeFileSize := (activeFileSize + files[i].size) % TWO_32;
        }
        assert files[..] == Unmarked(was, i + 1);
        i := i + 1;
      }
      RsetGains(old(MailView()));
    }

    /** `populate_array` */
    method PopulateArray() returns (ret: int)
      requires MailOk()
      modifies this`fileCant, this`activeFileCant, this`activeFileSize, files
      ensures MailView() == Populate(old(MailView()))
      ensures ret == 1 <==> name.Some? && name.value in store.dirs
    {
      if name.None? || name.value !in store.dirs {
        return -1;
      }
      var dir := store.dirs[name.value];
      ghost var was := files[..];
      FillFrom(dir);
      fileCant, activeFileCant := |dir|, |dir|;
      return 1;
    }

    /** The directory loop: entries, sizes and the sentinel. */
    method FillFrom(dir: seq<Message>)
      requires |dir| < files.Length
      modifies this`activeFileSize, files
      ensures files[..] == Filled(old(files[..]), dir)
      ensures activeFileSize == Size(files[..|dir|]) % TWO_32
    {
      hide Size, Entry, Filled;
      ghost var was := files[..];
      var i := 0;
      activeFileSize := 0;
      NoSize();
      while i < |dir|
        invariant 0 <= i <= |dir|
        invariant forall j :: 0 <= j < i ==> files[j] == Entry(dir[j], j + 1)
        invariant forall j :: i <= j < files.Length ==> files[j] == was[j]
        invariant activeFileSize == Size(files[..i]) % TWO_32
      {
        ghost var before := files[..i];
        files[i] := Entry(dir[i], i + 1);
        WrapAgain(Size(before), files[i].size);
        activeFileSize := (activeFileSize + files[i].size) % TWO_32;
        assert files[..i + 1] == before + [files[i]];
        SizeNext(before, files[i]);
        EntryIsUnmarked(dir[i], i + 1);
        i := i + 1;
      }
      ghost var filled := files[..i];
      files[i] := files[i].(id := -1);
      assert files[..i] == filled;
      FilledAt(was, dir);
      assert files[..] == Filled(was, dir);
    }

    method HandlePass(users: set<(string, string)>, arg1: string) returns (r: Option<Stm>)
      requires Valid() && state != CLOSED
      modifies this`state, this`name, this`fileCant, this`activeFileCant, this`activeFileSize, files
      modifies serverBuffer, serverBuffer.data
      ensures MailView() == ExecNonAuth(users, old(MailView()), Command(PASS, arg1, "")).0
      ensures ExecNonAuth(users, old(MailView()), Command(PASS, arg1, "")).1.Line?
      ensures Answered(old(serverBuffer.View()), ExecNonAuth(users, old(MailView()), Command(PASS, arg1, "")).1.text,
                       r, WRITE)
    {
      hide Populate, Mail.Valid, Buf.Printed;
      if name.None? {
        r := WriteBack("-ERR No username given.\r\n", WRITE);
      } else if (name.value, arg1) in users {
        r := WriteBack("+OK Logged in.\r\n", WRITE);
        var _ := PopulateArray();
        state := TRANSACTION;
      } else {
        name := None;
        r := WriteBack("-ERR [AUTH] Authentication failed.\r\n", WRITE);
      }
    }

    /** The handlers of the table for TRANSACTION that answer by one line. */
    method CallAuthHandler(c: Command) returns (r: Option<Stm>)
      requires Valid() && state == TRANSACTION
      requires c.keyword in AUTH_TABLE && c.keyword != RETR && c.keyword != LIST
      modifies this`state, this`fileCant, this`activeFileCant, this`activeFileSize, this`store, files
      modifies serverBuffer, serverBuffer.data
      ensures MailView() == ExecAuth(old(MailView()), c).0
      ensures ExecAuth(old(MailView()), c).1.Line?
      ensures Answered(old(serverBuffer.View()), ExecAuth(old(MailView()), c).1.text, r, WRITE)
    {
      hide Dec, ExecQuit, ExecDele, ExecRset, ExecList, ExecRetr, StatText, Answered;
      match c.keyword {
        case QUIT => r := HandleQuitAuth();
        case STAT => r := HandleStat();
        case DELE => r := HandleDele(c.arg1);
        case NOOP => r := WriteBack("+OK\r\n", WRITE);
        case RSET => r := HandleRset();
        case CAPA => r := WriteBack(CAPA_AUTH, WRITE);
      }
    }

    /** The handlers of the other table. */
    method CallNonAuthHandler(users: set<(string, string)>, c: Command) returns (r: Option<Stm>)
      requires Valid() && state != CLOSED && c.keyword in NON_AUTH_TABLE
      modifies this`state, this`name, this`fileCant, this`activeFileCant, this`activeFileSize, files
      modifies serverBuffer, serverBuffer.data
      ensures MailView() == ExecNonAuth(users, old(MailView()), c).0
      ensures ExecNonAuth(users, old(MailView()), c).1.Line?
      ensures Answered(old(serverBuffer.View()), ExecNonAuth(users, old(MailView()), c).1.text, r, WRITE)
    {
      hide Populate, Answered;
      match c.keyword {
        case QUIT =>
          r := WriteBack("+OK POP3 server signing off\r\n", WRITE);
          state := CLOSED;
        case USER =>
          r := WriteBack("+OK\r\n", WRITE);
          name := Some(c.arg1);
        case PASS => r := HandlePass(users, c.arg1);
        case CAPA => r := WriteBack(CAPA_NON_AUTH, WRITE);
      }
    }

    /** The handler that the table holds for a command. */
    method CallHandler(users: set<(string, string)>, c: Command) returns (r: Option<Stm>)
      requires Valid() && state != CLOSED && lastFileList == -1
      requires c.keyword in GetTable(state).value
      modifies this, files, serverBuffer, serverBuffer.data
      ensures Lands(r, ExecuteCommand(users, old(View()), c))
    {
      hide Buffer.View, Buffer.Valid, Buffer.InBounds, Pop3Parser.View, Pop3Parser.Valid;
      hide ReadList, Exec, ExecList, ExecRetr, Buf.Printed, ExecuteCommand;
      if c.keyword == RETR {
        ExecutesRetr(users, View(), c);
        r := HandleRetr(c.arg1);
      } else if c.keyword == LIST {
        ExecutesList(users, View(), c);
        r := HandleList(c.arg1);
      } else {
        r := CallAndAnswer(users, c);
      }
    }

    method CallAndAnswer(users: set<(string, string)>, c: Command) returns (r: Option<Stm>)
      requires Valid() && state != CLOSED && lastFileList == -1
      requires c.keyword in GetTable(state).value && c.keyword != RETR && c.keyword != LIST
      modifies this`state, this`name, this`fileCant, this`activeFileCant, this`activeFileSize, this`store, files
      modifies serverBuffer, serverBuffer.data
      ensures Lands(r, ExecuteCommand(users, old(View()), c))
    {
      hide Buffer.View, Buffer.Valid, Buffer.InBounds, Pop3Parser.View, Pop3Parser.Valid, MailView;
      hide Exec, ExecAuth, ExecNonAuth, Buf.Printed, ExecuteCommand, Mail.Valid;
      AnsweredByLine(users, MailView(), c);
      ExecutesLine(users, View(), c);
      ExecByPhase(users, MailView(), c);
      if state == TRANSACTION {
        r := CallAuthHandler(c);
      } else {
        r := CallNonAuthHandler(users, c);
      }
    }

    /** `executeCommand`: search the table of the current phase. */
    method Execute(users: set<(string, string)>, c: Command) returns (r: Option<Stm>)
      requires Valid() && lastFileList == -1
      modifies this, files, serverBuffer, serverBuffer.data
      ensures Lands(r, ExecuteCommand(users, old(View()), c))
    {
      hide Dec, ReadList, ExecQuit, ExecDele, ExecRset, ExecList, ExecRetr, Populate, StatText, Buf.Printed;
      var table := GetTable(state);
      if table.None? {
        return Some(ERROR_STATE);
      }
      var i := 0;
      while i < |table.value|
        invariant 0 <= i <= |table.value|
        invariant c.keyword !in table.value[..i]
      {
        if table.value[i] == c.keyword {
          r := CallHandler(users, c);
          return;
        }
        i := i + 1;
      }
      assert table.value[..i] == table.value;
      NotInTable(users, MailView(), c);
      r := WriteBack(UNKNOWN, WRITE);
    }

    // ----- pop3.c: LIST -----

    method Pop3ReadList() returns (r: Option<Stm>)
      requires Valid() && -1 <= lastFileList <= fileCant
      modifies this`lastFileList, this`interest, serverBuffer, serverBuffer.data
      ensures Lands(r, ReadList(old(View())))
    {
      assert fileCant < files.Length;
      hide Buffer.View, Buffer.Valid, Buffer.InBounds, Pop3Parser.View, Pop3Parser.Valid;
      hide Dec, ListHeader, ListLine, SkipMarked, Buf.Printed, Buf.Store, Mail.Valid, Count;
      SkipDeleted();
      if lastFileList == fileCant {
        r := EmitDot();
      } else if lastFileList == -1 {
        var count := CountUndeleted();
        r := EmitLine(ListHeader(count), 0);
      } else {
        r := EmitLine(ListLine(files[lastFileList]), lastFileList + 1);
      }
    }

    /** One line of a listing, with the cursor's next position. */
    method EmitLine(text: string, next: int) returns (r: Option<Stm>)
      requires Parts()
      modifies this`lastFileList, this`interest, serverBuffer, serverBuffer.data
      ensures Lands(r, match old(View()).out.Printed(text) {
                case None => None
                case Some(b) => Some(Next(old(View()).(cursor := next, out := b, interest := OP_WRITE), WRITE_LIST))
              })
    {
      hide Buffer.View, Buffer.Valid, Buffer.InBounds, Pop3Parser.View, Pop3Parser.Valid, MailView, Buf.Printed;
      lastFileList := next;
      var ok := PrintReply(text);
      SetInterestKey(OP_WRITE);
      r := if ok then Some(WRITE_LIST) else None;
    }

    /** The end of a listing. */
    method EmitDot() returns (r: Option<Stm>)
      requires Parts()
      modifies this`lastFileList, this`interest, serverBuffer, serverBuffer.data
      ensures Lands(r, match old(View()).out.Store(".\r\n") {
                case None => None
                case Some(b) => Some(Next(old(View()).(cursor := -1, out := b, interest := OP_WRITE), WRITE))
              })
    {
      hide Buffer.View, Buffer.Valid, Buffer.InBounds, Pop3Parser.View, Pop3Parser.Valid, MailView, Buf.Store;
      lastFileList, interest := -1, OP_WRITE;
      var ok := serverBuffer.StoreBytes(".\r\n");
      r := if ok then Some(WRITE) else None;
    }

    /** The first loop of `pop3ReadList`. */
    method SkipDeleted()
      requires MailOk() && -1 <= lastFileList <= fileCant
      modifies this`lastFileList
      ensures lastFileList == if old(lastFileList) == -1 then -1 else SkipMarked(files[..], fileCant, old(lastFileList))
    {
      while lastFileList != -1 && lastFileList < fileCant && files[lastFileList].deleted
        invariant -1 <= lastFileList <= fileCant && MailOk()
        invariant old(lastFileList) == -1 <==> lastFileList == -1
        invariant lastFileList != -1 ==>
                    SkipMarked(files[..], fileCant, old(lastFileList)) == SkipMarked(files[..], fileCant, lastFileList)
        decreases fileCant - lastFileList
      {
        lastFileList := lastFileList + 1;
      }
    }

    method CountUndeleted() returns (count: nat)
      requires MailOk()
      ensures count == Count(files[..fileCant])
    {
      count := 0;
      var j := 0;
      while j < fileCant
        invariant 0 <= j <= fileCant && count == Count(files[..j])
      {
        assert files[..j + 1][..j] == files[..j];
        if !files[j].deleted {
          count := count + 1;
        }
        j := j + 1;
      }
    }

    method Pop3WriteList(n: nat) returns (r: Option<Stm>, sent: string)
      requires Valid() && -1 <= lastFileList <= fileCant && n <= |serverBuffer.View().pending|
      modifies this`lastFileList, this`interest, serverBuffer, serverBuffer.data
      ensures Lands(r, WriteList(old(View()), n))
      ensures sent == old(serverBuffer.View()).pending[..n]
    {
      hide View, Buffer.View, Buffer.Valid, Buffer.InBounds, Pop3Parser.View, Pop3Parser.Valid, MailView, MailOk;
      hide ReadList, Buf.Take, Buf.CanRead;
      sent := SendPending(n);
      var more := serverBuffer.CanRead();
      if more {
        SetInterestKey(OP_WRITE);
        r := Some(WRITE_LIST);
      } else {
        r := Pop3ReadList();
      }
    }

    // ----- pop3.c and pop3file.c: RETR -----

    /** `read_first_line_file`: open the file if needed and read a chunk; at its end close it. */
    method ReadFirstLineFile(k: nat) returns (line: Option<string>)
      requires Parts()
      modifies this`openFile
      ensures var s := old(View());
              if s.Unread() == "" then line == None && openFile == None
              else line == Some(s.Chunk(k)) && openFile == Some(s.Unread()[|s.Chunk(k)|..])
    {
      if openFile.None? {
        openFile := Some(store.Content(name, activeFile));
      }
      var rest := openFile.value;
      if rest == "" {
        openFile := None;
        return None;
      }
      var most := if |rest| < BUFFER_SIZE then |rest| else BUFFER_SIZE - 1;
      var count := if k == 0 then 1 else if k < most then k else most;
      openFile := Some(rest[count..]);
      return Some(rest[..count]);
    }

    method Pop3ReadFile(k: nat) returns (r: Option<Stm>)
      requires Parts()
      modifies this`openFile, this`fileDoneReading, this`newLine, this`interest, serverBuffer, serverBuffer.data
      ensures Lands(r, ReadFile(old(View()), k))
    {
      hide Buffer.View, Buffer.Valid, Buffer.InBounds, Pop3Parser.View, Pop3Parser.Valid, MailView, MailOk;
      hide Encode, Buf.PutAll, Buf.Printed, Conn.Chunk, Conn.Unread, CStr;
      var line := ReadFirstLineFile(k);
      if line.None? {
        r := EndOfFile();
      } else {
        EncodeChunk(line.value);
        SetInterestKey(OP_WRITE);
        r := Some(WRITE_FILE);
      }
    }

    method EncodeChunk(chunk: string)
      requires Parts()
      modifies this`newLine, serverBuffer, serverBuffer.data
      ensures Parts()
      ensures var s, text := old(View()), CStr(chunk);
              View() == s.(out := s.out.PutAll(Encode(s.newLine, false, text)), newLine := After(s.newLine, text, '\n'))
    {
      hide Buffer.View, Buffer.Valid, Buffer.InBounds, Pop3Parser.View, Pop3Parser.Valid, MailView;
      hide Encode, Buf.PutAll, CStr, After;
      EncodeLine(chunk);
    }

    method EndOfFile() returns (r: Option<Stm>)
      requires Parts()
      modifies this`fileDoneReading, this`interest, serverBuffer, serverBuffer.data
      ensures Lands(r, match old(View()).out.Printed(FINAL) {
                case None => None
                case Some(b) => Some(Next(old(View()).(done := true, out := b, interest := OP_WRITE), WRITE_FILE))
              })
    {
      hide Buffer.View, Buffer.Valid, Buffer.InBounds, Pop3Parser.View, Pop3Parser.Valid, MailView, Buf.Printed;
      fileDoneReading := true;
      var ok := PrintReply(FINAL);
      SetInterestKey(OP_WRITE);
      r := if ok then Some(WRITE_FILE) else None;
    }

    /** The byte loop of `pop3ReadFile`; `strlen` stops it at the first NUL. */
    method EncodeLine(line: string)
      requires Parts()
      modifies this`newLine, serverBuffer, serverBuffer.data
      ensures Parts()
      ensures serverBuffer.View() == old(serverBuffer.View()).PutAll(Encode(old(newLine), false, CStr(line)))
      ensures newLine == After(old(newLine), CStr(line), '\n')
    {
      hide Encode, Buf.PutAll, Buf.Put, After, CStr, Buffer.View, Pop3Parser.View, Pop3Parser.Valid;
      var text, i := CStr(line), 0;
      ghost var b, flag := serverBuffer.View(), newLine;
      EncodeStart(b, flag);
      while i < |text|
        invariant 0 <= i <= |text| && Parts()
        invariant serverBuffer.View() == b.PutAll(Encode(flag, false, text[..i]))
        invariant newLine == After(flag, text[..i], '\n')
      {
        EncodeNext(b, flag, text, i);
        if line[i] == '\n' {
          if i == 0 || line[i - 1] != '\r' {
            serverBuffer.WriteByte('\r');
            serverBuffer.WriteByte('\n');
          } else {
            serverBuffer.WriteByte('\n');
          }
          newLine := true;
        } else if line[i] == '.' {
          if newLine {
            serverBuffer.WriteByte('.');
            serverBuffer.WriteByte('.');
            newLine := false;
          } else {
            serverBuffer.WriteByte(line[i]);
            newLine := false;
          }
        } else {
          serverBuffer.WriteByte(line[i]);
          newLine := false;
        }
        i := i + 1;
      }
      assert text[..|text|] == text;
    }

    method Pop3WriteFile(n: nat, k: nat) returns (r: Option<Stm>, sent: string)
      requires Parts() && n <= |serverBuffer.View().pending|
      modifies this`openFile, this`fileDoneReading, this`newLine, this`interest, serverBuffer, serverBuffer.data
      ensures Lands(r, WriteFile(old(View()), n, k))
      ensures sent == old(serverBuffer.View()).pending[..n]
    {
      hide View, Buffer.View, Buffer.Valid, Buffer.InBounds, Pop3Parser.View, Pop3Parser.Valid, MailView, MailOk;
      hide ReadFile, Buf.Take, Buf.CanWrite, Buf.CanRead;
      sent := "";
      var pending := serverBuffer.CanRead();
      NothingToSend(View().out, n);
      if pending {
        sent := SendPending(n);
        var room := serverBuffer.CanWrite();
        if room {
          SetInterestKey(OP_WRITE);
          return Some(WRITE_FILE), sent;
        }
      }
      if !fileDoneReading {
        r := Pop3ReadFile(k);
      } else {
        SetInterestKey(OP_READ);
        r := Some(READ);
      }
    }

    // ----- pop3.c: commands -----

    method ParseCommandInBuffer(users: set<(string, string)>) returns (r: Option<Stm>)
      requires Valid() && lastFileList == -1
      modifies Repr()
      ensures Lands(r, ParseCommand(users, old(View())))
    {
      hide Buffer.View, Buffer.Valid, Buffer.InBounds, Pop3Parser.View, Pop3Parser.Valid, MailView;
      hide ExecuteCommand, ParseCommand, PState.Consume, PState.Result, Buf.CanRead, Buf.Take;
      ghost var s := View();
      ParsesTo(users, s);
      var some := clientBuffer.CanRead();
      if !some {
        ResetParser();
        SetInterestKey(OP_READ);
        return Some(READ);
      }
      var _ := ConsumeBuffer(clientBuffer, parser);
      ghost var t := Parsed(s);
      assert View() == t;
      if parser.finished {
        r := ExecuteFinished(users);
      } else {
        r := Some(READ);
      }
    }

    /** The part of `parseCommandInBuffer` behind a finished command. */
    method ExecuteFinished(users: set<(string, string)>) returns (r: Option<Stm>)
      requires Valid() && lastFileList == -1
      modifies this, files, serverBuffer, serverBuffer.data, parser, parser.line, parser.arg1, parser.arg2
      ensures Lands(r, match ExecuteCommand(users, old(View()), old(View()).parser.Result()) {
                case None => None
                case Some(x) => Some(Next(x.conn.(parser := Init(), interest := OP_WRITE), x.stm))
              })
    {
      hide View, Buffer.View, Buffer.Valid, Buffer.InBounds, Pop3Parser.View, Pop3Parser.Valid, MailView;
      hide ExecuteCommand, PState.Result, Init;
      var c := parser.Finished();
      r := Execute(users, c);
      ResetParser();
      SetInterestKey(OP_WRITE);
    }

    /** `data` is what `recv` stored behind the write pointer, None when it failed. */
    method Pop3ReadCommand(users: set<(string, string)>, data: Option<string>) returns (r: Option<Stm>)
      requires Valid() && lastFileList == -1 && (data.Some? ==> |data.value| <= clientBuffer.View().Room())
      modifies Repr()
      ensures Lands(r, ReadCommand(users, old(View()), data))
    {
      hide View, Buffer.View, Buffer.Valid, Buffer.InBounds, Pop3Parser.View, Pop3Parser.Valid, MailView, MailOk;
      hide ParseCommand, Buf.CanRead;
      if data.Some? {
        ReceiveBytes(data.value);
      }
      if state == CLOSED {
        return Some(CLOSE_STATE);
      }
      var some := clientBuffer.CanRead();
      if data == Some("") && !some {
        return Some(CLOSE_STATE);
      }
      r := ParseCommandInBuffer(users);
      if r == Some(ERROR_STATE) {
        SetInterestKey(OP_WRITE);
        return;
      }
      var reply := serverBuffer.CanRead();
      if reply {
        SetInterestKey(OP_WRITE);
      }
    }

    method Pop3WriteCommand(users: set<(string, string)>, n: nat) returns (r: Option<Stm>, sent: string)
      requires Valid() && lastFileList == -1 && n <= |serverBuffer.View().pending|
      modifies Repr()
      ensures Lands(r, WriteCommand(users, old(View()), n))
      ensures sent == old(serverBuffer.View()).pending[..n]
    {
      hide View, Buffer.View, Buffer.Valid, Buffer.InBounds, Pop3Parser.View, Pop3Parser.Valid, MailView, MailOk;
      hide ParseCommand, Buf.Take, Buf.CanRead;
      sent := SendPending(n);
      var more := serverBuffer.CanRead();
      if more {
        SetInterestKey(OP_WRITE);
        return Some(WRITE), sent;
      }
      var input := clientBuffer.CanRead();
      if input {
        r := ParseCommandInBuffer(users);
        if r == Some(ERROR_STATE) {
          SetInterestKey(OP_NOOP);
        }
        return;
      }
      if state == CLOSED {
        return Some(CLOSE_STATE), sent;
      }
      SetInterestKey(OP_READ);
      return Some(READ), sent;
    }

    // ----- stm.c -----

    /** `pop3Error` */
    method ArriveInError()
      requires Parts()
      modifies this`interest, serverBuffer, serverBuffer.data
      ensures Parts() && View() == Pop3Error(old(View()))
    {
      hide View, Buffer.View, Buffer.Valid, Buffer.InBounds, Pop3Parser.View, Pop3Parser.Valid, MailView, Buf.Printed;
      hide Buf.Room;
      var limit := serverBuffer.WriteLimit();
      if limit >= 6 {
        var _ := PrintReply("-ERR\r\n");
      }
      SetInterestKey(OP_WRITE);
    }

    method JumpTo(next: Stm)
      requires Parts()
      modifies this`current, this`interest, serverBuffer, serverBuffer.data
      ensures Parts() && View() == Jump(old(View()), next)
    {
      hide Buffer.View, Buffer.Valid, Buffer.InBounds, Pop3Parser.View, Pop3Parser.Valid, MailView, Pop3Error;
      if current != next {
        current := next;
        if next == CLOSE_STATE {
          SetInterestKey(OP_NOOP);
        } else if next == ERROR_STATE {
          ArriveInError();
        }
      }
    }

    /** `pop3Read` or `pop3Write`: the handler of the current state, then the jump to the state it returns. */
    method HandleEvent(users: set<(string, string)>, e: Event) returns (ok: bool, sent: string)
      requires Valid() && View().Ok() && Enabled(View(), e)
      modifies Repr()
      ensures Parts()
      ensures ok == Step(users, old(View()), e).Going?
      ensures ok ==> Going(View(), sent) == Step(users, old(View()), e)
    {
      hide Buffer.View, Buffer.Valid, Buffer.InBounds, Pop3Parser.View, Pop3Parser.Valid, MailView, MailOk;
      hide ReadCommand, WriteCommand, WriteFile, WriteList, Jump;
      var r: Option<Stm> := None;
      sent := "";
      if e.Send? {
        match current {
          case WRITE => r, sent := Pop3WriteCommand(users, e.n);
          case WRITE_FILE => r, sent := Pop3WriteFile(e.n, e.k);
          case WRITE_LIST => r, sent := Pop3WriteList(e.n);
          case _ =>
        }
      } else if current == READ {
        r := Pop3ReadCommand(users, if e.Recv? then Some(e.data) else None);
      }
      if r.None? {
        return false, sent;
      }
      JumpTo(r.value);
      return true, sent;
    }
  }

  /** Messages, and octets, that come back when the first i marks are taken off. */
  ghost function CountGain(files: seq<FileEntry>, i: nat): int
    requires i <= |files|
  {
    Count(Unmarked(files, i)[..i]) - Count(files[..i])
  }

  ghost function SizeGain(files: seq<FileEntry>, i: nat): int
    requires i <= |files|
  {
    Size(Unmarked(files, i)[..i]) - Size(files[..i])
  }

  lemma {:induction false} NoSize()
    ensures Size([]) == 0
  {
  }

  lemma {:induction false} SizeNext(files: seq<FileEntry>, f: FileEntry)
    ensures Size(files + [f]) == Size(files) + if f.deleted then 0 else f.size
  {
    assert (files + [f])[..|files|] == files;
  }

  lemma {:induction false} EntryIsUnmarked(msg: Message, id: int)
    ensures !Entry(msg, id).deleted
  {
  }

  lemma {:induction false} FilledAt(files: seq<FileEntry>, dir: seq<Message>)
    requires |dir| < |files|
    ensures var r := Filled(files, dir);
            forall i :: 0 <= i < |files| ==>
              r[i] == if i < |dir| then Entry(dir[i], i + 1) else if i == |dir| then files[i].(id := -1) else files[i]
  {
  }

  lemma {:induction false} StartsUnmarked(files: seq<FileEntry>)
    ensures Unmarked(files, 0) == files && CountGain(files, 0) == SizeGain(files, 0) == 0
  {
  }

  lemma {:induction false} UnmarkedNext(files: seq<FileEntry>, i: nat)
    requires i < |files|
    ensures var here, next := Unmarked(files, i), Unmarked(files, i + 1);
            next == here[i := here[i].(deleted := false)] && here[i] == files[i]
    ensures CountGain(files, i + 1) == CountGain(files, i) + if files[i].deleted then 1 else 0
    ensures SizeGain(files, i + 1) == SizeGain(files, i) + if files[i].deleted then files[i].size else 0
  {
    var here, next := Unmarked(files, i), Unmarked(files, i + 1);
    assert next[..i + 1][..i] == here[..i] && files[..i + 1][..i] == files[..i];
  }

  lemma {:induction false} WrapAgain(a: int, d: int)
    ensures (a % TWO_32 + d) % TWO_32 == (a + d) % TWO_32
  {
  }

  lemma {:induction false} RsetGains(m: Mail)
    requires m.Valid()
    ensures ExecRset(m).0 == m.(files := Unmarked(m.files, m.cant),
                                activeCant := (m.activeCant + CountGain(m.files, m.cant)) % TWO_32,
                                activeSize := (m.activeSize + SizeGain(m.files, m.cant)) % TWO_32)
  {
    hide Count, Size, Dec;
  }

  lemma {:induction false} NothingToSend(b: Buf, n: nat)
    requires n <= |b.pending|
    ensures !b.CanRead() ==> b.pending[..n] == ""
  {
  }

  /** The connection once its input has been fed to the parser. */
  ghost function Parsed(s: Conn): Conn
    requires s.parser.Valid()
  {
    var (p, rest) := s.parser.Consume(s.inp.pending);
    s.(parser := p, inp := s.inp.Take(|s.inp.pending| - |rest|))
  }

  lemma {:induction false} ParsesTo(users: set<(string, string)>, s: Conn)
    requires s.mail.Valid() && s.cursor == -1 && s.parser.Valid()
    ensures ParseCommand(users, s)
         == if !s.inp.CanRead() then Some(Next(s.(parser := Init(), interest := OP_READ), READ))
            else if !Parsed(s).parser.finished then Some(Next(Parsed(s), READ))
            else match ExecuteCommand(users, Parsed(s), Parsed(s).parser.Result()) {
              case None => None
              case Some(x) => Some(Next(x.conn.(parser := Init(), interest := OP_WRITE), x.stm))
            }
  {
    hide ExecuteCommand, PState.Consume;
  }

  lemma {:induction false} SlotIsPosition(m: Mail, id: int)
    requires m.Valid()
    ensures m.Slot(id).Some? <==> exists j :: 0 <= j < m.cant && m.files[j].id == id
  {
    if 1 <= id <= m.cant {
      assert m.files[id - 1].id == id;
    }
  }

  lemma {:induction false} ExecutesLine(users: set<(string, string)>, s: Conn, c: Command)
    requires s.mail.Valid() && s.cursor == -1 && s.mail.phase != CLOSED && Exec(users, s.mail, c).1.Line?
    ensures ExecuteCommand(users, s, c)
         == match s.out.Printed(Exec(users, s.mail, c).1.text) {
              case None => None
              case Some(b) => Some(Next(s.(mail := Exec(users, s.mail, c).0, out := b), WRITE))
            }
  {
    hide Exec, Buf.Printed;
  }

  lemma {:induction false} ExecutesRetr(users: set<(string, string)>, s: Conn, c: Command)
    requires s.mail.Valid() && s.cursor == -1 && s.mail.phase == TRANSACTION && c.keyword == RETR
    ensures ExecuteCommand(users, s, c)
         == match ExecRetr(s.mail, c.arg1) {
              case Line(text) => (match s.out.Printed(text) {
                case None => None
                case Some(b) => Some(Next(s.(out := b), WRITE))
              })
              case FileBody(status, file) => (match s.out.Printed(status) {
                case None => None
                case Some(b) => Some(Next(s.(out := b, active := file, done := false), WRITE_FILE))
              })
              case Listing => ReadList(s)
            }
  {
    hide ExecRetr, Buf.Printed;
  }

  lemma {:induction false} ExecutesList(users: set<(string, string)>, s: Conn, c: Command)
    requires s.mail.Valid() && s.cursor == -1 && s.mail.phase == TRANSACTION && c.keyword == LIST
    ensures ExecuteCommand(users, s, c) == ListTo(s, c.arg1)
  {
    hide ReadList, Buf.Printed, Dec, Atoi;
  }

  lemma {:induction false} ExecByPhase(users: set<(string, string)>, m: Mail, c: Command)
    requires m.Valid() && m.phase != CLOSED
    ensures Exec(users, m, c) == if m.phase == TRANSACTION then ExecAuth(m, c) else ExecNonAuth(users, m, c)
  {
    hide ExecAuth, ExecNonAuth;
  }

  lemma {:induction false} AnsweredByLine(users: set<(string, string)>, m: Mail, c: Command)
    requires m.Valid() && m.phase != CLOSED && c.keyword != RETR && c.keyword != LIST
    ensures Exec(users, m, c).1.Line?
  {
    hide Dec, SweepFrom, Populate;
  }

  lemma {:induction false} NotInTable(users: set<(string, string)>, m: Mail, c: Command)
    requires m.Valid() && m.phase != CLOSED && c.keyword !in GetTable(m.phase).value
    ensures Exec(users, m, c) == (m, Line(UNKNOWN))
  {
    hide Dec, ExecQuit, ExecDele, ExecRset, ExecList, ExecRetr, Populate, StatText;
    assert NON_AUTH_TABLE[0] == QUIT && NON_AUTH_TABLE[1] == USER && NON_AUTH_TABLE[2] == PASS;
    assert NON_AUTH_TABLE[3] == CAPA;
    assert AUTH_TABLE[0] == QUIT && AUTH_TABLE[1] == STAT && AUTH_TABLE[2] == LIST && AUTH_TABLE[3] == RETR
        && AUTH_TABLE[4] == DELE && AUTH_TABLE[5] == NOOP && AUTH_TABLE[6] == RSET && AUTH_TABLE[7] == CAPA;
  }

  lemma {:induction false} PutAllShort(b: Buf, s: string)
    ensures |s| == 1 ==> b.PutAll(s) == b.Put(s[0])
    ensures |s| == 2 ==> b.PutAll(s) == b.Put(s[0]).Put(s[1])
  {
    if |s| == 1 {
      assert s[1..] == "" && b.PutAll(s) == b.Put(s[0]).PutAll("");
    } else if |s| == 2 {
      assert s[1..] == [s[1]] && s[1..][1..] == "";
      assert b.PutAll(s) == b.Put(s[0]).PutAll(s[1..]);
      assert b.Put(s[0]).PutAll(s[1..]) == b.Put(s[0]).Put(s[1]).PutAll("");
    }
  }

  lemma {:induction false} EncodeStart(b: Buf, newLine: bool)
    ensures b.PutAll(Encode(newLine, false, "")) == b && After(newLine, "", '\n') == newLine
  {
  }

  /** One more byte of a chunk: the bytes put for it are those of `EncodeByte`. */
  lemma {:induction false} EncodeNext(b: Buf, newLine: bool, text: string, i: nat)
    requires i < |text|
    ensures var flag := After(newLine, text[..i], '\n');
            var afterCR := i > 0 && text[i - 1] == '\r';
            var now := b.PutAll(Encode(newLine, false, text[..i]));
            && b.PutAll(Encode(newLine, false, text[..i + 1]))
               == (if text[i] == '\n' then (if afterCR then now.Put('\n') else now.Put('\r').Put('\n'))
                   else if text[i] == '.' && flag then now.Put('.').Put('.')
                   else now.Put(text[i]))
            && After(newLine, text[..i + 1], '\n') == (text[i] == '\n')
  {
    var flag, afterCR := After(newLine, text[..i], '\n'), i > 0 && text[i - 1] == '\r';
    assert text[..i + 1] == text[..i] + [text[i]];
    EncodeConcat(newLine, false, text[..i], [text[i]]);
    assert After(false, text[..i], '\r') == afterCR;
    var enc := Encode(flag, afterCR, [text[i]]);
    assert enc == EncodeByte(flag, afterCR, text[i]);
    PutAllConcat(b, Encode(newLine, false, text[..i]), enc);
    var now := b.PutAll(Encode(newLine, false, text[..i]));
    PutAllShort(now, enc);
  }
}
