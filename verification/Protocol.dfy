/** The words of the protocol: what each command is answered, spelt out, and what else it changes. */
module Protocol {
  import opened Text
  import opened Commands
  import opened Maildrop
  import opened MaildropRuns
  import opened Session
  import opened Clients

  // ----- before login -----

  lemma {:induction false} GreetingIs(store: Store)
    ensures InitialConn(store).out.pending == "+OK POP3 server ready\r\n"
  {
  }

  lemma {:induction false} UserAnswers(users: set<(string, string)>, m: Mail, c: Command)
    requires m.Valid() && m.phase in {AUTHORIZATION, UPDATE} && c.keyword == USER
    ensures Exec(users, m, c) == (m.(name := Some(c.arg1)), Line("+OK\r\n"))
  {
  }

  /** PASS without a name, with a pair that is not in the table, with one that is: and then the folder is listed. */
  lemma {:induction false} PassAnswers(users: set<(string, string)>, m: Mail, c: Command)
    requires m.Valid() && m.phase in {AUTHORIZATION, UPDATE} && c.keyword == PASS
    ensures var (q, r) := Exec(users, m, c);
            if m.name.None? then q == m && r == Line("-ERR No username given.\r\n")
            else if (m.name.value, c.arg1) !in users
            then q == m.(name := None) && r == Line("-ERR [AUTH] Authentication failed.\r\n")
            else if m.name.value in m.store.dirs then FreshLogin(m, q) && r == Line("+OK Logged in.\r\n")
            else q == m.(phase := TRANSACTION) && r == Line("+OK Logged in.\r\n")
  {
    hide Filled, Size;
  }

  /** The octets of a folder, as the table's `int` sizes hold them. */
  function Octets(dir: seq<Message>): int
    decreases |dir|
  {
    if dir == [] then 0 else Octets(dir[..|dir| - 1]) + ToInt32(|dir[|dir| - 1].body|)
  }

  /** The table after a login: every file of the folder, numbered from 1, unmarked, and the totals. */
  lemma {:induction false} LoginLists(m: Mail, m0: Mail)
    requires FreshLogin(m, m0)
    ensures var dir := m.store.dirs[m.name.value];
            && m0.cant == m0.activeCant == |dir| && m0.activeSize == Octets(dir) % TWO_32
            && (forall i :: 0 <= i < |dir| ==>
                  m0.files[i] == FileEntry(dir[i].name, i + 1, ToInt32(|dir[i].body|), false))
            && |m0.files| == |m.files| && m0.files[|dir|] == m.files[|dir|].(id := -1)
            && m0.files[|dir| + 1..] == m.files[|dir| + 1..]
            && m0 == m.(phase := TRANSACTION, files := m0.files, cant := m0.cant,
                        activeCant := m0.activeCant, activeSize := m0.activeSize)
  {
    hide Size, Octets;
    SizeOfFolder(m0.files, m.store.dirs[m.name.value]);
  }

  lemma {:induction false} SizeOfFolder(files: seq<FileEntry>, dir: seq<Message>)
    requires |dir| <= |files|
    requires forall i :: 0 <= i < |dir| ==> files[i].size == ToInt32(|dir[i].body|) && !files[i].deleted
    ensures Size(files[..|dir|]) == Octets(dir)
    decreases |dir|
  {
    if dir != [] {
      var n := |dir| - 1;
      SizeOfFolder(files, dir[..n]);
      assert files[..|dir|][..n] == files[..n];
    }
  }

  lemma {:induction false} QuitOutside(users: set<(string, string)>, m: Mail, c: Command)
    requires m.Valid() && m.phase in {AUTHORIZATION, UPDATE} && c.keyword == QUIT
    ensures Exec(users, m, c) == (m.(phase := CLOSED), Line("+OK POP3 server signing off\r\n"))
  {
  }

  // ----- in any phase -----

  /** The commands that CAPA lists, in its order. */
  function Capabilities(phase: Phase): seq<Keyword> {
    if phase == TRANSACTION then [CAPA, QUIT, STAT, LIST, RETR, DELE, NOOP, RSET] else [CAPA, QUIT, USER, PASS]
  }

  const CAPA_BEFORE := "+OK Capability list follows\r\nCAPA\r\nQUIT\r\nUSER\r\nPASS\r\n.\r\n"
  const CAPA_IN_TRANSACTION :=
    "+OK Capability list follows\r\nCAPA\r\nQUIT\r\nSTAT\r\nLIST\r\nRETR\r\nDELE\r\nNOOP\r\nRSET\r\n.\r\n"

  /** CAPA, and that what it lists is exactly what the phase's table holds. */
  lemma {:induction false} CapaAnswers(users: set<(string, string)>, m: Mail, c: Command)
    requires m.Valid() && m.phase != CLOSED && c.keyword == CAPA
    ensures Exec(users, m, c) == (m, Line(
              if m.phase == TRANSACTION then CAPA_IN_TRANSACTION else CAPA_BEFORE))
    ensures forall k :: k in Capabilities(m.phase) <==> k in GetTable(m.phase).value
  {
    SameCommands(m.phase);
  }

  lemma {:induction false} SameCommands(phase: Phase)
    requires phase != CLOSED
    ensures forall k :: k in Capabilities(phase) <==> k in GetTable(phase).value
  {
    forall k ensures k in Capabilities(phase) <==> k in GetTable(phase).value {
    }
  }

  /** Whatever the phase's table does not hold is unknown, TOP, UIDL and APOP included, and changes nothing. */
  lemma {:induction false} OthersAnswer(users: set<(string, string)>, m: Mail, c: Command)
    requires m.Valid() && m.phase != CLOSED && c.keyword !in Capabilities(m.phase)
    ensures Exec(users, m, c) == (m, Line("-ERR Unknown command.\r\n"))
  {
    hide Exec, Capabilities;
    SameCommands(m.phase);
    NotInTable(users, m, c);
  }

  // ----- the maildrop -----

  lemma {:induction false} NoopAnswers(users: set<(string, string)>, m: Mail, c: Command)
    requires m.Valid() && m.phase == TRANSACTION && c.keyword == NOOP
    ensures Exec(users, m, c) == (m, Line("+OK\r\n"))
  {
  }

  lemma {:induction false} StatAnswers(users: set<(string, string)>, m: Mail, c: Command)
    requires m.Valid() && m.phase == TRANSACTION && c.keyword == STAT
    ensures Exec(users, m, c)
         == (m, Line("+OK " + Dec(ToInt32(m.activeCant)) + " " + Dec(ToInt32(m.activeSize)) + "\r\n"))
  {
    hide Dec;
  }

  /** LIST of one message during a visit: number and octets of the message found there at login, or why not. */
  lemma {:induction false} ListAnswers(users: set<(string, string)>, m: Mail, m0: Mail, steps: seq<Step>, c: Command)
    requires FreshLogin(m, m0) && forall s :: s in steps ==> s.cmd.keyword != QUIT
    requires c.keyword == LIST && c.arg1 != ""
    ensures var last, dir, id := After(m0, steps), m.store.dirs[m.name.value], Atoi(c.arg1);
            && last.phase == TRANSACTION && last.cant == |dir|
            && Exec(users, last, c) == (last, Line(
                 if !(1 <= id <= |dir|) then "-ERR no such message \r\n"
                 else if last.files[id - 1].deleted then "-ERR message is deleted\r\n"
                 else "+OK " + Dec(id) + " " + Dec(ToInt32(|dir[id - 1].body|)) + "\r\n"))
  {
    hide After, Dec, Atoi, ExecRset, Restorable, Populate;
    LoginIsReady(m, m0);
    var last, dir, id := After(m0, steps), m.store.dirs[m.name.value], Atoi(c.arg1);
    RsetRestoresLogin(m0, steps);
    OnlyMarksChanged(m0, last);
    TableIsListed(m, m0, last);
    if 1 <= id <= |dir| {
      EntryOfLogin(m, m0, last, id - 1);
    }
  }

  /** A listed folder shows in the table, be it empty. */
  lemma {:induction false} TableIsListed(m: Mail, m0: Mail, last: Mail)
    requires FreshLogin(m, m0) && Restorable(m0, last)
    ensures last.cant == |m.store.dirs[m.name.value]| && last.files[0].id != 0
  {
    hide ExecRset, Size;
    OnlyMarksChanged(m0, last);
    assert Unmarked(last.files, last.cant)[0].id == Unmarked(m0.files, m0.cant)[0].id;
  }

  /** LIST, with a number or without, for a user who has no folder and whose client has listed none. */
  lemma {:induction false} ListWithoutTable(users: set<(string, string)>, m: Mail, c: Command)
    requires m.Valid() && m.phase == TRANSACTION && c.keyword == LIST && m.files[0].id == 0
    ensures Exec(users, m, c) == (m, Line("-ERR Error opening user folder.\r\n"))
  {
    hide Dec;
  }

  /** RETR during a visit: octets and file of the message found there at login, or why not. */
  lemma {:induction false} RetrAnswers(users: set<(string, string)>, m: Mail, m0: Mail, steps: seq<Step>, c: Command)
    requires FreshLogin(m, m0) && (forall s :: s in steps ==> s.cmd.keyword != QUIT) && c.keyword == RETR
    ensures var last, dir, id := After(m0, steps), m.store.dirs[m.name.value], Atoi(c.arg1);
            && last.phase == TRANSACTION && last.cant == |dir|
            && Exec(users, last, c) == (last,
                 if 1 <= id <= |dir| && !last.files[id - 1].deleted
                 then FileBody("+OK " + Dec(ToInt32(|dir[id - 1].body|)) + " octets\r\n", dir[id - 1].name)
                 else Line("-ERR no such message\r\n"))
  {
    hide After, Dec, Atoi, ExecRetr, Populate;
    RetrFindsMessage(m, m0, steps, c.arg1);
  }

  /** DELE marks the entry of that number, and no other, or says why not. */
  lemma {:induction false} DeleAnswers(users: set<(string, string)>, m: Mail, c: Command)
    requires m.Valid() && m.phase == TRANSACTION && c.keyword == DELE
    ensures var (q, r) := Exec(users, m, c);
            var id := Atoi(c.arg1);
            if !(1 <= id <= m.cant) then q == m && r == Line("-ERR no such message\r\n")
            else if m.files[id - 1].deleted then q == m && r == Line("-ERR message " + Dec(id) + " already deleted\r\n")
            else
              && r == Line("+OK message " + Dec(id) + " deleted\r\n")
              && q == m.(files := m.files[id - 1 := m.files[id - 1].(deleted := true)],
                         activeCant := q.activeCant, activeSize := q.activeSize)
              && (q.activeCant + 1 - m.activeCant) % TWO_32 == 0
              && (q.activeSize + m.files[id - 1].size - m.activeSize) % TWO_32 == 0
  {
    hide Dec, Atoi;
  }

  /** RSET during a visit: the state of the login, and its totals in the answer. */
  lemma {:induction false} RsetAnswers(users: set<(string, string)>, m: Mail, m0: Mail, steps: seq<Step>, c: Command)
    requires FreshLogin(m, m0) && (forall s :: s in steps ==> s.cmd.keyword != QUIT) && c.keyword == RSET
    ensures var last, dir := After(m0, steps), m.store.dirs[m.name.value];
            && last.phase == TRANSACTION
            && Exec(users, last, c) == (m0,
                 Line("+OK maildrop has " + Dec(|dir|) + " messages (" + Dec(ToInt32(Octets(dir))) + " octets)\r\n"))
  {
    hide After, Dec, Populate, Octets, Restorable, ExecRset, Exec;
    LoginIsReady(m, m0);
    var last, dir := After(m0, steps), m.store.dirs[m.name.value];
    LoginLists(m, m0);
    RsetRestoresLogin(m0, steps);
    OnlyMarksChanged(m0, last);
    RsetText(users, last, c);
    assert ToInt32(|dir|) == |dir| && ToInt32(Octets(dir) % TWO_32) == ToInt32(Octets(dir));
  }

  lemma {:induction false} RsetText(users: set<(string, string)>, m: Mail, c: Command)
    requires m.Valid() && m.phase == TRANSACTION && c.keyword == RSET
    ensures var (q, r) := Exec(users, m, c);
            q == ExecRset(m).0
            && r == Line("+OK maildrop has " + Dec(ToInt32(q.activeCant)) + " messages ("
                      + Dec(ToInt32(q.activeSize)) + " octets)\r\n")
  {
    hide Dec, Count, Size, Unmarked;
  }

  /** QUIT in TRANSACTION is QuitExact. */
  lemma {:induction false} QuitAnswers(users: set<(string, string)>, m: Mail, c: Command)
    requires ReadyToQuit(m) && c.keyword == QUIT
    ensures var dir, pins := m.store.dirs[m.name.value], Pins(m.store, m.name.value);
            var n := |Survivors(pins, dir, m.files, 0, true)|;
            (Exec(users, m, c).1 == Line(
               if AnyFails(pins, m.files, |dir|, 0, true) then "-ERR some deleted messages not removed\r\n"
               else if n == 0 then "+OK POP3 server signing off (maildrop empty)\r\n"
               else if n == 1 then "+OK POP3 server signing off (1 message left)\r\n"
               else "+OK POP3 server signing off (" + Dec(n) + " messages left)\r\n"))
            && Exec(users, m, c).0 == ExecQuit(m).0
  {
    hide Dec, ExecQuit, Survivors, AnyFails, Pins;
    QuitExact(m);
  }

  // ----- an error of the machine -----

  /** `-ERR`, if the buffer has room for it; an exact fit loses its LF to the NUL. */
  lemma {:induction false} ErrorAnswers(s: Conn)
    ensures Pop3Error(s)
         == s.(interest := OP_WRITE,
               out := s.out.(pending := s.out.pending + if s.out.Room() > 6 then "-ERR\r\n"
                                                        else if s.out.Room() == 6 then "-ERR\r\0" else ""))
  {
    assert s.out.pending + "" == s.out.pending;
    assert "-ERR\r\n"[..5] + "\0" == "-ERR\r\0";
  }
}
