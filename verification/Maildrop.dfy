/** The maildrop of one client and what each command does to it: src/command_handler.c, src/pop3file.c. */
module Maildrop {
  import opened Text
  import opened Commands

  const MAX_EMAILS := 10

  datatype Phase = AUTHORIZATION | TRANSACTION | UPDATE | CLOSED

  datatype FileEntry = FileEntry(name: string, id: int, size: int, deleted: bool)

  datatype Message = Message(name: string, body: string)

  /** The file system: each user's folder in directory order, and the files whose removal fails. */
  datatype Store = Store(dirs: map<string, seq<Message>>, pinned: set<(string, string)>) {

    ghost predicate Valid() {
      forall u :: u in dirs ==> |dirs[u]| < MAX_EMAILS && DistinctNames(dirs[u])
    }

    /** What reading a user's file gives; a file that cannot be opened reads as empty. */
    function Content(user: Option<string>, name: string): string {
      if user.Some? && user.value in dirs then BodyOf(dirs[user.value], name) else ""
    }

    /** `remove`; None is failure. */
    function Remove(user: Option<string>, name: string): Option<Store> {
      if user.Some? && user.value in dirs && Named(dirs[user.value], name) && (user.value, name) !in pinned
      then Some(this.(dirs := dirs[user.value := Without(dirs[user.value], name)]))
      else None
    }
  }

  predicate DistinctNames(dir: seq<Message>) {
    dir == [] || (!Named(dir[1..], dir[0].name) && DistinctNames(dir[1..]))
  }

  function BodyOf(dir: seq<Message>, name: string): string {
    if dir == [] then "" else if dir[0].name == name then dir[0].body else BodyOf(dir[1..], name)
  }

  predicate Named(dir: seq<Message>, name: string) {
    dir != [] && (dir[0].name == name || Named(dir[1..], name))
  }

  function Without(dir: seq<Message>, name: string): (r: seq<Message>)
    ensures |r| <= |dir|
    ensures !Named(dir, name) ==> r == dir
  {
    if dir == [] then []
    else if dir[0].name == name then Without(dir[1..], name)
    else [dir[0]] + Without(dir[1..], name)
  }

  datatype Mail = Mail(
    phase: Phase, name: Option<string>, files: seq<FileEntry>,
    cant: nat, activeCant: int, activeSize: int, store: Store) {

    /** Held in every state: ids go by position, counters fit an `unsigned`, a fresh client has no files. */
    ghost predicate Valid() {
      && |files| == MAX_EMAILS && cant < MAX_EMAILS
      && (forall i :: 0 <= i < cant ==> files[i].id == i + 1)
      && 0 <= activeCant < TWO_32 && 0 <= activeSize < TWO_32
      && (forall i :: 0 <= i < MAX_EMAILS ==> -TWO_31 <= files[i].size < TWO_31)
      && (phase == AUTHORIZATION ==> cant == activeCant == activeSize == 0)
      && (phase == TRANSACTION ==> name.Some?)
      && store.Valid()
    }

    /** The entry with this id. */
    function Slot(id: int): Option<nat> {
      if 1 <= id <= cant then Some(id - 1) else None
    }

    /** The counters say what the marks say. */
    ghost predicate Accounted()
      requires cant <= |files|
    {
      && activeCant == Count(files[..cant])
      && activeSize == Size(files[..cant]) % TWO_32
    }
  }

  function InitialMail(store: Store): (m: Mail)
    ensures store.Valid() ==> m.Valid()
  {
    Mail(AUTHORIZATION, None, seq(MAX_EMAILS, _ => FileEntry("", 0, 0, false)), 0, 0, 0, store)
  }

  function Count(files: seq<FileEntry>): nat
    decreases |files|
  {
    if files == [] then 0 else Count(files[..|files| - 1]) + if files[|files| - 1].deleted then 0 else 1
  }

  function Size(files: seq<FileEntry>): int
    decreases |files|
  {
    if files == [] then 0 else
    Size(files[..|files| - 1]) + if files[|files| - 1].deleted then 0 else files[|files| - 1].size
  }

  // ----- the commands -----

  /** A line at once, a listing sent line by line, or a file sent chunk by chunk after a status line. */
  datatype Reply = Line(text: string) | Listing | FileBody(status: string, file: string)

  const UNKNOWN := "-ERR Unknown command.\r\n"
  const NO_MESSAGE := "-ERR no such message\r\n"
  const CAPA_NON_AUTH := "+OK Capability list follows\r\nCAPA\r\nQUIT\r\nUSER\r\nPASS\r\n.\r\n"
  const CAPA_AUTH :=
    "+OK Capability list follows\r\nCAPA\r\nQUIT\r\nSTAT\r\nLIST\r\nRETR\r\nDELE\r\nNOOP\r\nRSET\r\n.\r\n"

  function Entry(msg: Message, id: int): FileEntry {
    FileEntry(msg.name, id, ToInt32(|msg.body|), false)
  }

  /** The table filled from a folder, with the -1 sentinel behind its last entry. */
  function Filled(files: seq<FileEntry>, dir: seq<Message>): (r: seq<FileEntry>)
    requires |dir| < |files|
    ensures |r| == |files|
  {
    seq(|files|, i requires 0 <= i < |files| =>
      if i < |dir| then Entry(dir[i], i + 1) else if i == |dir| then files[i].(id := -1) else files[i])
  }

  /** `populate_array`; a folder that cannot be opened leaves everything as it was. */
  function Populate(m: Mail): Mail
    requires m.Valid()
  {
    if m.name.None? || m.name.value !in m.store.dirs then m else
    var dir := m.store.dirs[m.name.value];
    var files := Filled(m.files, dir);
    m.(files := files, cant := |dir|, activeCant := |dir|, activeSize := Size(files[..|dir|]) % TWO_32)
  }

  /** USER, PASS, CAPA and QUIT outside TRANSACTION. */
  function ExecNonAuth(users: set<(string, string)>, m: Mail, c: Command): (Mail, Reply)
    requires m.Valid()
  {
    match c.keyword
    case QUIT => (m.(phase := CLOSED), Line("+OK POP3 server signing off\r\n"))
    case USER => (m.(name := Some(c.arg1)), Line("+OK\r\n"))
    case PASS =>
      if m.name.None? then (m, Line("-ERR No username given.\r\n"))
      else if (m.name.value, c.arg1) in users then (Populate(m).(phase := TRANSACTION), Line("+OK Logged in.\r\n"))
      else (m.(name := None), Line("-ERR [AUTH] Authentication failed.\r\n"))
    case CAPA => (m, Line(CAPA_NON_AUTH))
    case _ => (m, Line(UNKNOWN))
  }

  function StatText(m: Mail): string {
    "+OK " + Dec(ToInt32(m.activeCant)) + " " + Dec(ToInt32(m.activeSize)) + "\r\n"
  }

  function ExecList(m: Mail, arg: string): Reply
    requires m.Valid()
  {
    if m.files[0].id == 0 then Line("-ERR Error opening user folder.\r\n")
    else if arg == "" then Listing
    else match m.Slot(Atoi(arg))
      case None => Line("-ERR no such message \r\n")
      case Some(i) =>
        if m.files[i].deleted then Line("-ERR message is deleted\r\n")
        else Line("+OK " + Dec(m.files[i].id) + " " + Dec(m.files[i].size) + "\r\n")
  }

  function ExecRetr(m: Mail, arg: string): Reply
    requires m.Valid()
  {
    match m.Slot(Atoi(arg))
    case None => Line(NO_MESSAGE)
    case Some(i) =>
      if m.files[i].deleted then Line(NO_MESSAGE)
      else FileBody("+OK " + Dec(m.files[i].size) + " octets\r\n", m.files[i].name)
  }

  function ExecDele(m: Mail, arg: string): (Mail, Reply)
    requires m.Valid()
  {
    match m.Slot(Atoi(arg))
    case None => (m, Line(NO_MESSAGE))
    case Some(i) =>
      if m.files[i].deleted then (m, Line("-ERR message " + Dec(m.files[i].id) + " already deleted\r\n"))
      else (m.(files := m.files[i := m.files[i].(deleted := true)],
               activeCant := (m.activeCant - 1) % TWO_32,
               activeSize := (m.activeSize - m.files[i].size) % TWO_32),
            Line("+OK message " + Dec(m.files[i].id) + " deleted\r\n"))
  }

  /** The first `n` marks taken off. */
  function Unmarked(files: seq<FileEntry>, n: nat): (r: seq<FileEntry>)
    requires n <= |files|
    ensures |r| == |files|
  {
    seq(|files|, i requires 0 <= i < |files| => if i < n then files[i].(deleted := false) else files[i])
  }

  function ExecRset(m: Mail): (Mail, Reply)
    requires m.Valid()
  {
    var all := Unmarked(m.files, m.cant);
    var m' := m.(files := all,
                 activeCant := (m.activeCant + Count(all[..m.cant]) - Count(m.files[..m.cant])) % TWO_32,
                 activeSize := (m.activeSize + Size(all[..m.cant]) - Size(m.files[..m.cant])) % TWO_32);
    (m', Line("+OK maildrop has " + Dec(ToInt32(m'.activeCant)) + " messages ("
              + Dec(ToInt32(m'.activeSize)) + " octets)\r\n"))
  }

  /** What a removal loop leaves: the store, the reported count, whether a removal failed. */
  datatype Sweep = Sweep(store: Store, cant: nat, failed: bool)

  /**
   * The removal loop of `handleQuitAuth` from index i on.  The program's loop compares i with the very count it
   * decrements (`shrinking`); the repaired loop keeps its bound.
   */
  function SweepFrom(store: Store, user: Option<string>, files: seq<FileEntry>, i: nat, bound: nat, cant: nat,
                     shrinking: bool): (s: Sweep)
    requires bound <= |files| && i <= |files|
    requires cant >= (if shrinking then bound else bound - i)
    decreases |files| - i
  {
    if i >= bound then Sweep(store, cant, false)
    else if !files[i].deleted then SweepFrom(store, user, files, i + 1, bound, cant, shrinking)
    else match store.Remove(user, files[i].name)
      case None => Sweep(store, cant, true)
      case Some(next) =>
        SweepFrom(next, user, files, i + 1, if shrinking then bound - 1 else bound, cant - 1, shrinking)
  }

  function SignOff(cant: nat): string {
    if cant == 0 then "+OK POP3 server signing off (maildrop empty)\r\n"
    else "+OK POP3 server signing off (" + Dec(cant) + " message" + (if cant == 1 then "" else "s") + " left)\r\n"
  }

  function ExecQuit(m: Mail): (Mail, Reply)
    requires m.Valid()
  {
    var s := SweepFrom(m.store, m.name, m.files, 0, m.cant, m.cant, true);
    if s.failed then
      (m.(phase := UPDATE, cant := s.cant, store := s.store), Line("-ERR some deleted messages not removed\r\n"))
    else
      (m.(phase := CLOSED, cant := s.cant, store := s.store), Line(SignOff(s.cant)))
  }

  function ExecAuth(m: Mail, c: Command): (Mail, Reply)
    requires m.Valid()
  {
    match c.keyword
    case QUIT => ExecQuit(m)
    case STAT => (m, Line(StatText(m)))
    case LIST => (m, ExecList(m, c.arg1))
    case RETR => (m, ExecRetr(m, c.arg1))
    case DELE => ExecDele(m, c.arg1)
    case NOOP => (m, Line("+OK\r\n"))
    case RSET => ExecRset(m)
    case CAPA => (m, Line(CAPA_AUTH))
    case _ => (m, Line(UNKNOWN))
  }

  /** `executeCommand`: the table is chosen by the phase; in CLOSED there is none. */
  function Exec(users: set<(string, string)>, m: Mail, c: Command): (Mail, Reply)
    requires m.Valid() && m.phase != CLOSED
  {
    if m.phase == TRANSACTION then ExecAuth(m, c) else ExecNonAuth(users, m, c)
  }

  // ----- what every command keeps -----

  lemma {:induction false} SizeUpdate(files: seq<FileEntry>, i: nat)
    requires i < |files| && !files[i].deleted
    ensures var marked := files[i := files[i].(deleted := true)];
            Count(marked) == Count(files) - 1 && Size(marked) == Size(files) - files[i].size
    decreases |files|
  {
    var marked, n := files[i := files[i].(deleted := true)], |files| - 1;
    if i < n {
      SizeUpdate(files[..n], i);
      assert marked[..n] == files[..n][i := files[i].(deleted := true)];
    } else {
      assert marked[..n] == files[..n];
    }
  }

  lemma {:induction false} CountBound(files: seq<FileEntry>)
    ensures Count(files) <= |files|
    ensures (forall f :: f in files ==> !f.deleted) ==> Count(files) == |files|
    decreases |files|
  {
    if files != [] {
      CountBound(files[..|files| - 1]);
    }
  }

  lemma {:induction false} WithoutNames(dir: seq<Message>, name: string, other: string)
    ensures Named(Without(dir, name), other) <==> Named(dir, other) && other != name
  {
    if dir != [] {
      WithoutNames(dir[1..], name, other);
      assert ([dir[0]] + Without(dir[1..], name))[1..] == Without(dir[1..], name);
    }
  }

  lemma {:induction false} WithoutKeepsDistinct(dir: seq<Message>, name: string)
    requires DistinctNames(dir)
    ensures DistinctNames(Without(dir, name))
  {
    if dir != [] {
      WithoutKeepsDistinct(dir[1..], name);
      WithoutNames(dir[1..], name, dir[0].name);
      assert ([dir[0]] + Without(dir[1..], name))[1..] == Without(dir[1..], name);
    }
  }

  lemma {:induction false} RemoveKeepsValid(store: Store, user: Option<string>, name: string)
    requires store.Valid() && store.Remove(user, name).Some?
    ensures store.Remove(user, name).value.Valid()
  {
    WithoutKeepsDistinct(store.dirs[user.value], name);
  }

  lemma {:induction false} SweepKeepsValid(store: Store, user: Option<string>, files: seq<FileEntry>, i: nat,
                                           bound: nat, cant: nat, shrinking: bool)
    requires bound <= |files| && i <= |files| && store.Valid()
    requires cant >= (if shrinking then bound else bound - i)
    ensures var s := SweepFrom(store, user, files, i, bound, cant, shrinking); s.store.Valid() && s.cant <= cant
    decreases |files| - i
  {
    if i < bound {
      if !files[i].deleted {
        SweepKeepsValid(store, user, files, i + 1, bound, cant, shrinking);
      } else if store.Remove(user, files[i].name).Some? {
        RemoveKeepsValid(store, user, files[i].name);
        SweepKeepsValid(store.Remove(user, files[i].name).value, user, files, i + 1,
                        if shrinking then bound - 1 else bound, cant - 1, shrinking);
      }
    }
  }

  lemma {:induction false} QuitKeepsValid(m: Mail)
    requires m.Valid() && m.phase == TRANSACTION
    ensures ExecQuit(m).0.Valid()
    ensures ExecQuit(m).0.phase == UPDATE || ExecQuit(m).0.phase == CLOSED
  {
    SweepKeepsValid(m.store, m.name, m.files, 0, m.cant, m.cant, true);
  }

  lemma {:induction false} MarksKeepValid(m: Mail, arg: string)
    requires m.Valid() && m.phase == TRANSACTION
    ensures ExecDele(m, arg).0.Valid() && ExecDele(m, arg).0.phase == TRANSACTION && ExecDele(m, arg).1.Line?
    ensures ExecRset(m).0.Valid() && ExecRset(m).0.phase == TRANSACTION && ExecRset(m).1.Line?
  {
    hide Dec;
  }

  lemma {:induction false} PopulateKeepsValid(m: Mail)
    requires m.Valid() && m.phase != CLOSED && m.name.Some?
    ensures Populate(m).(phase := TRANSACTION).Valid()
  {
  }

  lemma {:induction false} ExecKeepsValid(users: set<(string, string)>, m: Mail, c: Command)
    requires m.Valid() && m.phase != CLOSED
    ensures Exec(users, m, c).0.Valid()
    ensures !Exec(users, m, c).1.Line? ==> m.phase == TRANSACTION && Exec(users, m, c).0 == m
  {
    hide ExecDele, ExecRset, ExecQuit, Populate, Dec;
    if m.phase == TRANSACTION {
      QuitKeepsValid(m);
      MarksKeepValid(m, c.arg1);
      assert ExecQuit(m).1.Line? by { QuitAnswersALine(m); }
    } else if m.name.Some? {
      PopulateKeepsValid(m);
    }
  }

  lemma {:induction false} QuitAnswersALine(m: Mail)
    requires m.Valid()
    ensures ExecQuit(m).1.Line?
  {
  }

  // ----- the counters -----

  /** Where the table's ids stop being those of the entries' positions, from i on. */
  function ListedFrom(files: seq<FileEntry>, i: nat): (n: nat)
    requires i <= |files|
    ensures i <= n <= |files|
    ensures forall k :: i <= k < n ==> files[k].id == k + 1
    ensures n < |files| ==> files[n].id != n + 1
    decreases |files| - i
  {
    if i < |files| && files[i].id == i + 1 then ListedFrom(files, i + 1) else i
  }

  /** The number of entries that the last login with a folder has put into the table; QUIT does not lower it. */
  function Listed(files: seq<FileEntry>): nat {
    ListedFrom(files, 0)
  }

  /** The counters are those of all entries listed. */
  ghost predicate Tallied(m: Mail) {
    && m.activeCant == Count(m.files[..Listed(m.files)])
    && m.activeSize == Size(m.files[..Listed(m.files)]) % TWO_32
  }

  /** A QUIT that failed has shortened the table by an entry that is not marked. */
  ghost predicate CutOff(m: Mail) {
    exists i :: m.cant <= i < Listed(m.files) && !m.files[i].deleted
  }

  lemma {:induction false} SumsConcat(a: seq<FileEntry>, b: seq<FileEntry>)
    ensures Count(a + b) == Count(a) + Count(b) && Size(a + b) == Size(a) + Size(b)
    decreases |b|
  {
    if b == [] {
      assert a + b == a;
    } else {
      var n := |b| - 1;
      assert (a + b)[..|a| + n] == a + b[..n];
      SumsConcat(a, b[..n]);
    }
  }

  /** Entries without a mark count, however they are cut. */
  lemma {:induction false} SumsSplit(files: seq<FileEntry>, i: nat, n: nat)
    requires i <= n <= |files|
    ensures Count(files[..n]) == Count(files[..i]) + Count(files[i..n])
    ensures Size(files[..n]) == Size(files[..i]) + Size(files[i..n])
  {
    assert files[..n] == files[..i] + files[i..n];
    SumsConcat(files[..i], files[i..n]);
  }

  lemma {:induction false} NoneCounts(files: seq<FileEntry>)
    ensures Count(files) == 0 <==> forall i :: 0 <= i < |files| ==> files[i].deleted
    ensures Count(files) == 0 ==> Size(files) == 0
    decreases |files|
  {
    if files != [] {
      var n := |files| - 1;
      NoneCounts(files[..n]);
      assert forall i :: 0 <= i < n ==> files[..n][i] == files[i];
    }
  }

  lemma {:induction false} ListedIs(files: seq<FileEntry>, n: nat)
    requires n <= |files| && (forall k :: 0 <= k < n ==> files[k].id == k + 1) && (n < |files| ==> files[n].id != n + 1)
    ensures Listed(files) == n
  {
  }

  lemma {:induction false} ListedByIds(files: seq<FileEntry>, other: seq<FileEntry>)
    requires |files| == |other| && forall i :: 0 <= i < |files| ==> files[i].id == other[i].id
    ensures Listed(files) == Listed(other)
  {
    ListedIs(other, Listed(files));
  }

  lemma {:induction false} ListedHoldsCant(m: Mail)
    requires m.Valid()
    ensures m.cant <= Listed(m.files) <= |m.files|
  {
  }

  /** What the counters count, against what the table's length now covers. */
  lemma {:induction false} CountedBeyond(files: seq<FileEntry>, cant: nat, n: nat)
    requires cant <= n <= |files|
    ensures Count(files[..n]) == Count(files[..cant]) <==> forall i :: cant <= i < n ==> files[i].deleted
    ensures Count(files[..n]) == Count(files[..cant]) ==> Size(files[..n]) == Size(files[..cant])
  {
    SumsSplit(files, cant, n);
    NoneCounts(files[cant..n]);
    assert forall i :: cant <= i < n ==> files[cant..n][i - cant] == files[i];
    assert forall i :: 0 <= i < n - cant ==> files[cant..n][i] == files[cant + i];
  }

  /** The counters are right if and only if no unmarked entry has been cut off. */
  lemma {:induction false} AccountedUnlessCutOff(m: Mail)
    requires m.Valid() && Tallied(m)
    ensures m.Accounted() <==> !CutOff(m)
  {
    hide Count, Size, Listed;
    ListedHoldsCant(m);
    CountedBeyond(m.files, m.cant, Listed(m.files));
  }

  /** What a QUIT does to right counters: they stay right if and only if it cuts off marked entries only. */
  lemma {:induction false} QuitMiscounts(m: Mail)
    requires m.Valid() && m.phase == TRANSACTION && m.Accounted()
    ensures var q := ExecQuit(m).0;
            && q.cant <= m.cant
            && (q.Accounted() <==> forall i :: q.cant <= i < m.cant ==> m.files[i].deleted)
  {
    hide Count, Size, SweepFrom, Dec;
    SweepKeepsValid(m.store, m.name, m.files, 0, m.cant, m.cant, true);
    CountedBeyond(m.files, ExecQuit(m).0.cant, m.cant);
  }

  lemma {:induction false} PopulateTallies(m: Mail)
    requires m.Valid() && m.name.Some? && m.name.value in m.store.dirs
    ensures Tallied(Populate(m)) && Listed(Populate(m).files) == Populate(m).cant
  {
    hide Size, Listed;
    var p := Populate(m);
    ListedIs(p.files, p.cant);
    CountBound(p.files[..p.cant]);
  }

  lemma {:induction false} MarkedSums(files: seq<FileEntry>, k: nat, n: nat)
    requires k < n <= |files| && !files[k].deleted
    ensures var marked := files[k := files[k].(deleted := true)];
            Count(marked[..n]) == Count(files[..n]) - 1 && Size(marked[..n]) == Size(files[..n]) - files[k].size
  {
    SizeUpdate(files[..n], k);
    assert files[..n][k := files[k].(deleted := true)] == files[k := files[k].(deleted := true)][..n];
  }

  /** What a DELE changes. */
  lemma {:induction false} DeleMarks(m: Mail, arg: string)
    requires m.Valid()
    ensures var q, i := ExecDele(m, arg).0, m.Slot(Atoi(arg));
            if i.Some? && !m.files[i.value].deleted
            then q == m.(files := m.files[i.value := m.files[i.value].(deleted := true)],
                         activeCant := (m.activeCant - 1) % TWO_32,
                         activeSize := (m.activeSize - m.files[i.value].size) % TWO_32)
            else q == m
  {
    hide Dec, Atoi;
  }

  lemma {:induction false} WrapLess(a: int, d: int)
    ensures (a % TWO_32 - d) % TWO_32 == (a - d) % TWO_32
  {
  }

  lemma {:induction false} MarkingTallies(m: Mail, arg: string)
    requires m.Valid() && Tallied(m)
    ensures Tallied(ExecDele(m, arg).0)
  {
    hide Count, Size, Dec, Atoi, Listed, ExecDele;
    DeleMarks(m, arg);
    ListedHoldsCant(m);
    var i, n := m.Slot(Atoi(arg)), Listed(m.files);
    if i.Some? && !m.files[i.value].deleted {
      var k := i.value;
      MarkedSums(m.files, k, n);
      ListedByIds(m.files, m.files[k := m.files[k].(deleted := true)]);
      CountBound(m.files[..n]);
      WrapLess(Size(m.files[..n]), m.files[k].size);
    }
  }

  lemma {:induction false} RsetTallies(m: Mail)
    requires m.Valid() && Tallied(m)
    ensures Tallied(ExecRset(m).0)
  {
    hide Count, Size, Dec, Listed;
    var all, n := Unmarked(m.files, m.cant), Listed(m.files);
    ListedHoldsCant(m);
    ListedByIds(m.files, all);
    SumsSplit(m.files, m.cant, n);
    SumsSplit(all, m.cant, n);
    assert all[m.cant..n] == m.files[m.cant..n];
    CountBound(all[..n]);
    var was, now := Size(m.files[..n]), Size(all[..n]);
    assert (was % TWO_32 + now - was) % TWO_32 == now % TWO_32;
  }

  /** Whatever the command, the counters are those of all entries listed. */
  lemma {:induction false} ExecKeepsTally(users: set<(string, string)>, m: Mail, c: Command)
    requires m.Valid() && Tallied(m) && m.phase != CLOSED
    ensures Tallied(Exec(users, m, c).0)
  {
    hide ExecDele, ExecRset, Populate, Dec, Count, Size, Listed, SweepFrom;
    if m.phase == TRANSACTION {
      MarkingTallies(m, c.arg1);
      RsetTallies(m);
    } else if c.keyword == PASS && m.name.Some? {
      PassTallies(m);
    }
  }

  lemma {:induction false} PassTallies(m: Mail)
    requires m.Valid() && Tallied(m) && m.name.Some?
    ensures Tallied(Populate(m))
    ensures CutOff(Populate(m)) <==> CutOff(m) && m.name.value !in m.store.dirs
  {
    hide Count, Size, Listed;
    if m.name.value in m.store.dirs {
      PopulateTallies(m);
    }
  }

  /**
   * A user without a folder logs in after a QUIT that failed and cut off an unmarked entry: table and counters stay.
   */
  ghost predicate StaleLogin(users: set<(string, string)>, m: Mail, c: Command) {
    && m.phase == UPDATE && c.keyword == PASS
    && m.name.Some? && (m.name.value, c.arg1) in users && m.name.value !in m.store.dirs
    && CutOff(m)
  }

  /** Outside UPDATE the counters are right. */
  ghost predicate Books(m: Mail) {
    m.Valid() && Tallied(m) && (m.phase == AUTHORIZATION || m.phase == TRANSACTION ==> m.Accounted())
  }

  lemma {:induction false} MarkingAccounts(m: Mail, arg: string)
    requires m.Valid() && m.Accounted()
    ensures ExecDele(m, arg).0.Accounted()
  {
    hide Count, Size, Dec, Atoi;
    var i := m.Slot(Atoi(arg));
    if i.Some? && !m.files[i.value].deleted {
      var k := i.value;
      SizeUpdate(m.files[..m.cant], k);
      CountBound(m.files[..m.cant]);
      assert m.files[..m.cant][k := m.files[k].(deleted := true)]
          == m.files[k := m.files[k].(deleted := true)][..m.cant];
    }
  }

  lemma {:induction false} RsetAccounts(m: Mail)
    requires m.Valid() && m.Accounted()
    ensures ExecRset(m).0.Accounted()
  {
    hide Count, Size, Dec, Unmarked;
    var all := Unmarked(m.files, m.cant);
    CountBound(all[..m.cant]);
    var was, now := Size(m.files[..m.cant]), Size(all[..m.cant]);
    assert (was % TWO_32 + now - was) % TWO_32 == now % TWO_32;
  }

  /** Every command keeps the books, if and only if it is not a stale login. */
  lemma {:induction false} ExecKeepsBooks(users: set<(string, string)>, m: Mail, c: Command)
    requires Books(m) && m.phase != CLOSED
    ensures Books(Exec(users, m, c).0) <==> !StaleLogin(users, m, c)
  {
    hide ExecDele, ExecRset, ExecQuit, Populate, Dec, Tallied, CutOff;
    ExecKeepsValid(users, m, c);
    ExecKeepsTally(users, m, c);
    if m.phase == TRANSACTION {
      MarkingAccounts(m, c.arg1);
      RsetAccounts(m);
      QuitKeepsValid(m);
    } else if c.keyword == PASS && m.name.Some? && (m.name.value, c.arg1) in users {
      PassTallies(m);
      PopulateKeepsValid(m);
      AccountedUnlessCutOff(Populate(m).(phase := TRANSACTION));
      AccountedUnlessCutOff(m);
      SamePhase(Populate(m));
    }
  }

  lemma {:induction false} SamePhase(m: Mail)
    ensures Tallied(m.(phase := TRANSACTION)) <==> Tallied(m)
    ensures CutOff(m.(phase := TRANSACTION)) <==> CutOff(m)
  {
  }
}
