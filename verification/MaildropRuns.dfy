/** What whole runs of commands do to a maildrop: accounting, RSET, QUIT and login. */
module MaildropRuns {
  import opened Text
  import opened Commands
  import opened Maildrop

  /** A command together with the user table at that moment. */
  datatype Step = Step(users: set<(string, string)>, cmd: Command)

  /** The maildrop after a run of commands; nothing is executed once the phase is CLOSED. */
  function After(m: Mail, steps: seq<Step>): (r: Mail)
    requires m.Valid()
    ensures r.Valid()
    decreases |steps|
  {
    if steps == [] then m else
    var before := After(m, steps[..|steps| - 1]);
    var last := steps[|steps| - 1];
    if before.phase == CLOSED then before else
    ExecKeepsValid(last.users, before, last.cmd);
    Exec(last.users, before, last.cmd).0
  }

  lemma {:induction false} NothingDone(m: Mail)
    requires m.Valid()
    ensures After(m, []) == m
  {
  }

  function StateAt(m: Mail, steps: seq<Step>, k: nat): (r: Mail)
    requires m.Valid() && k <= |steps|
    ensures r.Valid()
  {
    After(m, steps[..k])
  }

  lemma {:induction false} StateAtStep(m: Mail, steps: seq<Step>, k: nat)
    requires m.Valid() && k < |steps|
    ensures StateAt(m, steps, k + 1) ==
            if StateAt(m, steps, k).phase == CLOSED then StateAt(m, steps, k)
            else Exec(steps[k].users, StateAt(m, steps, k), steps[k].cmd).0
  {
    assert steps[..k + 1][..k] == steps[..k];
  }

  // ----- accounting -----

  lemma {:induction false} BooksKept(m: Mail, steps: seq<Step>, k: nat)
    requires m.Valid() && Books(m) && k <= |steps|
    requires forall i :: 0 <= i < k ==> !StaleLogin(steps[i].users, StateAt(m, steps, i), steps[i].cmd)
    ensures Books(StateAt(m, steps, k))
  {
    hide Books, StaleLogin, Exec;
    if k == 0 {
      NothingYet(m, steps);
    } else {
      BooksKept(m, steps, k - 1);
      NextBooks(m, steps, k - 1);
    }
  }

  lemma {:induction false} NextBooks(m: Mail, steps: seq<Step>, k: nat)
    requires m.Valid() && k < |steps| && Books(StateAt(m, steps, k))
    ensures Books(StateAt(m, steps, k + 1)) <==> !StaleLogin(steps[k].users, StateAt(m, steps, k), steps[k].cmd)
  {
    hide Books, Exec, StateAt;
    StateAtStep(m, steps, k);
    var s := StateAt(m, steps, k);
    if s.phase != CLOSED {
      ExecKeepsBooks(steps[k].users, s, steps[k].cmd);
    }
  }

  /** In every run the counters are those of all entries that the last login listed. */
  lemma {:induction false} TallyOverRuns(store: Store, steps: seq<Step>)
    requires store.Valid()
    ensures Tallied(After(InitialMail(store), steps))
    decreases |steps|
  {
    hide Exec;
    if steps != [] {
      var n := |steps| - 1;
      TallyOverRuns(store, steps[..n]);
      var before := After(InitialMail(store), steps[..n]);
      if before.phase != CLOSED {
        ExecKeepsTally(steps[n].users, before, steps[n].cmd);
      }
    }
  }

  /** The counters agree with the marks all along a run, if and only if no login of the run is stale. */
  lemma {:induction false} BooksOverRuns(store: Store, steps: seq<Step>)
    requires store.Valid()
    ensures var m := InitialMail(store);
            ((forall k :: 0 <= k <= |steps| ==> Books(StateAt(m, steps, k)))
             <==> forall k :: 0 <= k < |steps| ==> !StaleLogin(steps[k].users, StateAt(m, steps, k), steps[k].cmd))
  {
    var m := InitialMail(store);
    assert Books(m);
    hide Books, StaleLogin, StateAt;
    if forall k :: 0 <= k < |steps| ==> !StaleLogin(steps[k].users, StateAt(m, steps, k), steps[k].cmd) {
      forall k | 0 <= k <= |steps| ensures Books(StateAt(m, steps, k)) {
        BooksKept(m, steps, k);
      }
    } else {
      var k :| 0 <= k < |steps| && StaleLogin(steps[k].users, StateAt(m, steps, k), steps[k].cmd);
      if Books(StateAt(m, steps, k)) {
        NextBooks(m, steps, k);
        assert !Books(StateAt(m, steps, k + 1));
      }
    }
  }

  lemma {:induction false} AfterNext(m: Mail, steps: seq<Step>, s: Step)
    requires m.Valid()
    ensures After(m, steps + [s])
         == if After(m, steps).phase == CLOSED then After(m, steps) else Exec(s.users, After(m, steps), s.cmd).0
  {
    assert (steps + [s])[..|steps|] == steps;
  }

  /** A folder of three messages; the second cannot be removed. */
  function StuckStore(): (s: Store)
    ensures s.Valid()
  {
    Store(map["a" := [Message("1", ""), Message("2", ""), Message("3", "")]], {("a", "2")})
  }

  /** Both of the first two messages marked; QUIT removes one and then fails, with two entries and one active. */
  lemma {:induction false} QuitHalfDone(m: Mail)
    requires m.Valid() && m.phase == TRANSACTION && m.name == Some("a") && m.store == StuckStore() && m.cant == 3
    requires m.files[0].deleted && m.files[0].name == "1" && m.files[1].deleted && m.files[1].name == "2"
    ensures var q := ExecQuit(m).0;
            && q.phase == UPDATE && q.cant == 2 && q.files == m.files
            && q.activeCant == m.activeCant && q.store.dirs.Keys == {"a"}
  {
    hide Dec, SignOff;
    var dir := m.store.dirs["a"];
    assert Named(dir, "1");
    var next := m.store.Remove(m.name, "1").value;
    assert next.Remove(m.name, "2") == None;
    assert SweepFrom(next, m.name, m.files, 1, 2, 2, true) == Sweep(next, 2, true);
  }

  /** A fresh login to that folder. */
  lemma {:induction false} StuckLogin()
    ensures var m := InitialMail(StuckStore()).(name := Some("a"));
            && m.Valid()
            && var t := Populate(m).(phase := TRANSACTION);
            && t.Valid() && t.cant == t.activeCant == 3 && t.files[0].name == "1" && t.files[1].name == "2"
            && !t.files[0].deleted && !t.files[1].deleted && t.store == StuckStore() && t.name == Some("a")
  {
    hide Size, Count;
    PopulateKeepsValid(InitialMail(StuckStore()).(name := Some("a")));
  }

  lemma {:induction false} SmallIds()
    ensures Atoi("1") == 1 && Atoi("2") == 2
  {
    assert "1"[1..] == "" && "2"[1..] == "";
    assert Digits("1", 0) == Digits("", 1) && Digits("2", 0) == Digits("", 2);
  }

  lemma {:induction false} MarkBoth(t: Mail)
    requires t.Valid() && t.phase == TRANSACTION && t.cant == t.activeCant == 3 && !t.files[0].deleted
    requires !t.files[1].deleted
    ensures var u := ExecDele(ExecDele(t, "1").0, "2").0;
            && ExecDele(t, "1").0.Valid() && ExecDele(t, "1").0.phase == TRANSACTION
            && u.Valid() && u == t.(files := u.files, activeCant := 1, activeSize := u.activeSize)
            && u.files[0] == t.files[0].(deleted := true) && u.files[1] == t.files[1].(deleted := true)
  {
    hide Dec, Atoi;
    SmallIds();
    MarksKeepValid(t, "1");
    MarksKeepValid(ExecDele(t, "1").0, "2");
  }

  /** The login without a folder that follows. */
  lemma {:induction false} NextLogin(users: set<(string, string)>, q: Mail)
    requires q.Valid() && q.phase == UPDATE && q.cant == 2 && q.activeCant == 1 && q.files[0].deleted
    requires q.files[1].deleted
    requires ("b", "p") in users && "b" !in q.store.dirs
    ensures var named := Exec(users, q, Command(USER, "b", "")).0;
            && named.Valid() && named.phase == UPDATE
            && !Books(Exec(users, named, Command(PASS, "p", "")).0)
  {
    hide Size, Count, Dec;
    assert Count(q.files[..2]) == 0 by {
      NobodyUnmarked(q.files);
    }
  }

  /** Log in there and mark the first two messages. */
  lemma {:induction false} MarkedRun(users: set<(string, string)>) returns (steps: seq<Step>)
    requires ("a", "p") in users
    ensures var u := After(InitialMail(StuckStore()), steps);
            && u.phase == TRANSACTION && u.name == Some("a") && u.store == StuckStore() && u.cant == 3
            && u.activeCant == 1
            && u.files[0].deleted && u.files[0].name == "1" && u.files[1].deleted && u.files[1].name == "2"
  {
    hide Dec, ExecQuit, ExecDele, ExecRset, ExecList, ExecRetr, StatText, Populate, StuckStore, After;
    var m := InitialMail(StuckStore());
    var s2 := [] + [Step(users, Command(USER, "a", ""))] + [Step(users, Command(PASS, "p", ""))];
    var s3 := s2 + [Step(users, Command(DELE, "1", ""))];
    AfterLogin(users, m, "a", "p");
    StuckLogin();
    AfterNext(m, s2, Step(users, Command(DELE, "1", "")));
    AfterNext(m, s3, Step(users, Command(DELE, "2", "")));
    MarkBoth(After(m, s2));
    steps := s3 + [Step(users, Command(DELE, "2", ""))];
  }

  /** Two DELEs, a QUIT whose second removal fails, a login without a folder: STAT then counts a message too many. */
  lemma {:induction false} StaleLoginBreaksBooks()
    ensures exists steps :: !Books(After(InitialMail(StuckStore()), steps))
  {
    hide Dec, ExecQuit, ExecDele, ExecRset, ExecList, ExecRetr, StatText, Populate, StuckStore, Books, After;
    var users := {("a", "p"), ("b", "p")};
    var m := InitialMail(StuckStore());
    var s4 := MarkedRun(users);
    var s5 := s4 + [Step(users, Command(QUIT, "", ""))];
    var s6 := s5 + [Step(users, Command(USER, "b", ""))];
    AfterNext(m, s4, Step(users, Command(QUIT, "", "")));
    QuitHalfDone(After(m, s4));
    AfterNext(m, s5, Step(users, Command(USER, "b", "")));
    AfterNext(m, s6, Step(users, Command(PASS, "p", "")));
    NextLogin(users, After(m, s5));
  }

  lemma {:induction false} AfterLogin(users: set<(string, string)>, m: Mail, name: string, pass: string)
    requires m.Valid() && m.phase == AUTHORIZATION && (name, pass) in users
    ensures var steps := [] + [Step(users, Command(USER, name, ""))] + [Step(users, Command(PASS, pass, ""))];
            m.(name := Some(name)).Valid() && After(m, steps) == Populate(m.(name := Some(name))).(phase := TRANSACTION)
  {
    hide Populate;
    AfterNext(m, [], Step(users, Command(USER, name, "")));
    AfterNext(m, [] + [Step(users, Command(USER, name, ""))], Step(users, Command(PASS, pass, "")));
  }

  lemma {:induction false} NobodyUnmarked(files: seq<FileEntry>)
    requires |files| >= 2 && files[0].deleted && files[1].deleted
    ensures Count(files[..2]) == 0
  {
    assert files[..2][..1] == [files[0]] && [files[0]][..0] == [];
    assert Count([files[0]]) == 0;
  }

  // ----- RSET -----

  /** RSET would make the same of both. */
  ghost predicate Restorable(m0: Mail, m: Mail) {
    m0.Valid() && m.Valid() && m0.phase == TRANSACTION && ExecRset(m).0 == ExecRset(m0).0
  }

  lemma {:induction false} MarkingKeepsRestorable(m0: Mail, m: Mail, arg: string)
    requires Restorable(m0, m)
    ensures Restorable(m0, ExecDele(m, arg).0)
  {
    hide Dec, Atoi, Count, Size;
    MarksKeepValid(m, arg);
    var q, i := ExecDele(m, arg).0, m.Slot(Atoi(arg));
    assert Unmarked(q.files, q.cant) == Unmarked(m.files, m.cant);
    if i.Some? && !m.files[i.value].deleted {
      var k, f := i.value, m.files[i.value];
      SizeUpdate(m.files[..m.cant], k);
      assert m.files[..m.cant][k := f.(deleted := true)] == q.files[..q.cant];
      SameAfterMark(m.activeCant, Count(Unmarked(m.files, m.cant)[..m.cant]) - Count(m.files[..m.cant]), 1);
      SameAfterMark(m.activeSize, Size(Unmarked(m.files, m.cant)[..m.cant]) - Size(m.files[..m.cant]), f.size);
    }
  }

  /** What a mark takes off a counter, RSET adds again. */
  lemma {:induction false} SameAfterMark(counter: int, gain: int, d: int)
    ensures ((counter - d) % TWO_32 + (gain + d)) % TWO_32 == (counter + gain) % TWO_32
  {
  }

  lemma {:induction false} RsetTwice(m0: Mail, m: Mail)
    requires Restorable(m0, m)
    ensures Restorable(m0, ExecRset(m).0)
  {
    OnlyMarksChanged(m0, m);
    MarksKeepValid(m, "");
    hide ExecRset;
    RsetLeavesUnmarked(m);
    RsetOfUnmarked(ExecRset(m).0);
  }

  lemma {:induction false} RsetLeavesUnmarked(m: Mail)
    requires m.Valid()
    ensures var r := ExecRset(m).0; |r.files| == MAX_EMAILS && forall i :: 0 <= i < r.cant ==> !r.files[i].deleted
  {
    hide Dec, Count, Size;
  }

  lemma {:induction false} ExecKeepsRestorable(users: set<(string, string)>, m0: Mail, m: Mail, c: Command)
    requires Restorable(m0, m) && c.keyword != QUIT
    ensures Restorable(m0, Exec(users, m, c).0)
  {
    hide Restorable, ExecDele, ExecRset;
    OnlyMarksChanged(m0, m);
    MarkingKeepsRestorable(m0, m, c.arg1);
    RsetTwice(m0, m);
  }

  lemma {:induction false} OnlyMarksChanged(m0: Mail, m: Mail)
    requires Restorable(m0, m)
    ensures m.phase == TRANSACTION && m.Valid()
    ensures m.cant == m0.cant && m.name == m0.name && m.store == m0.store
    ensures Unmarked(m.files, m.cant) == Unmarked(m0.files, m0.cant)
  {
    hide Count, Size, Dec, Unmarked;
  }

  /** RSET brings back a state exactly if it had no marks. */
  lemma {:induction false} RsetOfUnmarked(m: Mail)
    requires m.Valid()
    ensures ExecRset(m).0 == m <==> forall i :: 0 <= i < m.cant ==> !m.files[i].deleted
  {
    hide Count, Size, Dec;
    var all := Unmarked(m.files, m.cant);
    if forall i :: 0 <= i < m.cant ==> !m.files[i].deleted {
      assert all == m.files;
    } else {
      var i :| 0 <= i < m.cant && m.files[i].deleted;
      assert !all[i].deleted;
    }
  }

  /**
   * After any commands but QUIT, RSET does what it would have done at the login; it gives back the very state of the
   * login if and only if that had no marks, as it always has unless the user has no folder.
   */
  lemma {:induction false} RsetRestoresLogin(m0: Mail, steps: seq<Step>)
    requires m0.Valid() && m0.phase == TRANSACTION
    requires forall s :: s in steps ==> s.cmd.keyword != QUIT
    ensures Restorable(m0, After(m0, steps))
    ensures ExecRset(After(m0, steps)).0 == m0 <==> forall i :: 0 <= i < m0.cant ==> !m0.files[i].deleted
    decreases |steps|
  {
    RsetOfUnmarked(m0);
    hide ExecRset;
    if steps != [] {
      var n := |steps| - 1;
      RsetRestoresLogin(m0, steps[..n]);
      OnlyMarksChanged(m0, After(m0, steps[..n]));
      ExecKeepsRestorable(steps[n].users, m0, After(m0, steps[..n]), steps[n].cmd);
    }
  }

  // ----- DELE -----

  /** After a DELE the message is gone for LIST, RETR and DELE, and every other one is as it was. */
  lemma {:induction false} DeletedIsGone(m: Mail, arg: string, other: string)
    requires m.Valid() && m.phase == TRANSACTION
    ensures var (q, reply) := ExecDele(m, arg);
            && (reply.text[0] == '+' <==> m.Slot(Atoi(arg)).Some? && !m.files[m.Slot(Atoi(arg)).value].deleted)
            && ExecDele(q, arg).0 == q && ExecDele(q, arg).1.text[0] == '-'
            && ExecRetr(q, other) == (if Atoi(other) == Atoi(arg) then Line(NO_MESSAGE) else ExecRetr(m, other))
            && (Atoi(other) != Atoi(arg) && other != "" ==> ExecList(q, other) == ExecList(m, other))
            && (m.Slot(Atoi(arg)).Some? && arg != "" ==> ExecList(q, arg) == Line("-ERR message is deleted\r\n"))
  {
    hide Dec, Atoi;
  }

  // ----- QUIT -----

  function MarkedBefore(files: seq<FileEntry>, i: nat): nat
    requires i <= |files|
  {
    if i == 0 then 0 else MarkedBefore(files, i - 1) + if files[i - 1].deleted then 1 else 0
  }

  /** The removal loop looks at entry i: as written its bound has shrunk once per removal before i. */
  predicate Visited(files: seq<FileEntry>, n: nat, i: nat, shrinking: bool)
    requires i <= |files|
  {
    i + (if shrinking then MarkedBefore(files, i) else 0) < n
  }

  /** The user's files that cannot be removed. */
  function Pins(store: Store, u: string): set<string> {
    set p | p in store.pinned && p.0 == u :: p.1
  }

  /** The removal of entry i is tried and fails. */
  predicate Fails(pins: set<string>, files: seq<FileEntry>, n: nat, i: nat, shrinking: bool)
    requires i < |files|
  {
    files[i].deleted && Visited(files, n, i, shrinking) && files[i].name in pins
  }

  predicate AnyFails(pins: set<string>, files: seq<FileEntry>, n: nat, i: nat, shrinking: bool)
    requires n <= |files|
  {
    exists j :: i <= j < n && Fails(pins, files, n, j, shrinking)
  }

  /** Entry i is removed: it is marked, the loop visits it, and no removal up to it has failed. */
  predicate Gone(pins: set<string>, files: seq<FileEntry>, n: nat, i: nat, shrinking: bool)
    requires i < |files|
  {
    && files[i].deleted && Visited(files, n, i, shrinking)
    && forall j :: 0 <= j <= i ==> !Fails(pins, files, n, j, shrinking)
  }

  /** What is left of `dir` from index i on. */
  function Survivors(pins: set<string>, dir: seq<Message>, files: seq<FileEntry>, i: nat, shrinking: bool): seq<Message>
    requires |dir| <= |files|
    decreases |dir| - i
  {
    if i >= |dir| then [] else
    (if Gone(pins, files, |dir|, i, shrinking) then [] else [dir[i]]) + Survivors(pins, dir, files, i + 1, shrinking)
  }

  /** The loop is over at i: it is not visited, or its removal fails. */
  predicate Over(pins: set<string>, files: seq<FileEntry>, n: nat, i: nat, shrinking: bool)
    requires i <= n <= |files|
  {
    !Visited(files, n, i, shrinking) || (i < n && Fails(pins, files, n, i, shrinking))
  }

  lemma {:induction false} NobodyGone(pins: set<string>, dir: seq<Message>, files: seq<FileEntry>, i: nat, k: nat,
                                      shrinking: bool)
    requires i <= k <= |dir| <= |files| && Over(pins, files, |dir|, i, shrinking)
    ensures Survivors(pins, dir, files, k, shrinking) == dir[k..]
    ensures !Visited(files, |dir|, i, shrinking) ==> !AnyFails(pins, files, |dir|, i, shrinking)
    decreases |dir| - k
  {
    hide MarkedBefore;
    forall j | i <= j < |dir| ensures Visited(files, |dir|, j, shrinking) ==> Visited(files, |dir|, i, shrinking) {
      MarkedBeforeMonotone(files, i, j);
    }
    if k < |dir| {
      NobodyGone(pins, dir, files, i, k + 1, shrinking);
      assert dir[k..] == [dir[k]] + dir[k + 1..];
    }
  }

  lemma {:induction false} NamedConcat(a: seq<Message>, b: seq<Message>, name: string)
    ensures Named(a + b, name) <==> Named(a, name) || Named(b, name)
  {
    if a == [] {
      assert a + b == b;
    } else {
      assert (a + b)[1..] == a[1..] + b;
      NamedConcat(a[1..], b, name);
    }
  }

  /** Removing the name of one message from a folder of distinct names removes that message. */
  lemma {:induction false} RemoveOne(a: seq<Message>, msg: Message, b: seq<Message>)
    requires DistinctNames(a + ([msg] + b))
    ensures Named(a + ([msg] + b), msg.name)
    ensures Without(a + ([msg] + b), msg.name) == a + b
    ensures DistinctNames(a + b)
  {
    var all := a + ([msg] + b);
    if a == [] {
      assert all == [msg] + b && all[1..] == b && a + b == b;
    } else {
      assert all[1..] == a[1..] + ([msg] + b) && (a + b)[1..] == a[1..] + b;
      RemoveOne(a[1..], msg, b);
      NamedConcat(a[1..], [msg] + b, a[0].name);
      NamedConcat(a[1..], b, a[0].name);
      NamedConcat([msg], b, a[0].name);
      assert [msg] != [] && Named([msg], msg.name);
      NamedConcat([msg], b, msg.name);
      NamedConcat(a[1..], [msg] + b, msg.name);
      assert [a[0]] + (a[1..] + b) == a + b;
    }
  }

  /** The user's folder is exactly what the table lists. */
  ghost predicate Lists(dir: seq<Message>, files: seq<FileEntry>) {
    |dir| <= |files| && forall i :: 0 <= i < |dir| ==> files[i].name == dir[i].name
  }

  lemma {:induction false} SweepExact(store: Store, u: string, kept: seq<Message>, dir: seq<Message>,
                                      files: seq<FileEntry>,
                                      i: nat, shrinking: bool)
    requires Lists(dir, files) && i <= |dir|
    requires u in store.dirs && store.dirs[u] == kept + dir[i..] && DistinctNames(kept + dir[i..])
    requires |kept| + MarkedBefore(files, i) == i
    requires forall j :: 0 <= j < i ==> !Fails(Pins(store, u), files, |dir|, j, shrinking)
    ensures var pins := Pins(store, u);
            var left := kept + Survivors(pins, dir, files, i, shrinking);
            (SweepAt(store, u, dir, files, i, shrinking)
             == Sweep(store.(dirs := store.dirs[u := left]), |left|, AnyFails(pins, files, |dir|, i, shrinking)))
    decreases |dir| - i
  {
    hide Named, Without, MarkedBefore, Survivors, AnyFails, Pins;
    MarkedNext(files, i);
    var pins := Pins(store, u);
    if i == |dir| || Over(pins, files, |dir|, i, shrinking) {
      SweepStops(store, u, kept, dir, files, i, shrinking);
    } else {
      assert dir[i..] == [dir[i]] + dir[i + 1..];
      RemoveOne(kept, dir[i], dir[i + 1..]);
      SweepStep(store, u, dir, files, i, shrinking);
      NextSurvives(pins, dir, files, i, shrinking);
      if files[i].deleted {
        var next := store.Remove(Some(u), files[i].name).value;
        assert Pins(next, u) == pins by { SamePins(store, next, u); }
        SweepExact(next, u, kept, dir, files, i + 1, shrinking);
        var left := kept + Survivors(pins, dir, files, i + 1, shrinking);
        assert next.dirs[u := left] == store.dirs[u := left];
      } else {
        assert kept + [dir[i]] + dir[i + 1..] == kept + dir[i..];
        SweepExact(store, u, kept + [dir[i]], dir, files, i + 1, shrinking);
        assert kept + Survivors(pins, dir, files, i, shrinking)
            == kept + [dir[i]] + Survivors(pins, dir, files, i + 1, shrinking);
      }
    }
  }

  lemma {:induction false} SamePins(store: Store, next: Store, u: string)
    requires store.pinned == next.pinned
    ensures Pins(store, u) == Pins(next, u)
  {
  }

  /** An entry at which the loop goes on, no removal having failed: it is gone exactly if it is marked. */
  lemma {:induction false} NextSurvives(pins: set<string>, dir: seq<Message>, files: seq<FileEntry>, i: nat,
                                        shrinking: bool)
    requires i < |dir| <= |files| && !Over(pins, files, |dir|, i, shrinking)
    requires forall j :: 0 <= j < i ==> !Fails(pins, files, |dir|, j, shrinking)
    ensures Survivors(pins, dir, files, i, shrinking)
         == (if files[i].deleted then [] else [dir[i]]) + Survivors(pins, dir, files, i + 1, shrinking)
    ensures files[i].deleted ==>
              Survivors(pins, dir, files, i, shrinking) == Survivors(pins, dir, files, i + 1, shrinking)
    ensures AnyFails(pins, files, |dir|, i, shrinking) == AnyFails(pins, files, |dir|, i + 1, shrinking)
  {
    hide MarkedBefore;
  }

  lemma {:induction false} MarkedNext(files: seq<FileEntry>, i: nat)
    requires i <= |files|
    ensures i < |files| ==> MarkedBefore(files, i + 1) == MarkedBefore(files, i) + if files[i].deleted then 1 else 0
  {
  }

  /** The removal loop at index i, when every marked message before i has been removed. */
  function SweepAt(store: Store, u: string, dir: seq<Message>, files: seq<FileEntry>, i: nat, shrinking: bool): Sweep
    requires i <= |dir| <= |files| && MarkedBefore(files, i) <= i
  {
    var gone := MarkedBefore(files, i);
    SweepFrom(store, Some(u), files, i, if shrinking then |dir| - gone else |dir|, |dir| - gone, shrinking)
  }

  lemma {:induction false} SweepStops(store: Store, u: string, kept: seq<Message>, dir: seq<Message>,
                                      files: seq<FileEntry>, i: nat, shrinking: bool)
    requires i <= |dir| <= |files| && |kept| + MarkedBefore(files, i) == i
    requires u in store.dirs && store.dirs[u] == kept + dir[i..]
    requires i == |dir| || Over(Pins(store, u), files, |dir|, i, shrinking)
    ensures var pins := Pins(store, u);
            var left := kept + Survivors(pins, dir, files, i, shrinking);
            (SweepAt(store, u, dir, files, i, shrinking)
             == Sweep(store.(dirs := store.dirs[u := left]), |left|, AnyFails(pins, files, |dir|, i, shrinking)))
  {
    hide MarkedBefore, Survivors, Named, Without, Pins;
    var pins := Pins(store, u);
    NobodyGone(pins, dir, files, i, i, shrinking);
    assert store.dirs[u := kept + dir[i..]] == store.dirs;
    if Visited(files, |dir|, i, shrinking) {
      PinnedStays(store, u, files[i].name);
      assert Fails(pins, files, |dir|, i, shrinking);
    }
  }

  lemma {:induction false} PinnedStays(store: Store, u: string, name: string)
    ensures name in Pins(store, u) <==> (u, name) in store.pinned
    ensures name in Pins(store, u) ==> store.Remove(Some(u), name) == None
  {
    if (u, name) in store.pinned {
      assert (u, name).0 == u && (u, name).1 == name;
    }
  }

  lemma {:induction false} SweepStep(store: Store, u: string, dir: seq<Message>, files: seq<FileEntry>, i: nat,
                                     shrinking: bool)
    requires Lists(dir, files) && i < |dir| && MarkedBefore(files, i) <= i
    requires !Over(Pins(store, u), files, |dir|, i, shrinking)
    requires u in store.dirs && Named(store.dirs[u], files[i].name)
    ensures files[i].deleted ==> store.Remove(Some(u), files[i].name).Some?
    ensures SweepAt(store, u, dir, files, i, shrinking)
         == SweepAt(if files[i].deleted then store.Remove(Some(u), files[i].name).value else store,
                    u, dir, files, i + 1, shrinking)
  {
    hide Named, Without, Pins;
    PinnedStays(store, u, files[i].name);
  }

  /** A session in TRANSACTION whose table is the folder. */
  ghost predicate ReadyToQuit(m: Mail) {
    && m.Valid() && m.phase == TRANSACTION && m.name.value in m.store.dirs
    && var dir := m.store.dirs[m.name.value];
       m.cant == |dir| && DistinctNames(dir) && Lists(dir, m.files)
  }

  /**
   * QUIT as written: the marked messages the loop reaches before the first removal that fails go, nothing else; the
   * count is that of the files left.  It signs off exactly if no removal failed.
   */
  lemma {:induction false} QuitExact(m: Mail)
    requires ReadyToQuit(m)
    ensures var u := m.name.value;
            var dir, pins := m.store.dirs[u], Pins(m.store, u);
            var left := Survivors(pins, dir, m.files, 0, true);
            var q := m.(cant := |left|, store := m.store.(dirs := m.store.dirs[u := left]));
            (ExecQuit(m)
             == if AnyFails(pins, m.files, |dir|, 0, true)
                then (q.(phase := UPDATE), Line("-ERR some deleted messages not removed\r\n"))
                else (q.(phase := CLOSED), Line(
                  if |left| == 0 then "+OK POP3 server signing off (maildrop empty)\r\n"
                  else if |left| == 1 then "+OK POP3 server signing off (1 message left)\r\n"
                  else "+OK POP3 server signing off (" + Dec(|left|) + " messages left)\r\n")))
  {
    hide SignOff, Dec, SweepFrom, Survivors, AnyFails, Pins;
    var u := m.name.value;
    var dir, pins := m.store.dirs[u], Pins(m.store, u);
    assert [] + dir[0..] == dir;
    SweepExact(m.store, u, [], dir, m.files, 0, true);
    SignsOff(|Survivors(pins, dir, m.files, 0, true)|);
    assert [] + Survivors(pins, dir, m.files, 0, true) == Survivors(pins, dir, m.files, 0, true);
  }

  lemma {:induction false} SignsOff(n: nat)
    ensures SignOff(n) == if n == 0 then "+OK POP3 server signing off (maildrop empty)\r\n"
                          else if n == 1 then "+OK POP3 server signing off (1 message left)\r\n"
                          else "+OK POP3 server signing off (" + Dec(n) + " messages left)\r\n"
  {
    assert Dec(1) == "1";
  }

  /** Some marked message cannot be removed. */
  predicate MarkedPinned(pins: set<string>, files: seq<FileEntry>, n: nat)
    requires n <= |files|
  {
    exists i :: 0 <= i < n && files[i].deleted && files[i].name in pins
  }

  /** With the bound fixed before the loop, exactly the marked messages go, unless one cannot be removed. */
  lemma {:induction false} RepairedQuitExact(m: Mail)
    requires ReadyToQuit(m)
    ensures var u := m.name.value;
            var dir, pins := m.store.dirs[u], Pins(m.store, u);
            var left := Survivors(pins, dir, m.files, 0, false);
            && (SweepFrom(m.store, m.name, m.files, 0, m.cant, m.cant, false)
                == Sweep(m.store.(dirs := m.store.dirs[u := left]), |left|, MarkedPinned(pins, m.files, m.cant)))
            && (left == KeepUnmarked(dir, m.files) <==> !MarkedPinned(pins, m.files, m.cant))
  {
    hide Survivors, KeepUnmarked;
    var u := m.name.value;
    var dir, pins := m.store.dirs[u], Pins(m.store, u);
    assert [] + dir[0..] == dir;
    SweepExact(m.store, u, [], dir, m.files, 0, false);
    SurvivorsAgree(pins, dir, m.files, 0, false);
    assert dir[0..] == dir && m.files[0..] == m.files;
    assert [] + Survivors(pins, dir, m.files, 0, false) == Survivors(pins, dir, m.files, 0, false);
    if MarkedPinned(pins, m.files, m.cant) {
      var i :| 0 <= i < m.cant && m.files[i].deleted && m.files[i].name in pins;
      assert Fails(pins, m.files, |dir|, i, false);
    }
  }

  function KeepUnmarked(dir: seq<Message>, files: seq<FileEntry>): seq<Message>
    requires |dir| <= |files|
  {
    if dir == [] then [] else (if files[0].deleted then [] else [dir[0]]) + KeepUnmarked(dir[1..], files[1..])
  }

  /** The largest marked index below n, or -1. */
  function LastMarked(files: seq<FileEntry>, n: nat): (last: int)
    requires n <= |files|
    ensures -1 <= last < n
    ensures last >= 0 ==> files[last].deleted && MarkedBefore(files, last) + 1 == MarkedBefore(files, n)
    ensures forall i :: last < i < n ==> !files[i].deleted
    ensures last == -1 ==> MarkedBefore(files, n) == 0
  {
    if n == 0 then -1 else if files[n - 1].deleted then n - 1 else LastMarked(files, n - 1)
  }

  /** Exactly the unmarked messages are left if and only if every marked one is gone. */
  lemma {:induction false} SurvivorsAgree(pins: set<string>, dir: seq<Message>, files: seq<FileEntry>, i: nat,
                                          shrinking: bool)
    requires i <= |dir| <= |files|
    ensures |Survivors(pins, dir, files, i, shrinking)| >= |KeepUnmarked(dir[i..], files[i..])|
    ensures Survivors(pins, dir, files, i, shrinking) == KeepUnmarked(dir[i..], files[i..])
       <==> forall k :: i <= k < |dir| && files[k].deleted ==> Gone(pins, files, |dir|, k, shrinking)
    decreases |dir| - i
  {
    hide Fails, Visited;
    if i < |dir| {
      SurvivorsAgree(pins, dir, files, i + 1, shrinking);
      assert dir[i..][1..] == dir[i + 1..] && files[i..][1..] == files[i + 1..];
      var s, t := Survivors(pins, dir, files, i + 1, shrinking), KeepUnmarked(dir[i + 1..], files[i + 1..]);
      assert [] + s == s && [] + t == t;
      assert ([dir[i]] + s)[1..] == s && ([dir[i]] + t)[1..] == t;
    }
  }

  lemma {:induction false} MarkedBeforeMonotone(files: seq<FileEntry>, i: nat, j: nat)
    requires i <= j <= |files|
    ensures MarkedBefore(files, i) <= MarkedBefore(files, j)
    decreases j - i
  {
    if i < j {
      MarkedBeforeMonotone(files, i, j - 1);
    }
  }

  /** Every marked message is gone if and only if none is unremovable and the last one is visited. */
  lemma {:induction false} AllGone(pins: set<string>, files: seq<FileEntry>, n: nat)
    requires n <= |files|
    ensures (forall k :: 0 <= k < n && files[k].deleted ==> Gone(pins, files, n, k, true))
       <==> !MarkedPinned(pins, files, n) && LastMarked(files, n) + MarkedBefore(files, n) <= n
  {
    var last := LastMarked(files, n);
    forall k | 0 <= k < n && files[k].deleted && Visited(files, n, last, true) ensures Visited(files, n, k, true) {
      MarkedBeforeMonotone(files, k, last);
    }
    if MarkedPinned(pins, files, n) {
      var i :| 0 <= i < n && files[i].deleted && files[i].name in pins;
      assert Gone(pins, files, n, i, true) ==> !Fails(pins, files, n, i, true);
    }
  }

  /**
   * Exactly when QUIT removes every marked message (section 6 of RFC 1939): each of them can be removed, and their
   * number is at most the number of entries after the last of them, plus one.
   */
  lemma {:induction false} QuitRemovesAllMarked(m: Mail)
    requires ReadyToQuit(m)
    ensures var u := m.name.value;
            var dir, pins := m.store.dirs[u], Pins(m.store, u);
            (ExecQuit(m).0.store.dirs == m.store.dirs[u := KeepUnmarked(dir, m.files)]
             <==> !MarkedPinned(pins, m.files, m.cant)
                  && LastMarked(m.files, m.cant) + MarkedBefore(m.files, m.cant) <= m.cant)
  {
    hide Survivors, KeepUnmarked, AnyFails, MarkedPinned, Gone, ExecQuit;
    var u := m.name.value;
    var dir, pins, files := m.store.dirs[u], Pins(m.store, u), m.files;
    QuitExact(m);
    SurvivorsAgree(pins, dir, files, 0, true);
    AllGone(pins, files, m.cant);
    assert dir[0..] == dir && files[0..] == files;
    var left := Survivors(pins, dir, files, 0, true);
    assert m.store.dirs[u := left][u] == left;
    assert m.store.dirs[u := KeepUnmarked(dir, files)][u] == KeepUnmarked(dir, files);
  }

  /**
   * What a QUIT does to the counters, from the marks alone: they stay right if and only if the entries from the number
   * of files left on are all marked.
   */
  lemma {:induction false} QuitMiscountsExact(m: Mail)
    requires ReadyToQuit(m) && m.Accounted()
    ensures var dir, pins := m.store.dirs[m.name.value], Pins(m.store, m.name.value);
            var left := |Survivors(pins, dir, m.files, 0, true)|;
            && ExecQuit(m).0.cant == left <= m.cant && ExecQuit(m).0.files == m.files
            && (ExecQuit(m).0.Accounted() <==> forall i :: left <= i < m.cant ==> m.files[i].deleted)
  {
    hide Survivors, ExecQuit, Pins, AnyFails;
    QuitExact(m);
    QuitMiscounts(m);
  }

  /** Two messages, both marked: QUIT removes the first and signs off with one left. */
  lemma {:induction false} QuitLeavesMarkedMessage()
    ensures exists m :: ReadyToQuit(m) && (forall i :: 0 <= i < m.cant ==> m.files[i].deleted)
                     && ExecQuit(m).0.cant == 1
                     && ExecQuit(m).1 == Line("+OK POP3 server signing off (1 message left)\r\n")
  {
    hide SignOff, SweepFrom, Dec;
    var dir := [Message("a", ""), Message("b", "")];
    var entries := [FileEntry("a", 1, 0, true), FileEntry("b", 2, 0, true)];
    var files := entries + seq(MAX_EMAILS - 2, _ => FileEntry("", 0, 0, false));
    var m := Mail(TRANSACTION, Some("u"), files, 2, 0, 0, Store(map["u" := dir], {}));
    assert dir[1..] == [Message("b", "")] && dir[1..][1..] == [];
    assert files[0] == entries[0] && files[1] == entries[1];
    assert ReadyToQuit(m);
    QuitExact(m);
    assert MarkedBefore(files, 0) == 0 && MarkedBefore(files, 1) == 1;
    var pins := Pins(m.store, "u");
    assert pins == {};
    assert Survivors(pins, dir, files, 2, true) == [];
    assert Survivors(pins, dir, files, 1, true) == [dir[1]];
    assert Survivors(pins, dir, files, 0, true) == [dir[1]];
  }

  // ----- from login to QUIT -----

  /** A successful PASS on an existing folder. */
  ghost predicate FreshLogin(m: Mail, m0: Mail) {
    && m.Valid() && m.phase != CLOSED && m.name.Some? && m.name.value in m.store.dirs
    && m0 == Populate(m).(phase := TRANSACTION)
  }

  /** Such a login lists the folder, without marks. */
  lemma {:induction false} LoginIsReady(m: Mail, m0: Mail)
    requires FreshLogin(m, m0)
    ensures ReadyToQuit(m0) && m0.store == m.store && m0.name == m.name
    ensures Unmarked(m0.files, m0.cant) == m0.files && forall i :: 0 <= i < m0.cant ==> !m0.files[i].deleted
  {
    hide Count, Size;
    PopulateKeepsValid(m);
  }

  lemma {:induction false} MarksKeepReady(m0: Mail, m: Mail)
    requires ReadyToQuit(m0) && Restorable(m0, m)
    ensures ReadyToQuit(m)
  {
    hide Count, Size, ExecRset, Restorable;
    OnlyMarksChanged(m0, m);
    forall i | 0 <= i < m.cant ensures m.files[i].name == m0.files[i].name {
      assert Unmarked(m.files, m.cant)[i] == Unmarked(m0.files, m0.cant)[i];
    }
  }

  /** A whole visit: log in, issue any commands, QUIT.  What QUIT then does is exact. */
  lemma {:induction false} WholeVisit(m: Mail, m0: Mail, steps: seq<Step>)
    requires FreshLogin(m, m0) && forall s :: s in steps ==> s.cmd.keyword != QUIT
    ensures var last := After(m0, steps);
            && ReadyToQuit(last) && last.store == m.store
            && var u := m.name.value;
               ExecQuit(last).0.store.dirs
               == m.store.dirs[u := Survivors(Pins(m.store, u), m.store.dirs[u], last.files, 0, true)]
  {
    hide ExecQuit, Survivors, After;
    LoginIsReady(m, m0);
    RsetRestoresLogin(m0, steps);
    MarksKeepReady(m0, After(m0, steps));
    QuitExact(After(m0, steps));
    StoreUnchanged(m, m0, After(m0, steps));
  }

  lemma {:induction false} StoreUnchanged(m: Mail, m0: Mail, last: Mail)
    requires FreshLogin(m, m0) && Restorable(m0, last)
    ensures last.store == m.store && last.name == m.name
  {
    hide ExecRset, Populate;
    LoginIsReady(m, m0);
    OnlyMarksChanged(m0, last);
  }

  lemma {:induction false} BodyAt(dir: seq<Message>, i: nat)
    requires DistinctNames(dir) && i < |dir|
    ensures BodyOf(dir, dir[i].name) == dir[i].body && Named(dir, dir[i].name)
  {
    if i > 0 {
      BodyAt(dir[1..], i - 1);
    }
  }

  /** RETR during a visit: the octets announced and the file sent are those of the message found there at login. */
  lemma {:induction false} RetrFindsMessage(m: Mail, m0: Mail, steps: seq<Step>, arg: string)
    requires FreshLogin(m, m0) && forall s :: s in steps ==> s.cmd.keyword != QUIT
    ensures var last, dir, id := After(m0, steps), m.store.dirs[m.name.value], Atoi(arg);
            && last.phase == TRANSACTION && last.cant == |dir|
            && (if 1 <= id <= |dir| && !last.files[id - 1].deleted
                then var msg := dir[id - 1];
                     ExecRetr(last, arg) == FileBody("+OK " + Dec(ToInt32(|msg.body|)) + " octets\r\n", msg.name)
                     && last.store.Content(last.name, msg.name) == msg.body
                else ExecRetr(last, arg) == Line(NO_MESSAGE))
  {
    hide After, Dec, Atoi, Count, Size, BodyOf, DistinctNames, ExecRset, Restorable, Unmarked, Populate;
    LoginIsReady(m, m0);
    RsetRestoresLogin(m0, steps);
    var last, dir, id := After(m0, steps), m.store.dirs[m.name.value], Atoi(arg);
    StoreUnchanged(m, m0, last);
    OnlyMarksChanged(m0, last);
    if 1 <= id <= |dir| {
      BodyAt(dir, id - 1);
      EntryOfLogin(m, m0, last, id - 1);
    }
  }

  lemma {:induction false} EntryOfLogin(m: Mail, m0: Mail, last: Mail, i: nat)
    requires FreshLogin(m, m0) && Restorable(m0, last) && i < |m.store.dirs[m.name.value]|
    ensures var msg := m.store.dirs[m.name.value][i];
            last.files[i].name == msg.name && last.files[i].size == ToInt32(|msg.body|)
  {
    hide Count, Size, ExecRset, Restorable;
    LoginIsReady(m, m0);
    OnlyMarksChanged(m0, last);
    assert Unmarked(last.files, last.cant)[i] == m0.files[i];
  }

  // ----- login -----

  /** The mail commands do nothing, and answer so, outside TRANSACTION. */
  lemma {:induction false} MailCommandsNeedTransaction(users: set<(string, string)>, m: Mail, c: Command)
    requires m.Valid() && m.phase != CLOSED && c.keyword in {STAT, LIST, RETR, DELE, NOOP, RSET}
    ensures Exec(users, m, c) == (m, Line(UNKNOWN)) <==> m.phase != TRANSACTION
  {
    hide Dec;
    if m.phase == TRANSACTION {
      assert UNKNOWN[5] == 'U';
      RepliesDiffer(m, c.arg1);
    }
  }

  lemma {:induction false} RepliesDiffer(m: Mail, arg: string)
    requires m.Valid()
    ensures Line(UNKNOWN) !in {Line(StatText(m)), ExecList(m, arg), ExecRetr(m, arg),
                               ExecDele(m, arg).1, ExecRset(m).1, Line("+OK\r\n")}
  {
    hide Dec;
    assert UNKNOWN[0] == '-' && UNKNOWN[5] == 'U';
    assert StatText(m)[0] == '+';
  }

  /** Step k is a USER that is obeyed. */
  predicate NamedAt(m: Mail, steps: seq<Step>, k: nat)
    requires m.Valid() && k < |steps|
  {
    steps[k].cmd.keyword == USER && StateAt(m, steps, k).phase in {AUTHORIZATION, UPDATE}
  }

  /** Step k is a PASS that is refused: it forgets the name. */
  predicate RefusedAt(m: Mail, steps: seq<Step>, k: nat)
    requires m.Valid() && k < |steps|
  {
    var s := StateAt(m, steps, k);
    && steps[k].cmd.keyword == PASS && s.phase in {AUTHORIZATION, UPDATE}
    && s.name.Some? && (s.name.value, steps[k].cmd.arg1) !in steps[k].users
  }

  /** `name` is that of the last USER obeyed before step k, and no PASS has been refused since. */
  ghost predicate LastNamed(m: Mail, steps: seq<Step>, k: nat, name: string)
    requires m.Valid() && k <= |steps|
  {
    exists j :: 0 <= j < k && NamedAt(m, steps, j) && steps[j].cmd.arg1 == name
             && forall i :: j < i < k ==> !NamedAt(m, steps, i) && !RefusedAt(m, steps, i)
  }

  lemma {:induction false} NameIsLastNamed(store: Store, steps: seq<Step>, k: nat)
    requires store.Valid() && k <= |steps|
    ensures var m := InitialMail(store);
            var s := StateAt(m, steps, k);
            s.name.Some? ==> LastNamed(m, steps, k, s.name.value)
  {
    hide StateAt, NamedAt, RefusedAt, LastNamed, Exec;
    var m := InitialMail(store);
    if k == 0 {
      NothingYet(m, steps);
    } else {
      NameIsLastNamed(store, steps, k - 1);
      StateAtStep(m, steps, k - 1);
      var s, t := StateAt(m, steps, k - 1), StateAt(m, steps, k);
      if t.name.Some? {
        if NamedAt(m, steps, k - 1) {
          NamedNow(m, steps, k - 1);
        } else {
          NameKept(m, steps, k - 1);
          NamedEarlier(m, steps, k - 1, s.name.value);
        }
      }
    }
  }

  lemma {:induction false} NamedNow(m: Mail, steps: seq<Step>, k: nat)
    requires m.Valid() && k < |steps| && NamedAt(m, steps, k)
    ensures StateAt(m, steps, k + 1).name == Some(steps[k].cmd.arg1)
    ensures LastNamed(m, steps, k + 1, steps[k].cmd.arg1)
  {
    StateAtStep(m, steps, k);
  }

  lemma {:induction false} NamedEarlier(m: Mail, steps: seq<Step>, k: nat, name: string)
    requires m.Valid() && k < |steps| && LastNamed(m, steps, k, name)
    requires !NamedAt(m, steps, k) && !RefusedAt(m, steps, k)
    ensures LastNamed(m, steps, k + 1, name)
  {
    hide NamedAt, RefusedAt;
    var j :| 0 <= j < k && NamedAt(m, steps, j) && steps[j].cmd.arg1 == name
          && forall i :: j < i < k ==> !NamedAt(m, steps, i) && !RefusedAt(m, steps, i);
    assert 0 <= j < k + 1 && NamedAt(m, steps, j);
  }

  lemma {:induction false} NameKept(m: Mail, steps: seq<Step>, k: nat)
    requires m.Valid() && k < |steps| && !NamedAt(m, steps, k)
    ensures var s, t := StateAt(m, steps, k), StateAt(m, steps, k + 1);
            t.name == if RefusedAt(m, steps, k) then None else s.name
  {
    hide Dec, ExecQuit, ExecDele, ExecRset, ExecList, ExecRetr, Populate, StatText, StateAt;
    StateAtStep(m, steps, k);
    QuitKeepsName(StateAt(m, steps, k), steps[k].cmd.arg1);
  }

  lemma {:induction false} QuitKeepsName(m: Mail, arg: string)
    requires m.Valid()
    ensures ExecQuit(m).0.name == ExecDele(m, arg).0.name == ExecRset(m).0.name == Populate(m).name == m.name
  {
    hide Dec, SweepFrom, Count, Size;
  }

  /** Step k is a PASS with the last name given and a password that the table then held for it. */
  ghost predicate LoginAt(m: Mail, steps: seq<Step>, k: nat)
    requires m.Valid() && k < |steps|
  {
    && steps[k].cmd.keyword == PASS && StateAt(m, steps, k).phase in {AUTHORIZATION, UPDATE}
    && exists name :: LastNamed(m, steps, k, name) && (name, steps[k].cmd.arg1) in steps[k].users
  }

  lemma {:induction false} EnteringTransaction(users: set<(string, string)>, m: Mail, c: Command)
    requires m.Valid() && m.phase != CLOSED && m.phase != TRANSACTION && Exec(users, m, c).0.phase == TRANSACTION
    ensures c.keyword == PASS && m.name.Some? && (m.name.value, c.arg1) in users
  {
  }

  /** Step j is a login, and the session has been in TRANSACTION from then to step k. */
  ghost predicate LoggedInSince(m: Mail, steps: seq<Step>, j: nat, k: nat)
    requires m.Valid() && j < k <= |steps|
  {
    LoginAt(m, steps, j) && forall i :: j < i <= k ==> StateAt(m, steps, i).phase == TRANSACTION
  }

  /** Whoever is in TRANSACTION after a run has logged in during it, and has been there ever since. */
  lemma {:induction false} LoginSafety(store: Store, steps: seq<Step>, k: nat)
    requires store.Valid() && k <= |steps| && StateAt(InitialMail(store), steps, k).phase == TRANSACTION
    ensures exists j :: 0 <= j < k && LoggedInSince(InitialMail(store), steps, j, k)
  {
    hide StateAt, After, LoginAt, LastNamed, Exec;
    var m := InitialMail(store);
    if k == 0 {
      NothingYet(m, steps);
    } else {
      StateAtStep(m, steps, k - 1);
      var s := StateAt(m, steps, k - 1);
      if s.phase == TRANSACTION {
        LoginSafety(store, steps, k - 1);
        var j :| 0 <= j < k - 1 && LoggedInSince(m, steps, j, k - 1);
        assert LoggedInSince(m, steps, j, k);
      } else {
        EnteringTransaction(steps[k - 1].users, s, steps[k - 1].cmd);
        NameIsLastNamed(store, steps, k - 1);
        LoginNow(m, steps, k - 1);
        assert LoggedInSince(m, steps, k - 1, k);
      }
    }
  }

  lemma {:induction false} NothingYet(m: Mail, steps: seq<Step>)
    requires m.Valid()
    ensures StateAt(m, steps, 0) == m
  {
  }

  lemma {:induction false} LoginNow(m: Mail, steps: seq<Step>, k: nat)
    requires m.Valid() && k < |steps| && steps[k].cmd.keyword == PASS
    requires var s := StateAt(m, steps, k);
             && s.phase in {AUTHORIZATION, UPDATE} && s.name.Some?
             && LastNamed(m, steps, k, s.name.value) && (s.name.value, steps[k].cmd.arg1) in steps[k].users
    ensures LoginAt(m, steps, k)
  {
  }
}
