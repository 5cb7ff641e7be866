/** RETR seen from the client, and the end of every reply. */
module Retrieval {
  import opened Text
  import opened Buffers
  import opened Commands
  import opened Parsers
  import opened Maildrop
  import opened DotStuffing
  import opened Session
  import opened SessionSafety
  import opened Sending
  import opened Hearing
  import opened SessionRuns
  import opened Overflow

  /**
   * RETR from its status line to the end, over any partial sends and any file reads on which nothing was dropped: the
   * status line, the chunk encodings, the terminator, nothing else; the chunks are the file.  And the client decodes
   * the message if and only if no chunk holds a NUL, none ends inside a CR LF, and the reply began on a fresh line or
   * not with a dot.  The next RETR begins on a fresh line if this message, read without NULs, ended with an LF.
   */
  lemma {:induction false} RetrievalDelivers(s: Conn, inputs: seq<Input>)
    requires Settled(s) && s.stm == WRITE_FILE && !s.done && s.file.None?
    requires FileRun(s, inputs) && Run(s, inputs).0.stm == READ && !Drops(s, inputs)
    ensures var (end, sent) := Run(s, inputs);
            var body := s.mail.store.Content(s.mail.name, s.active);
            var chunks := ChunksRead(s, inputs);
            && sent == s.out.pending + (EncodeChunks(s.newLine, chunks) + FINAL)
            && Flatten(chunks) == body
            && (NulFree(chunks) ==> end.newLine == After(s.newLine, body, '\n'))
            && (Decode(sent[|s.out.pending|..]) == Some((Normalised(false, body) + CRLF, ""))
                <==> NulFree(chunks) && SplitPairs(false, chunks) == 0 && (s.newLine || !StartsWithDot(body)))
  {
    hide Run, FileRun, ChunksRead, Drops, EncodeChunks, Decode, Normalised, SplitPairs, Settled;
    SettledOk(s);
    DeliveredUnlessDropped(s, inputs);
    var sent, chunks := Run(s, inputs).1, ChunksRead(s, inputs);
    if NulFree(chunks) {
      FlagOfMessage(s.newLine, chunks);
    }
    assert sent[|s.out.pending|..] == EncodeChunks(s.newLine, chunks) + FINAL && FINAL + "" == FINAL;
    RetrievalExact(s.newLine, chunks, "");
  }

  // ----- when a chunk does not fit -----

  /**
   * A chunk fits the empty buffer exactly when its text, its bare LFs and its line-start dots come to at most its size.
   */
  lemma {:induction false} FullChunkFits(s: Conn, e: Event)
    requires ReadsChunk(s, e) && s.out.pending == ""
    ensures var text := CStr(s.Chunk(e.k));
            && (Fits(s, e) <==> |text| + BareLFs(false, text) + LineDots(s.newLine, text) <= BUFFER_SIZE)
            && (|text| == BUFFER_SIZE - 1 ==> (Fits(s, e) <==> BareLFs(false, text) + LineDots(s.newLine, text) <= 1))
  {
    EncodeLength(s.newLine, false, CStr(s.Chunk(e.k)));
  }

  /** A chunk goes into the empty buffer whole exactly when its encoding is no longer than the buffer. */
  lemma {:induction false} ChunkStoredWhole(s: Conn, k: nat)
    requires s.out.Valid() && Empty(s.out) && s.Unread() != ""
    ensures var enc := Encode(s.newLine, false, CStr(s.Chunk(k)));
            ReadFile(s, k).value.conn.out.pending == enc <==> |enc| <= BUFFER_SIZE
  {
    var enc := Encode(s.newLine, false, CStr(s.Chunk(k)));
    PutAllKeepsPrefix(s.out, enc);
    assert "" + enc == enc && enc[..|enc|] == enc;
  }

  /**
   * After a short send from a full buffer the next chunk is read and dropped whole; at the end of the file an assert
   * fails.
   */
  lemma {:induction false} FullBufferDropsChunk(s: Conn, n: nat, k: nat)
    requires s.out.Valid() && s.out.Room() == 0 && n < |s.out.pending| && !s.done
    ensures var x := WriteFile(s, n, k);
            && (x.None? <==> s.Unread() == "")
            && (x.Some? ==> x.value.conn.out.pending == s.out.pending[n..] && |x.value.conn.Unread()| < |s.Unread()|)
  {
    if s.Unread() != "" {
      var t := s.(out := s.out.Take(n));
      PutAllKeepsPrefix(t.out, Encode(s.newLine, false, CStr(s.Chunk(k))));
      ChunkIsPrefix(s, k);
      assert t.out.pending + "" == t.out.pending;
    }
  }

  // ----- every reply ends -----

  /** What is left to do for the reply in progress. */
  function Work(s: Conn): int {
    |s.out.pending| +
    match s.stm
    case WRITE_FILE => if s.done then 0 else 3 * |s.Unread()| + 6
    case WRITE_LIST => 200 * (s.mail.cant - s.cursor) + 4
    case _ => 0
  }

  predicate Replying(s: Conn) {
    s.stm == WRITE || s.stm == WRITE_FILE || s.stm == WRITE_LIST
  }

  /** A send that takes something, if there is something to take. */
  predicate Progresses(s: Conn, e: Event) {
    e.Send? && (e.n > 0 || s.out.pending == "")
  }

  lemma {:induction false} ListWork(users: set<(string, string)>, s: Conn, e: Event)
    requires Settled(s) && s.stm == WRITE_LIST && Enabled(s, e) && Progresses(s, e)
    ensures var r := Step(users, s, e);
            r.Going? && Replying(r.conn) && Work(r.conn) < Work(s) && r.conn.inp == s.inp && r.conn.mail == s.mail
  {
    hide ListLine;
    ListSettles(users, s, e);
    var t := s.(out := s.out.Take(e.n));
    if !t.out.CanRead() {
      ReadListSettles(t);
      ListIsShort(s.mail);
      var k := SkipMarked(s.mail.files, s.mail.cant, s.cursor);
      if k < s.mail.cant {
        EmptyTakes(t.out, ListLine(s.mail.files[k]));
      } else {
        EmptyTakes(t.out, ".\r\n");
      }
    }
  }

  lemma {:induction false} FileWork(users: set<(string, string)>, s: Conn, e: Event)
    requires Settled(s) && s.stm == WRITE_FILE && Enabled(s, e) && Progresses(s, e) && Step(users, s, e).Going?
    ensures var r := Step(users, s, e);
            && r.conn.inp == s.inp && r.conn.mail == s.mail
            && (r.conn.stm == READ || (r.conn.stm == WRITE_FILE && Work(r.conn) < Work(s)))
  {
    hide Step, Encode, Conn.Chunk, Settled, Conn.Unread, Offered;
    SettledOk(s);
    FileKeepsInput(users, s, e);
    FileStep(users, s, e);
    KeptIsPrefix(s, e);
    DoneReadsNothing(s, e);
    if ReadsChunk(s, e) {
      ChunkIsPrefix(s, e.k);
      EncodeLength(s.newLine, false, CStr(s.Chunk(e.k)));
    }
  }

  /** Sends only, each making progress and each from the same state; the last one may leave it or abort the server. */
  ghost predicate SendRunIn(s: Conn, inputs: seq<Input>, st: Stm)
    requires s.Ok()
    decreases |inputs|
  {
    inputs == [] ||
    (s.stm == st && Enabled(s, inputs[0].event) && Progresses(s, inputs[0].event) &&
     match Step(inputs[0].users, s, inputs[0].event)
     case Aborted => inputs[1..] == []
     case Going(next, _) => StepKeepsOk(inputs[0].users, s, inputs[0].event); SendRunIn(next, inputs[1..], st))
  }

  /**
   * A file or a listing is over within Work + 1 sends that each take something, whatever is read, dropped or waiting.
   */
  lemma {:induction false} LongReplyEnds(s: Conn, inputs: seq<Input>, st: Stm)
    requires Settled(s) && st in {WRITE_FILE, WRITE_LIST} && SendRunIn(s, inputs, st)
    ensures |inputs| <= Work(s) + 1
    decreases |inputs|
  {
    hide Step, Settled, Work;
    SettledOk(s);
    WorkIsNatural(s);
    if |inputs| > 1 {
      var users, e := inputs[0].users, inputs[0].event;
      StateAndInterestAgree(users, s, e);
      NotStranded(s, e);
      if st == WRITE_LIST {
        ListWork(users, s, e);
      } else {
        FileWork(users, s, e);
      }
      LongReplyEnds(Step(users, s, e).conn, inputs[1..], st);
    }
  }

  // ----- replies to waiting input -----

  /** No file of the store is longer than this. */
  ghost predicate Within(store: Store, longest: nat) {
    forall user, name :: |store.Content(user, name)| <= longest
  }

  /** Every store has such a bound. */
  lemma {:induction false} SomeBound(store: Store) returns (longest: nat)
    ensures Within(store, longest)
  {
    longest := 0;
    var left := store.dirs.Keys;
    while left != {}
      invariant left <= store.dirs.Keys
      invariant forall user, name :: user in store.dirs && user !in left ==> |BodyOf(store.dirs[user], name)| <= longest
      decreases |left|
    {
      var u :| u in left;
      var n := DirBound(store.dirs[u]);
      longest, left := if n > longest then n else longest, left - {u};
    }
  }

  lemma {:induction false} DirBound(dir: seq<Message>) returns (longest: nat)
    ensures forall name :: |BodyOf(dir, name)| <= longest
  {
    longest := 0;
    if dir != [] {
      var n := DirBound(dir[1..]);
      longest := if n > |dir[0].body| then n else |dir[0].body|;
      assert forall name :: |BodyOf(dir[1..], name)| <= n;
    }
  }

  lemma {:induction false} WithoutBodies(dir: seq<Message>, gone: string, name: string)
    ensures BodyOf(Without(dir, gone), name) == if name == gone then "" else BodyOf(dir, name)
  {
    if dir != [] {
      WithoutBodies(dir[1..], gone, name);
      assert ([dir[0]] + Without(dir[1..], gone))[1..] == Without(dir[1..], gone);
    }
  }

  lemma {:induction false} RemoveWithin(store: Store, user: Option<string>, name: string, longest: nat)
    requires Within(store, longest) && store.Remove(user, name).Some?
    ensures Within(store.Remove(user, name).value, longest)
  {
    var next := store.Remove(user, name).value;
    forall u, n ensures |next.Content(u, n)| <= longest {
      assert |store.Content(u, n)| <= longest;
      WithoutBodies(store.dirs[user.value], name, n);
    }
  }

  lemma {:induction false} SweepWithin(store: Store, user: Option<string>, files: seq<FileEntry>, i: nat, bound: nat,
                                       cant: nat, longest: nat)
    requires bound <= |files| && i <= |files| && cant >= bound && Within(store, longest)
    ensures Within(SweepFrom(store, user, files, i, bound, cant, true).store, longest)
    decreases |files| - i
  {
    hide Within;
    if i < bound {
      if !files[i].deleted {
        SweepWithin(store, user, files, i + 1, bound, cant, longest);
      } else if store.Remove(user, files[i].name).Some? {
        RemoveWithin(store, user, files[i].name, longest);
        SweepWithin(store.Remove(user, files[i].name).value, user, files, i + 1, bound - 1, cant - 1, longest);
      }
    }
  }

  lemma {:induction false} ExecWithin(users: set<(string, string)>, m: Mail, c: Command, longest: nat)
    requires m.Valid() && m.phase != CLOSED && Within(m.store, longest)
    ensures Within(Exec(users, m, c).0.store, longest)
  {
    hide Within, Dec;
    SweepWithin(m.store, m.name, m.files, 0, m.cant, m.cant, longest);
  }

  /** The most work that one command can bring. */
  function NewWork(longest: nat): nat {
    3 * longest + 6000
  }

  lemma {:induction false} ExecuteWork(users: set<(string, string)>, s: Conn, c: Command, longest: nat)
    requires s.mail.Valid() && s.mail.phase != CLOSED && s.cursor == -1 && Empty(s.out) && s.file.None?
    requires Within(s.mail.store, longest)
    ensures var x := ExecuteCommand(users, s, c);
            && x.Some? && Work(x.value.conn.(stm := x.value.stm)) < NewWork(longest)
            && Within(x.value.conn.mail.store, longest)
  {
    hide Exec, ListHeader, Within, Store.Content;
    ExecKeepsValid(users, s.mail, c);
    ExecuteSettles(users, s, c);
    ExecWithin(users, s.mail, c, longest);
    var mail := Exec(users, s.mail, c).0;
    ContentWithin(mail, ExecuteCommand(users, s, c).value.conn.active, longest);
  }

  lemma {:induction false} ContentWithin(m: Mail, name: string, longest: nat)
    requires Within(m.store, longest)
    ensures |m.store.Content(m.name, name)| <= longest
  {
  }

  /** A drained reply over waiting input: the next command's work, less input. */
  lemma {:induction false} ParseWork(users: set<(string, string)>, s: Conn, longest: nat)
    requires s.Ok() && s.cursor == -1 && s.out.cap == s.inp.cap == BUFFER_SIZE && Empty(s.out) && s.file.None?
    requires s.mail.phase != CLOSED && s.inp.CanRead() && s.parser.Consume(s.inp.pending).0.finished
    requires Within(s.mail.store, longest)
    ensures var x := ParseCommand(users, s);
            && x.Some? && Work(x.value.conn.(stm := x.value.stm)) < NewWork(longest)
            && |x.value.conn.inp.pending| < |s.inp.pending| && Within(x.value.conn.mail.store, longest)
  {
    hide ExecuteCommand, PState.Consume, Within, NewWork;
    ParseSettles(users, s);
    var (p, rest) := s.parser.Consume(s.inp.pending);
    var t := s.(parser := p, inp := s.inp.Take(|s.inp.pending| - |rest|));
    ExecuteWork(users, t, p.Result(), longest);
    ExecuteSettles(users, t, p.Result());
    assert |t.inp.pending| == |rest|;
  }

  /** All the sends that the reply in progress and the input waiting behind it can take. */
  function Total(s: Conn, longest: nat): int {
    Work(s) + |s.inp.pending| * NewWork(longest)
  }

  lemma {:induction false} WritingWork(users: set<(string, string)>, s: Conn, e: Event, longest: nat)
    requires Settled(s) && s.stm == WRITE && Enabled(s, e) && Progresses(s, e) && !Strands(s, e)
    requires Within(s.mail.store, longest)
    ensures var r := Step(users, s, e);
            && r.Going? && Within(r.conn.mail.store, longest)
            && (!Replying(r.conn) || (r.conn.inp == s.inp && Work(r.conn) < Work(s))
                || (|r.conn.inp.pending| < |s.inp.pending| && Work(r.conn) < NewWork(longest)))
  {
    hide ParseCommand, PState.Consume, Within, NewWork;
    SettledOk(s);
    WritingSettles(users, s, e);
    var t := s.(out := s.out.Take(e.n));
    if !t.out.CanRead() && t.inp.CanRead() {
      ParseWork(users, t, longest);
      WritingParses(users, s, e);
    }
  }

  /** One progressing send: the total goes down, or the reply is over, or the server is doomed or aborted. */
  lemma {:induction false} TotalDecreases(users: set<(string, string)>, s: Conn, e: Event, longest: nat)
    requires Settled(s) && Replying(s) && Enabled(s, e) && Progresses(s, e) && Within(s.mail.store, longest)
    requires Step(users, s, e).Going?
    ensures var r := Step(users, s, e);
            Replying(r.conn) ==>
              Settled(r.conn) && Within(r.conn.mail.store, longest) && Total(r.conn, longest) < Total(s, longest)
  {
    hide Step, Settled, Strands, Within, Work, NewWork, PState.Consume;
    SettledOk(s);
    StateAndInterestAgree(users, s, e);
    WorkIsNatural(s);
    var r := Step(users, s, e).conn;
    match s.stm {
      case WRITE =>
        WritingSettles(users, s, e);
        if !Strands(s, e) {
          WritingWork(users, s, e, longest);
          if |r.inp.pending| < |s.inp.pending| {
            Multiples(|r.inp.pending|, |s.inp.pending|, NewWork(longest));
          }
        }
      case WRITE_LIST => ListWork(users, s, e); NotStranded(s, e);
      case WRITE_FILE => FileWork(users, s, e); NotStranded(s, e);
    }
  }

  lemma {:induction false} Multiples(a: nat, b: nat, w: nat)
    requires a < b
    ensures a * w + w <= b * w
    decreases b
  {
    if a + 1 < b {
      Multiples(a, b - 1, w);
    }
  }

  /** Sends only, each making progress on some reply; the last one may end the replies or abort the server. */
  ghost predicate ReplyRun(s: Conn, inputs: seq<Input>)
    requires s.Ok()
    decreases |inputs|
  {
    inputs == [] ||
    (Replying(s) && Enabled(s, inputs[0].event) && Progresses(s, inputs[0].event) &&
     match Step(inputs[0].users, s, inputs[0].event)
     case Aborted => inputs[1..] == []
     case Going(next, _) => StepKeepsOk(inputs[0].users, s, inputs[0].event); ReplyRun(next, inputs[1..]))
  }

  /** The reply in progress and those to all waiting input are over within Total + 1 sends that each take something. */
  lemma {:induction false} RepliesEnd(s: Conn, inputs: seq<Input>, longest: nat)
    requires Settled(s) && Within(s.mail.store, longest) && ReplyRun(s, inputs)
    ensures |inputs| <= Total(s, longest) + 1
    decreases |inputs|
  {
    hide Step, Settled, Work, NewWork, Within;
    SettledOk(s);
    WorkIsNatural(s);
    assert |s.inp.pending| * NewWork(longest) >= 0;
    if |inputs| > 1 {
      TotalDecreases(inputs[0].users, s, inputs[0].event, longest);
      RepliesEnd(Step(inputs[0].users, s, inputs[0].event).conn, inputs[1..], longest);
    }
  }

  lemma {:induction false} WorkIsNatural(s: Conn)
    requires Settled(s)
    ensures Work(s) >= 0
  {
  }
}
