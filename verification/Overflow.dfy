/** RETR over any run of sends and file reads: what is sent, what a full buffer loses, and when the server aborts. */
module Overflow {
  import opened Text
  import opened DotStuffing
  import opened Session
  import opened SessionSafety
  import opened Sending
  import opened SessionRuns

  // ----- runs -----

  /** Sends only, each from WRITE_FILE; the last one may leave it or abort the server. */
  ghost predicate FileRun(s: Conn, inputs: seq<Input>)
    requires s.Ok()
    decreases |inputs|
  {
    inputs == [] ||
    (s.stm == WRITE_FILE && inputs[0].event.Send? && Enabled(s, inputs[0].event) &&
     match Step(inputs[0].users, s, inputs[0].event)
     case Aborted => inputs[1..] == []
     case Going(next, _) => StepKeepsOk(inputs[0].users, s, inputs[0].event); FileRun(next, inputs[1..]))
  }

  /** Some chunk of the run is longer, encoded, than the buffer, or is read behind a short send from a full buffer. */
  predicate Drops(s: Conn, inputs: seq<Input>)
    requires s.Ok()
    decreases |inputs|
  {
    inputs != [] && Enabled(s, inputs[0].event) &&
    (Overfull(s, inputs[0].event) ||
     match Step(inputs[0].users, s, inputs[0].event)
     case Aborted => false
     case Going(next, _) => StepKeepsOk(inputs[0].users, s, inputs[0].event); Drops(next, inputs[1..]))
  }

  /** The chunks that the run reads from the file. */
  function ChunksRead(s: Conn, inputs: seq<Input>): seq<string>
    requires s.Ok()
    decreases |inputs|
  {
    if inputs == [] || !Enabled(s, inputs[0].event) then [] else
    match Step(inputs[0].users, s, inputs[0].event)
    case Aborted => []
    case Going(next, _) =>
      StepKeepsOk(inputs[0].users, s, inputs[0].event);
      (if ReadsChunk(s, inputs[0].event) then [s.Chunk(inputs[0].event.k)] else []) + ChunksRead(next, inputs[1..])
  }

  lemma {:induction false} Chain(sent: string, more: string, last: string, mid: string, pending: string,
                                 enc: string, encs: string, ending1: string, ending2: string)
    requires sent + mid == pending + (enc + ending1)
    requires more + last == mid + (encs + ending2)
    ensures ending1 == "" ==> sent + more + last == pending + (enc + encs + ending2)
    ensures encs == ending2 == "" ==> sent + more + last == pending + (enc + encs + ending1)
  {
    assert sent + more + last == sent + (more + last);
    assert sent + (mid + (encs + ending2)) == sent + mid + (encs + ending2);
    if ending1 == "" {
      assert pending + (enc + "") + (encs + ending2) == pending + (enc + encs + ending2);
    }
    if encs == ending2 == "" {
      assert pending + (enc + ending1) + ("" + "") == pending + (enc + "" + ending1);
    }
  }

  /** What the buffer takes on the run: of each chunk's encoding all, the first BUFFER_SIZE bytes, or nothing. */
  function KeptOn(s: Conn, inputs: seq<Input>): string
    requires s.Ok()
    decreases |inputs|
  {
    if inputs == [] || !Enabled(s, inputs[0].event) then "" else
    match Step(inputs[0].users, s, inputs[0].event)
    case Aborted => ""
    case Going(next, _) =>
      StepKeepsOk(inputs[0].users, s, inputs[0].event);
      Kept(s, inputs[0].event) + KeptOn(next, inputs[1..])
  }

  /**
   * The run has sent or still holds exactly what the buffer took; that is all encodings unless a chunk was overfull.
   */
  lemma {:induction false} FileRunSends(s: Conn, inputs: seq<Input>)
    requires Settled(s) && FileRun(s, inputs) && s.stm in {WRITE_FILE, READ} && (s.stm == READ ==> s.done)
    ensures var (end, sent) := Run(s, inputs);
            var chunks, kept := ChunksRead(s, inputs), KeptOn(s, inputs);
            && Settled(end) && (s.done ==> end.done && chunks == [])
            && (end.stm == READ ==> end.done && end.out.pending == "")
            && sent + end.out.pending == s.out.pending + (kept + Ending(s, end))
            && Left(s) == Flatten(chunks) + Left(end)
            && end.newLine == FlagAfter(s.newLine, chunks)
            && |kept| <= |EncodeChunks(s.newLine, chunks)|
            && (Drops(s, inputs) <==> |kept| < |EncodeChunks(s.newLine, chunks)|)
            && (!Drops(s, inputs) ==> kept == EncodeChunks(s.newLine, chunks))
    decreases |inputs|
  {
    hide Encode, Settled, Step, Left, ReadsFile, Overfull, Kept;
    SettledOk(s);
    if inputs == [] || Step(inputs[0].users, s, inputs[0].event) == Aborted {
      NothingRead(s, inputs);
    } else {
      var users, e := inputs[0].users, inputs[0].event;
      FileStep(users, s, e);
      var r := Step(users, s, e);
      var t := r.conn;
      SettledOk(t);
      FileRunSends(t, inputs[1..]);
      var (end, rest) := Run(t, inputs[1..]);
      var later, more := ChunksRead(t, inputs[1..]), KeptOn(t, inputs[1..]);
      EncodeNothing(s.newLine);
      DoneReadsNothing(s, e);
      KeptIsPrefix(s, e);
      if ReadsChunk(s, e) {
        assert ([s.Chunk(e.k)] + later)[1..] == later;
        Associate(s.Chunk(e.k), Flatten(later), Left(end));
      } else {
        assert [] + later == later && "" + Left(t) == Left(t);
        assert "" + EncodeChunks(t.newLine, later) == EncodeChunks(t.newLine, later);
      }
      assert EncodeChunks(s.newLine, ChunksRead(s, inputs)) == Offered(s, e) + EncodeChunks(t.newLine, later);
      EncodesNothing(t.newLine);
      Chain(r.sent, rest, end.out.pending, t.out.pending, s.out.pending, Kept(s, e), more,
            Ending(s, t), Ending(t, end));
    }
  }

  lemma {:induction false} EncodesNothing(newLine: bool)
    ensures EncodeChunks(newLine, []) == ""
  {
  }

  lemma {:induction false} NothingRead(s: Conn, inputs: seq<Input>)
    requires Settled(s) && s.Ok() && FileRun(s, inputs) && s.stm in {WRITE_FILE, READ} && (s.stm == READ ==> s.done)
    requires inputs == [] || Step(inputs[0].users, s, inputs[0].event) == Aborted
    ensures Run(s, inputs) == (s, "") && ChunksRead(s, inputs) == [] && KeptOn(s, inputs) == "" && !Drops(s, inputs)
    ensures Left(s) == "" + Left(s) && "" + s.out.pending == s.out.pending + ("" + Ending(s, s))
    ensures s.stm == READ ==> s.out.pending == ""
  {
    hide Step, Encode, Conn.Chunk;
    if inputs != [] {
      FileSettles(inputs[0].users, s, inputs[0].event);
    }
  }

  /**
   * From the status line to the end of a RETR, over any sends and any chunks: the client gets the status line, the
   * encodings of the chunks read and the terminator if and only if no encoding was longer than the buffer and none was
   * read behind a short send from a full buffer; the chunks are the file in either case.
   */
  lemma {:induction false} DeliveredUnlessDropped(s: Conn, inputs: seq<Input>)
    requires Settled(s) && s.stm == WRITE_FILE && !s.done && s.file.None?
    requires FileRun(s, inputs) && Run(s, inputs).0.stm == READ
    ensures var (end, sent) := Run(s, inputs);
            var chunks := ChunksRead(s, inputs);
            && Flatten(chunks) == s.mail.store.Content(s.mail.name, s.active)
            && end.newLine == FlagAfter(s.newLine, chunks)
            && sent == s.out.pending + (KeptOn(s, inputs) + FINAL)
            && (sent == s.out.pending + (EncodeChunks(s.newLine, chunks) + FINAL) <==> !Drops(s, inputs))
  {
    hide Run, FileRun, ChunksRead, KeptOn, Drops, EncodeChunks, Settled;
    SettledOk(s);
    FileRunSends(s, inputs);
    var (end, sent) := Run(s, inputs);
    var chunks := ChunksRead(s, inputs);
    assert sent + "" == sent && Flatten(chunks) + "" == Flatten(chunks);
    if Drops(s, inputs) {
      assert |sent| < |s.out.pending + (EncodeChunks(s.newLine, chunks) + FINAL)|;
    }
  }

  /** A file of LFs, read with the program's own size: almost half of the first chunk's encoding is dropped. */
  lemma {:induction false} NewlinesOverflow(s: Conn, e: Event)
    requires s.stm == WRITE_FILE && Empty(s.out) && !s.done && e == Send(0, BUFFER_SIZE - 1)
    requires s.Unread() == seq(BUFFER_SIZE - 1, _ => '\n')
    ensures |Offered(s, e)| == 2 * (BUFFER_SIZE - 1) && |Kept(s, e)| == BUFFER_SIZE
  {
    hide Encode, CStr;
    var text := seq(BUFFER_SIZE - 1, _ => '\n');
    assert s.Chunk(BUFFER_SIZE - 1) == text;
    NewlinesDouble(s.newLine, BUFFER_SIZE - 1);
  }

  /** The same file: once that chunk fills the buffer, a send that takes one byte aborts the server. */
  lemma {:induction false} NewlinesAbort(users: set<(string, string)>, s: Conn)
    requires Settled(s) && s.stm == WRITE_FILE && Empty(s.out) && !s.done
    requires s.Unread() == seq(BUFFER_SIZE - 1, _ => '\n')
    ensures var r := Step(users, s, Send(0, BUFFER_SIZE - 1));
            && r.Going? && r.conn.Ok() && Enabled(r.conn, Send(1, 0))
            && Step(users, r.conn, Send(1, 0)) == Aborted
  {
    hide Step, Encode, Kept, Offered;
    var e := Send(0, BUFFER_SIZE - 1);
    FileSettles(users, s, e);
    FileStep(users, s, e);
    NewlinesOverflow(s, e);
    var t := Step(users, s, e).conn;
    assert s.Chunk(BUFFER_SIZE - 1) == s.Unread();
    assert "" + t.out.pending == t.out.pending;
    FileSettles(users, t, Send(1, 0));
  }
}
