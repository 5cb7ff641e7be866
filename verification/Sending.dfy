/** One send of a file: what goes into the buffer, and what a full buffer loses. */
module Sending {
  import opened Text
  import opened Buffers
  import opened DotStuffing
  import opened Session
  import opened SessionSafety

  lemma {:induction false} Associate(a: string, b: string, c: string)
    ensures a + b + c == a + (b + c)
  {
  }

  /** Bytes handed to `send` move from the future to the past. */
  lemma {:induction false} TakeFromFuture(pending: string, n: nat, rest: string)
    requires n <= |pending|
    ensures pending[..n] + (pending[n..] + rest) == pending + rest
    ensures pending[n..] == "" ==> pending[..n] == pending
  {
    assert pending[..n] + pending[n..] == pending;
  }

  lemma {:induction false} EmptyTakes(b: Buf, text: string)
    requires Empty(b) && |text| < BUFFER_SIZE
    ensures b.Printed(text) == Some(Buf(0, text, BUFFER_SIZE)) && b.Store(text) == Some(Buf(0, text, BUFFER_SIZE))
  {
    assert "" + text == text;
  }

  lemma {:induction false} ChunkIsPrefix(s: Conn, k: nat)
    requires s.Unread() != ""
    ensures s.Chunk(k) != "" && |s.Chunk(k)| < BUFFER_SIZE && s.Chunk(k) + s.Unread()[|s.Chunk(k)|..] == s.Unread()
  {
  }

  ghost predicate IsPiece(s: Conn, piece: string) {
    exists m :: 1 <= m <= |s.Unread()| && m < BUFFER_SIZE && piece == s.Unread()[..m]
  }

  /** A chunk is a start of what is unread, of any length from one byte to what a `read` may return, and no other. */
  lemma {:induction false} ChunkIsAnyPiece(s: Conn)
    requires s.Unread() != ""
    ensures forall m :: 1 <= m <= |s.Unread()| && m < BUFFER_SIZE ==> s.Chunk(m) == s.Unread()[..m]
    ensures forall k: nat :: IsPiece(s, s.Chunk(k))
  {
    forall m | 1 <= m <= |s.Unread()| && m < BUFFER_SIZE ensures s.Chunk(m) == s.Unread()[..m] {
    }
    forall k: nat ensures IsPiece(s, s.Chunk(k)) {
      ChunkIsPrefix(s, k);
      assert s.Chunk(k) == s.Unread()[..|s.Chunk(k)|];
    }
  }

  lemma {:induction false} EncodeNothing(newLine: bool)
    ensures Encode(newLine, false, "") == ""
  {
  }

  /** What the buffer takes of the encoding that the event has for it. */
  function Kept(s: Conn, e: Event): string {
    if !Overfull(s, e) then Offered(s, e) else if s.out.pending == "" then Offered(s, e)[..BUFFER_SIZE] else ""
  }

  /** The end of the reply, if the run from s to t put it in the buffer. */
  function Ending(s: Conn, t: Conn): string {
    if t.done && !s.done then FINAL else ""
  }

  /** The part of the file still unread. */
  function Left(s: Conn): string {
    if s.done then "" else s.Unread()
  }

  /** One send that does not abort, whatever its chunk. */
  lemma {:induction false} FileStep(users: set<(string, string)>, s: Conn, e: Event)
    requires Settled(s) && s.stm == WRITE_FILE && e.Send? && Enabled(s, e) && Step(users, s, e).Going?
    ensures var r := Step(users, s, e);
            && r.sent == s.out.pending[..e.n]
            && Settled(r.conn) && r.conn.stm in {WRITE_FILE, READ}
            && (r.conn.stm == READ ==> s.done && r.conn.out.pending == "")
            && (s.out.pending == "" && !ReadsChunk(s, e) ==> r.conn.stm == READ || (r.conn.done && !s.done))
            && (r.conn.done <==> s.done || (ReadsFile(s, e) && !ReadsChunk(s, e)))
            && r.sent + r.conn.out.pending == s.out.pending + (Kept(s, e) + Ending(s, r.conn))
            && Left(s) == (if ReadsChunk(s, e) then s.Chunk(e.k) else "") + Left(r.conn)
            && r.conn.newLine == (if ReadsChunk(s, e) then After(s.newLine, CStr(s.Chunk(e.k)), '\n') else s.newLine)
            && (ReadsChunk(s, e) ==> !r.conn.done)
  {
    hide Encode, Kept, Left, Settled, Offered;
    FileSettles(users, s, e);
    if ReadsChunk(s, e) {
      RefillStep(users, s, e);
    } else {
      QuietStep(users, s, e);
    }
  }

  /** A chunk goes into whatever room there is. */
  lemma {:induction false} RefillStep(users: set<(string, string)>, s: Conn, e: Event)
    requires Settled(s) && s.stm == WRITE_FILE && e.Send? && Enabled(s, e) && ReadsChunk(s, e)
    ensures Step(users, s, e).Going?
    ensures var r := Step(users, s, e);
            && r.conn.stm == WRITE_FILE && !r.conn.done
            && r.sent + r.conn.out.pending == s.out.pending + (Kept(s, e) + Ending(s, r.conn))
            && r.conn.newLine == After(s.newLine, CStr(s.Chunk(e.k)), '\n')
            && Left(s) == s.Chunk(e.k) + Left(r.conn)
  {
    hide Encode, ReadFile, Conn.Chunk, CStr, Buf.Take;
    var t := if s.out.CanRead() then s.(out := s.out.Take(e.n)) else s;
    SameChunk(s, t, e.k);
    ChunkIsPrefix(s, e.k);
    ReadsInto(t, e.k);
    Taken(s.out, e.n, Kept(s, e));
    assert Kept(s, e) + "" == Kept(s, e);
    assert Offered(s, e)[..0] == "";
  }

  lemma {:induction false} SameChunk(s: Conn, t: Conn, k: nat)
    requires s.file == t.file && s.mail == t.mail && s.active == t.active
    ensures s.Chunk(k) == t.Chunk(k) && s.Unread() == t.Unread()
  {
  }

  lemma {:induction false} Taken(b: Buf, n: nat, more: string)
    requires b.Valid() && n <= |b.pending|
    ensures b.pending[..n] + (b.Take(n).pending + more) == b.pending + more
    ensures b.Take(n).cap == b.cap && b.Take(n).Valid() && (!b.CanRead() ==> b.pending[..n] == "")
    ensures n < |b.pending| ==> b.Take(n).Room() == b.Room()
    ensures n == |b.pending| ==> b.Take(n).Room() == b.cap
  {
    TakeFromFuture(b.pending, n, more);
  }

  /** `pop3ReadFile` on a buffer with any room: the encoding's longest prefix that fits goes in. */
  lemma {:induction false} ReadsInto(s: Conn, k: nat)
    requires s.out.Valid() && s.Unread() != "" && |s.Chunk(k)| <= |s.Unread()|
    ensures var text := CStr(s.Chunk(k));
            var enc := Encode(s.newLine, false, text);
            var kept := if |enc| <= s.out.Room() then enc else enc[..s.out.Room()];
            (ReadFile(s, k)
             == Some(Next(s.(out := s.out.Append(kept), newLine := After(s.newLine, text, '\n'),
                             file := Some(s.Unread()[|s.Chunk(k)|..]), interest := OP_WRITE), WRITE_FILE)))
  {
    hide Encode, Conn.Chunk, CStr, Conn.Unread, Buf.PutAll;
    var enc := Encode(s.newLine, false, CStr(s.Chunk(k)));
    PutAllKeepsPrefix(s.out, enc);
    assert enc[..|enc|] == enc;
  }

  lemma {:induction false} QuietStep(users: set<(string, string)>, s: Conn, e: Event)
    requires Settled(s) && s.stm == WRITE_FILE && e.Send? && Enabled(s, e) && !ReadsChunk(s, e)
    requires Step(users, s, e).Going?
    ensures var r := Step(users, s, e);
            && (r.conn.stm == READ ==> s.done && r.conn.out.pending == "") && r.conn.stm in {WRITE_FILE, READ}
            && (r.conn.done <==> s.done || ReadsFile(s, e))
            && (s.out.pending == "" ==> r.conn.stm == READ || (r.conn.done && !s.done))
            && Kept(s, e) == "" && r.conn.newLine == s.newLine && Left(s) == "" + Left(r.conn)
            && r.sent + r.conn.out.pending == s.out.pending + (Kept(s, e) + Ending(s, r.conn))
  {
    hide Encode;
    if s.out.CanRead() {
      TakeFromFuture(s.out.pending, e.n, "");
      assert s.out.pending[..e.n] + s.out.pending[e.n..] == s.out.pending;
      assert s.out.pending + ("" + "") == s.out.pending;
    } else if !s.done {
      EmptyTakes(s.out, FINAL);
      assert "" + ("" + FINAL) == FINAL;
    }
  }

  lemma {:induction false} KeptIsPrefix(s: Conn, e: Event)
    ensures Kept(s, e) <= Offered(s, e)
    ensures if Overfull(s, e) then |Kept(s, e)| < |Offered(s, e)| else Kept(s, e) == Offered(s, e)
  {
    hide Offered;
  }

  lemma {:induction false} DoneReadsNothing(s: Conn, e: Event)
    ensures s.done ==> !ReadsChunk(s, e)
    ensures Offered(s, e) == if ReadsChunk(s, e) then Encode(s.newLine, false, CStr(s.Chunk(e.k))) else ""
  {
  }
}
