/** The bounded I/O buffer of src/utils/buffer.c. */
module Buffers {
  import opened Text

  /** The abstract value: the bytes before `read` are gone, `pending` are still to be read. */
  datatype Buf = Buf(read: nat, pending: string, cap: nat) {

    /** Invariant of the header's diagrams; a drained buffer has been rewound. */
    ghost predicate Valid() {
      && read + |pending| <= cap
      && (pending == "" ==> read == 0)
    }

    function Room(): int {
      cap - read - |pending|
    }

    predicate CanRead() {
      pending != ""
    }

    predicate CanWrite() {
      Room() > 0
    }

    function Take(n: nat): (b: Buf)
      requires n <= |pending|
      ensures Valid() ==> b.Valid()
    {
      var rest := pending[n..];
      Buf(if rest == "" then 0 else read + n, rest, cap)
    }

    function Put(c: char): (b: Buf)
      ensures Valid() ==> b.Valid()
    {
      if CanWrite() then Buf(read, pending + [c], cap) else this
    }

    function PutAll(s: string): (b: Buf)
      ensures Valid() ==> b.Valid()
      decreases s
    {
      if s == "" then this else Put(s[0]).PutAll(s[1..])
    }

    function Append(s: string): Buf {
      Buf(read, pending + s, cap)
    }

    /** Store `s` through the write pointer and advance by |s|; None is the failed assert of `buffer_write_adv`. */
    function Store(s: string): (r: Option<Buf>)
      ensures Valid() && r.Some? ==> r.value.Valid()
    {
      if |s| <= Room() then Some(Append(s)) else None
    }

    /** `snprintf` into the write pointer, then advance by its result: an exact fit loses its last byte to the NUL. */
    function Printed(s: string): (r: Option<Buf>)
      ensures Valid() && r.Some? ==> r.value.Valid()
    {
      if s != "" && |s| == Room() then Store(s[..|s| - 1] + "\0") else Store(s)
    }

    function Compacted(): Buf {
      Buf(0, pending, cap)
    }
  }

  /** Putting bytes one at a time keeps exactly the longest prefix that fits. */
  lemma {:induction false} PutAllKeepsPrefix(b: Buf, s: string)
    requires b.Valid()
    ensures b.PutAll(s) == b.Append(s[..if |s| <= b.Room() then |s| else b.Room()])
    decreases s
  {
    if s != "" {
      PutAllKeepsPrefix(b.Put(s[0]), s[1..]);
      if b.CanWrite() {
        var m := if |s| <= b.Room() then |s| else b.Room();
        assert s[..m] == [s[0]] + s[1..][..m - 1];
        assert b.pending + s[..m] == b.pending + [s[0]] + s[1..][..m - 1];
      } else {
        assert s[1..][..0] == s[..0];
      }
    }
  }

  lemma {:induction false} PutAllConcat(b: Buf, s: string, t: string)
    ensures b.PutAll(s + t) == b.PutAll(s).PutAll(t)
    decreases s
  {
    if s == "" {
      assert s + t == t;
    } else {
      assert (s + t)[1..] == s[1..] + t;
      PutAllConcat(b.Put(s[0]), s[1..], t);
    }
  }

  // ----- the buffer as a FIFO, over every run of its operations -----

  datatype Op = PutOp(c: char) | StoreOp(s: string) | PrintOp(s: string) | TakeOp(n: nat) | ReadOp | CompactOp

  /** What a run has accepted and handed out so far. */
  datatype Trace = Trace(buf: Buf, accepted: string, taken: string)

  /** One operation; None when the C code would fail one of its asserts. */
  function Apply(t: Trace, op: Op): Option<Trace> {
    match op
    case PutOp(c) => Some(Trace(t.buf.Put(c), if t.buf.CanWrite() then t.accepted + [c] else t.accepted, t.taken))
    case StoreOp(s) => var b :- t.buf.Store(s); Some(Trace(b, t.accepted + s, t.taken))
    case PrintOp(s) => var b :- t.buf.Printed(s);
      Some(Trace(b, t.accepted + (if s != "" && |s| == t.buf.Room() then s[..|s| - 1] + "\0" else s), t.taken))
    case TakeOp(n) =>
      if n <= |t.buf.pending| then Some(Trace(t.buf.Take(n), t.accepted, t.taken + t.buf.pending[..n])) else None
    case ReadOp =>
      if t.buf.CanRead() then Some(Trace(t.buf.Take(1), t.accepted, t.taken + t.buf.pending[..1])) else Some(t)
    case CompactOp => Some(Trace(t.buf.Compacted(), t.accepted, t.taken))
  }

  function RunOps(t: Trace, ops: seq<Op>): Option<Trace>
    decreases |ops|
  {
    if ops == [] then Some(t) else var u :- Apply(t, ops[0]); RunOps(u, ops[1..])
  }

  ghost predicate Fifo(t: Trace) {
    t.buf.Valid() && t.accepted == t.taken + t.buf.pending
  }

  lemma {:induction false} ApplyIsFifo(t: Trace, op: Op)
    requires Fifo(t) && Apply(t, op).Some?
    ensures var u := Apply(t, op).value;
            Fifo(u) && u.buf.cap == t.buf.cap && t.accepted <= u.accepted && t.taken <= u.taken
  {
  }

  /** Whatever is done to it, the buffer is a FIFO: bytes leave in the order they were accepted. */
  lemma {:induction false} RunIsFifo(t: Trace, ops: seq<Op>)
    requires Fifo(t)
    ensures var r := RunOps(t, ops); r.Some? ==>
              Fifo(r.value) && r.value.buf.cap == t.buf.cap
              && t.accepted <= r.value.accepted && t.taken <= r.value.taken
    decreases |ops|
  {
    if ops != [] && Apply(t, ops[0]).Some? {
      ApplyIsFifo(t, ops[0]);
      RunIsFifo(Apply(t, ops[0]).value, ops[1..]);
    }
  }

  /** Compaction keeps the pending bytes and leaves as much room as any buffer holding them can have. */
  lemma {:induction false} CompactionMaximisesRoom(b: Buf, other: Buf)
    requires b.Valid() && other.Valid() && other.cap == b.cap && other.pending == b.pending
    ensures b.Compacted().Valid() && b.Compacted().pending == b.pending
    ensures other.Room() <= b.Compacted().Room()
    ensures other.Room() == b.Compacted().Room() <==> other.read == 0
  {
  }

  class Buffer {
    const data: array<char>
    var read: nat
    var write: nat

    ghost predicate InBounds()
      reads this
    {
      read <= write <= data.Length
    }

    ghost predicate Valid()
      reads this
    {
      InBounds() && (read == write ==> read == 0)
    }

    ghost function View(): (b: Buf)
      requires InBounds()
      reads this, data
      ensures Valid() ==> b.Valid()
    {
      Buf(read, data[read..write], data.Length)
    }

    constructor (n: nat)
      ensures Valid() && fresh(data)
      ensures View() == Buf(0, "", n)
    {
      data := new char[n](_ => '\0');
      read, write := 0, 0;
    }

    method Reset()
      requires Valid()
      modifies this
      ensures Valid() && View() == Buf(0, "", data.Length)
    {
      read, write := 0, 0;
    }

    method CanWrite() returns (r: bool)
      requires Valid()
      ensures r == View().CanWrite()
    {
      r := data.Length - write > 0;
    }

    method CanRead() returns (r: bool)
      requires Valid()
      ensures r == View().CanRead()
    {
      r := write - read > 0;
    }

    /** `buffer_write_ptr`, only the number of bytes that may be written there. */
    method WriteLimit() returns (n: nat)
      requires Valid()
      ensures n == View().Room()
    {
      n := data.Length - write;
    }

    /** Bytes stored through the write pointer, then `buffer_write_adv`. */
    method StoreBytes(s: string) returns (ok: bool)
      requires Valid()
      modifies this, data
      ensures Valid()
      ensures ok == old(View()).Store(s).Some?
      ensures View() == if ok then old(View()).Store(s).value else old(View())
    {
      if |s| > data.Length - write {
        return false;
      }
      forall i | 0 <= i < |s| {
        data[write + i] := s[i];
      }
      write := write + |s|;
      assert data[read..old(write)] == old(data[read..write]);
      assert data[old(write)..write] == s;
      assert data[read..write] == data[read..old(write)] + data[old(write)..write];
      return true;
    }

    /** `snprintf` at the write pointer, then `buffer_write_adv` with its result. */
    method Print(s: string) returns (ok: bool)
      requires Valid()
      modifies this, data
      ensures Valid()
      ensures ok == old(View()).Printed(s).Some?
      ensures View() == if ok then old(View()).Printed(s).value else old(View())
    {
      if s != "" && |s| == data.Length - write {
        ok := StoreBytes(s[..|s| - 1] + "\0");
      } else {
        ok := StoreBytes(s);
      }
    }

    /** `buffer_read_ptr` with `buffer_read_adv`: the bytes handed to `send`. */
    method ReadAdv(n: nat) returns (s: string)
      requires Valid()
      requires n <= |View().pending|
      modifies this, data
      ensures Valid()
      ensures s == old(View()).pending[..n]
      ensures View() == old(View()).Take(n)
    {
      s := data[read..read + n];
      assert s == old(View()).pending[..n];
      read := read + n;
      assert data[read..write] == old(View()).pending[n..];
      if read == write {
        Compact();
      }
    }

    method ReadByte() returns (c: char)
      requires Valid()
      modifies this, data
      ensures Valid()
      ensures old(View()).CanRead() ==> c == old(View()).pending[0] && View() == old(View()).Take(1)
      ensures !old(View()).CanRead() ==> c == '\0' && View() == old(View())
    {
      var can := CanRead();
      if can {
        var s := ReadAdv(1);
        c := s[0];
      } else {
        c := '\0';
      }
    }

    method WriteByte(c: char)
      requires Valid()
      modifies this, data
      ensures Valid() && View() == old(View()).Put(c)
    {
      var can := CanWrite();
      if can {
        data[write] := c;
        write := write + 1;
        assert data[read..write] == old(data[read..write]) + [c];
      }
    }

    method Compact()
      requires InBounds()
      modifies this, data
      ensures Valid() && View() == old(View()).Compacted()
    {
      if read == 0 {
      } else if read == write {
        read, write := 0, 0;
      } else {
        // memmove towards the front, overlapping
        var n, i := write - read, 0;
        while i < n
          invariant 0 <= i <= n && read == old(read) && write == old(write)
          invariant forall k :: 0 <= k < i ==> data[k] == old(data[read + k])
          invariant forall k :: i <= k < data.Length ==> data[k] == old(data[k])
        {
          data[i] := data[read + i];
          i := i + 1;
        }
        assert data[..n] == old(data[read..write]);
        read, write := 0, n;
      }
    }
  }
}
