/** The descriptor table and dispatch loop of src/utils/selector.c. */
module Selectors {
  import opened Text

  const FD_UNUSED := -1
  const FD_SETSIZE := 1024

  datatype Interest = Interest(read: bool, write: bool)

  const OP_NOOP := Interest(false, false)

  datatype Item = Item(fd: int, interest: Interest, handler: nat, data: nat)

  const FREE := Item(FD_UNUSED, OP_NOOP, 0, 0)

  datatype Status = SUCCESS | MAXFD | IARGS | FDINUSE

  predicate InvalidFd(fd: int) {
    fd < 0 || fd >= FD_SETSIZE
  }

  // ----- capacity -----

  function Pow2(k: nat): (p: nat)
    ensures p > 0
  {
    if k == 0 then 1 else 2 * Pow2(k - 1)
  }

  function Bits(n: nat): nat {
    if n == 0 then 0 else 1 + Bits(n / 2)
  }

  /** The size the table is given to hold index n - 1 and some slack. */
  function Capacity(n: nat): nat {
    var p := Pow2(Bits(n));
    (if p > FD_SETSIZE then FD_SETSIZE else p) + 1
  }

  lemma {:induction false} BitsBound(n: nat)
    ensures n < Pow2(Bits(n)) && (n > 0 ==> Pow2(Bits(n)) <= 2 * n)
  {
    if n > 0 {
      BitsBound(n / 2);
    }
  }

  /** `next_capacity` always exceeds what was asked for, and covers every valid descriptor exactly from 512 on. */
  lemma {:induction false} CapacityIsEnough(n: nat)
    requires n <= FD_SETSIZE
    ensures n < Capacity(n) <= FD_SETSIZE + 1
    ensures Capacity(n) >= FD_SETSIZE <==> n >= FD_SETSIZE / 2
  {
    BitsBound(n);
    if n >= FD_SETSIZE / 2 {
      PowerAbove(Bits(n));
    }
  }

  lemma {:induction false} PowerAbove(k: nat)
    requires Pow2(k) > FD_SETSIZE / 2
    ensures Pow2(k) >= FD_SETSIZE
  {
    assert Pow2(9) == FD_SETSIZE / 2 by {
      assert Pow2(3) == 8;
      assert Pow2(6) == 64;
    }
    if k < 10 {
      PowerMonotone(k, 9);
    } else {
      assert Pow2(10) == FD_SETSIZE;
      PowerMonotone(10, k);
    }
  }

  lemma {:induction false} PowerMonotone(j: nat, k: nat)
    requires j <= k
    ensures Pow2(j) <= Pow2(k)
    decreases k
  {
    if j < k {
      PowerMonotone(j, k - 1);
    }
  }

  method NextCapacity(n: nat) returns (size: nat)
    ensures size == Capacity(n)
  {
    var bits: nat, tmp: nat := 0, n;
    while tmp != 0
      invariant bits + Bits(tmp) == Bits(n)
      decreases tmp
    {
      tmp := tmp / 2;
      bits := bits + 1;
    }
    tmp := Pow2(bits);
    if tmp > FD_SETSIZE {
      tmp := FD_SETSIZE;
    }
    size := tmp + 1;
  }

  // ----- the table as a map, and what handlers may do to it -----

  type Table = map<int, Item>

  datatype Action =
    | SetTo(fd: int, interest: Interest)
    | Add(fd: int, handler: nat, interest: Interest, data: nat)
    | Drop(fd: int)

  function Readers(t: Table): set<int> {
    set fd | fd in t && t[fd].interest.read
  }

  function Writers(t: Table): set<int> {
    set fd | fd in t && t[fd].interest.write
  }

  lemma {:induction false} InterestSets(t: Table, fd: int, item: Item)
    ensures Readers(t[fd := item]) == Readers(t) - {fd} + if item.interest.read then {fd} else {}
    ensures Writers(t[fd := item]) == Writers(t) - {fd} + if item.interest.write then {fd} else {}
    ensures Readers(t - {fd}) == Readers(t) - {fd} && Writers(t - {fd}) == Writers(t) - {fd}
  {
  }

  function Act(t: Table, a: Action): Table {
    match a
    case SetTo(fd, i) => if fd in t then t[fd := t[fd].(interest := i)] else t
    case Add(fd, h, i, d) => if InvalidFd(fd) || fd in t then t else t[fd := Item(fd, i, h, d)]
    case Drop(fd) => t - {fd}
  }

  /** What an action does to each descriptor. */
  lemma {:induction false} ActAt(t: Table, a: Action, fd: int)
    ensures fd != a.fd ==> (fd in Act(t, a) <==> fd in t) && (fd in t ==> Act(t, a)[fd] == t[fd])
    ensures a.Drop? ==> a.fd !in Act(t, a)
    ensures a.SetTo? ==> (a.fd in Act(t, a) <==> a.fd in t)
    ensures a.SetTo? && a.fd in t ==> Act(t, a)[a.fd] == Item(t[a.fd].fd, a.interest, t[a.fd].handler, t[a.fd].data)
    ensures a.Add? && a.fd in t ==> Act(t, a) == t
    ensures a.Add? && a.fd !in t ==> (a.fd in Act(t, a) <==> 0 <= a.fd < FD_SETSIZE)
    ensures a.Add? && a.fd !in t && a.fd in Act(t, a) ==> Act(t, a)[a.fd] == Item(a.fd, a.interest, a.handler, a.data)
  {
  }

  function ActAll(t: Table, actions: seq<Action>): Table
    decreases |actions|
  {
    if actions == [] then t else ActAll(Act(t, actions[0]), actions[1..])
  }

  /** One call of a handler with the data of its key, and the table at that moment. */
  datatype Call = Call(fd: int, write: bool, handler: nat, data: nat, table: Table)

  /** What the k-th handler call of an iteration does. */
  function Actions(script: seq<seq<Action>>, k: nat): seq<Action> {
    if k < |script| then script[k] else []
  }

  /**
   * One round of the two tests of `handle_iteration` for descriptor i, `k` calls made; the key's data is copied once.
   */
  function Visit(t: Table, i: int, readable: set<int>, writable: set<int>, script: seq<seq<Action>>, k: nat): (Table,
                 seq<Call>) {
    if i !in t then (t, []) else
    var called := i in readable && t[i].interest.read;
    var u := if called then ActAll(t, Actions(script, k)) else t;
    var first := if called then [Call(i, false, t[i].handler, t[i].data, t)] else [];
    if i in writable && i in u && u[i].interest.write
    then (ActAll(u, Actions(script, k + |first|)), first + [Call(i, true, u[i].handler, t[i].data, u)])
    else (u, first)
  }

  /** `handle_iteration` from descriptor i up to the largest one at its start. */
  function Dispatch(t: Table, i: nat, last: int, readable: set<int>, writable: set<int>, script: seq<seq<Action>>,
                    k: nat): (Table, seq<Call>)
    decreases last - i
  {
    if i > last then (t, []) else
    var (u, calls) := Visit(t, i, readable, writable, script, k);
    var (end, more) := Dispatch(u, i + 1, last, readable, writable, script, k + |calls|);
    (end, calls + more)
  }

  /** The call was made for a used descriptor that was ready and interested at that very moment. */
  ghost predicate Legitimate(c: Call, readable: set<int>, writable: set<int>) {
    && c.fd in c.table && c.handler == c.table[c.fd].handler
    && if c.write then c.fd in writable && c.table[c.fd].interest.write
       else c.fd in readable && c.table[c.fd].interest.read
  }

  /** Calls for descriptors lo to hi, in descriptor order, a read before a write. */
  ghost predicate InOrder(calls: seq<Call>, lo: int, hi: int) {
    && (forall a :: 0 <= a < |calls| ==> lo <= calls[a].fd <= hi)
    && (forall a, b :: 0 <= a < b < |calls| ==>
          calls[a].fd < calls[b].fd || (calls[a].fd == calls[b].fd && !calls[a].write && calls[b].write))
  }

  ghost predicate AllLegitimate(calls: seq<Call>, readable: set<int>, writable: set<int>) {
    forall a :: 0 <= a < |calls| ==> Legitimate(calls[a], readable, writable)
  }

  lemma {:induction false} VisitIsSafe(t: Table, i: int, readable: set<int>, writable: set<int>,
                                       script: seq<seq<Action>>, k: nat)
    ensures var calls := Visit(t, i, readable, writable, script, k).1;
            AllLegitimate(calls, readable, writable) && InOrder(calls, i, i)
  {
    hide ActAll, Actions;
  }

  /** Whatever the handlers do to the table, every call is legitimate; reads come before writes, in descriptor order. */
  lemma {:induction false} DispatchIsSafe(t: Table, i: nat, last: int, readable: set<int>, writable: set<int>,
                                          script: seq<seq<Action>>, k: nat)
    ensures var calls := Dispatch(t, i, last, readable, writable, script, k).1;
            AllLegitimate(calls, readable, writable) && InOrder(calls, i, last)
    decreases last - i
  {
    hide Visit, Legitimate;
    if i <= last {
      var (u, calls) := Visit(t, i, readable, writable, script, k);
      VisitIsSafe(t, i, readable, writable, script, k);
      DispatchIsSafe(u, i + 1, last, readable, writable, script, k + |calls|);
    }
  }

  lemma {:induction false} VisitAfterUnregistering(t: Table, i: int, readable: set<int>, writable: set<int>,
                                                   script: seq<seq<Action>>, k: nat)
    ensures var calls := Visit(t, i, readable, writable, script, k).1;
            |calls| <= 2 && (|calls| == 2 ==> calls[0].fd in ActAll(calls[0].table, Actions(script, k)))
  {
    hide ActAll, Actions;
  }

  /** A descriptor whose read handler leaves it unregistered is not called again in this iteration. */
  lemma {:induction false} NoCallAfterUnregistering(t: Table, i: nat, last: int, readable: set<int>, writable: set<int>,
                                                   script: seq<seq<Action>>, k: nat, a: nat, b: nat)
    requires var calls := Dispatch(t, i, last, readable, writable, script, k).1;
             a < b < |calls| && calls[a].fd !in ActAll(calls[a].table, Actions(script, k + a))
    ensures var calls := Dispatch(t, i, last, readable, writable, script, k).1; calls[b].fd != calls[a].fd
    decreases last - i
  {
    hide ActAll, Actions, Visit;
    var (u, calls) := Visit(t, i, readable, writable, script, k);
    var more := Dispatch(u, i + 1, last, readable, writable, script, k + |calls|).1;
    VisitIsSafe(t, i, readable, writable, script, k);
    VisitAfterUnregistering(t, i, readable, writable, script, k);
    DispatchIsSafe(u, i + 1, last, readable, writable, script, k + |calls|);
    if a >= |calls| {
      NoCallAfterUnregistering(u, i + 1, last, readable, writable, script, k + |calls|, a - |calls|, b - |calls|);
    }
  }

  // ----- the data handed to handlers -----

  /** The handler gets the data that its descriptor has at that moment. */
  predicate Current(c: Call) {
    c.fd in c.table && c.data == c.table[c.fd].data
  }

  /** A descriptor's data, if it is used. */
  function DataIn(t: Table, fd: int): Option<nat> {
    if fd in t then Some(t[fd].data) else None
  }

  /** What actions make of it: adding sets it only on a free valid descriptor, dropping clears it. */
  function DataAfter(actions: seq<Action>, fd: int, d: Option<nat>): Option<nat>
    decreases |actions|
  {
    if actions == [] then d else
    var next :=
      match actions[0]
      case SetTo(_, _) => d
      case Add(f, _, _, x) => if f == fd && !InvalidFd(fd) && d == None then Some(x) else d
      case Drop(f) => if f == fd then None else d;
    DataAfter(actions[1..], fd, next)
  }

  lemma {:induction false} DataFollows(t: Table, actions: seq<Action>, fd: int)
    ensures DataIn(ActAll(t, actions), fd) == DataAfter(actions, fd, DataIn(t, fd))
    decreases |actions|
  {
    if actions != [] {
      DataFollows(Act(t, actions[0]), actions[1..], fd);
    }
  }

  /** Every read handler that is followed by the write handler of its descriptor leaves the descriptor its data. */
  ghost predicate KeepData(calls: seq<Call>, script: seq<seq<Action>>, k: nat) {
    forall a :: 0 <= a < |calls| - 1 && calls[a].fd == calls[a + 1].fd ==>
      DataAfter(Actions(script, k + a), calls[a].fd, Some(calls[a].data)) == Some(calls[a].data)
  }

  ghost predicate AllCurrent(calls: seq<Call>) {
    forall a :: 0 <= a < |calls| ==> Current(calls[a])
  }

  lemma {:induction false} VisitData(t: Table, i: int, readable: set<int>, writable: set<int>,
                                     script: seq<seq<Action>>, k: nat)
    ensures var calls := Visit(t, i, readable, writable, script, k).1;
            AllCurrent(calls) <==> KeepData(calls, script, k)
  {
    hide ActAll, DataAfter, Actions;
    DataFollows(t, Actions(script, k), i);
    var calls := Visit(t, i, readable, writable, script, k).1;
    if |calls| == 2 {
      assert KeepData(calls, script, k) <==> DataAfter(Actions(script, k), i, Some(t[i].data)) == Some(t[i].data) by {
        assert calls[0].fd == calls[0 + 1].fd == i && k + 0 == k;
      }
      assert AllCurrent(calls) <==> Current(calls[0]) && Current(calls[1]);
    }
  }

  lemma {:induction false} KeepDataConcat(x: seq<Call>, y: seq<Call>, script: seq<seq<Action>>, k: nat)
    requires forall a, b :: 0 <= a < |x| && 0 <= b < |y| ==> x[a].fd != y[b].fd
    ensures KeepData(x + y, script, k) <==> KeepData(x, script, k) && KeepData(y, script, k + |x|)
    ensures AllCurrent(x + y) <==> AllCurrent(x) && AllCurrent(y)
  {
    hide DataAfter, Actions, Current;
    var z := x + y;
    assert forall a :: 0 <= a < |x| ==> z[a] == x[a];
    assert forall a :: 0 <= a < |y| ==> z[|x| + a] == y[a];
    if KeepData(z, script, k) {
      forall a | 0 <= a < |y| - 1 && y[a].fd == y[a + 1].fd
        ensures DataAfter(Actions(script, k + |x| + a), y[a].fd, Some(y[a].data)) == Some(y[a].data)
      {
        assert z[|x| + a].fd == z[|x| + a + 1].fd && k + (|x| + a) == k + |x| + a;
      }
    }
    if KeepData(x, script, k) && KeepData(y, script, k + |x|) {
      forall a | 0 <= a < |z| - 1 && z[a].fd == z[a + 1].fd
        ensures DataAfter(Actions(script, k + a), z[a].fd, Some(z[a].data)) == Some(z[a].data)
      {
        if a >= |x| {
          assert y[a - |x|].fd == y[a - |x| + 1].fd && k + |x| + (a - |x|) == k + a;
        }
      }
    }
  }

  /**
   * Every handler gets the data its descriptor has at that moment, if and only if each read handler that is followed by
   * the write handler of its descriptor leaves the descriptor with the data it had.
   */
  lemma {:induction false} DispatchHandsCurrentData(t: Table, i: nat, last: int, readable: set<int>, writable: set<int>,
                                                    script: seq<seq<Action>>, k: nat)
    ensures var calls := Dispatch(t, i, last, readable, writable, script, k).1;
            AllCurrent(calls) <==> KeepData(calls, script, k)
    decreases last - i
  {
    hide Visit, KeepData, AllCurrent;
    if i <= last {
      var (u, calls) := Visit(t, i, readable, writable, script, k);
      var more := Dispatch(u, i + 1, last, readable, writable, script, k + |calls|).1;
      VisitData(t, i, readable, writable, script, k);
      VisitIsSafe(t, i, readable, writable, script, k);
      DispatchIsSafe(u, i + 1, last, readable, writable, script, k + |calls|);
      DispatchHandsCurrentData(u, i + 1, last, readable, writable, script, k + |calls|);
      KeepDataConcat(calls, more, script, k);
    } else {
      NoCalls(script, k);
    }
  }

  lemma {:induction false} NoCalls(script: seq<seq<Action>>, k: nat)
    ensures KeepData([], script, k) && AllCurrent([])
  {
  }

  /** A read handler that drops its descriptor and adds it again: the write handler then gets the old data. */
  lemma {:induction false} ReuseHandsStaleData(fd: nat, handler: nat, was: nat, data: nat)
    requires fd < FD_SETSIZE && was != data
    ensures var both := Interest(true, true);
            var script := [[Drop(fd), Add(fd, handler, both, data)]];
            var calls := Visit(map[fd := Item(fd, both, handler, was)], fd, {fd}, {fd}, script, 0).1;
            |calls| == 2 && calls[1].write && !Current(calls[1])
  {
    var both := Interest(true, true);
    var t: Table := map[fd := Item(fd, both, handler, was)];
    var actions := [Drop(fd), Add(fd, handler, both, data)];
    assert actions[1..] == [Add(fd, handler, both, data)] && actions[1..][1..] == [];
    assert ActAll(Act(t, Drop(fd)), actions[1..]) == Act(Act(t, Drop(fd)), Add(fd, handler, both, data));
    assert ActAll(t, actions) == Act(Act(t, Drop(fd)), Add(fd, handler, both, data));
  }

  ghost predicate Has(calls: seq<Call>, fd: int, write: bool) {
    exists a :: 0 <= a < |calls| && calls[a].fd == fd && calls[a].write == write
  }

  lemma {:induction false} HasConcat(x: seq<Call>, y: seq<Call>, fd: int, write: bool)
    ensures Has(x + y, fd, write) <==> Has(x, fd, write) || Has(y, fd, write)
  {
    if Has(x, fd, write) {
      var a :| 0 <= a < |x| && x[a].fd == fd && x[a].write == write;
      assert (x + y)[a] == x[a];
    }
    if Has(y, fd, write) {
      var a :| 0 <= a < |y| && y[a].fd == fd && y[a].write == write;
      assert (x + y)[|x| + a] == y[a];
    }
  }

  lemma {:induction false} VisitIsComplete(t: Table, i: int, readable: set<int>, writable: set<int>, k: nat)
    ensures var (u, calls) := Visit(t, i, readable, writable, [], k);
            && u == t
            && (Has(calls, i, false) <==> i in t && i in readable && t[i].interest.read)
            && (Has(calls, i, true) <==> i in t && i in writable && t[i].interest.write)
  {
    var calls := Visit(t, i, readable, writable, [], k).1;
    if calls != [] {
      assert calls[0].fd == calls[|calls| - 1].fd == i;
    }
  }

  /** When handlers leave the table alone, exactly the ready and interested descriptors are called. */
  lemma {:induction false} DispatchIsComplete(t: Table, i: nat, last: int, readable: set<int>, writable: set<int>,
                                              k: nat, fd: int)
    requires i <= fd <= last
    ensures var (end, calls) := Dispatch(t, i, last, readable, writable, [], k);
            && end == t
            && (Has(calls, fd, false) <==> fd in t && fd in readable && t[fd].interest.read)
            && (Has(calls, fd, true) <==> fd in t && fd in writable && t[fd].interest.write)
    decreases last - i
  {
    hide Visit;
    var calls := Visit(t, i, readable, writable, [], k).1;
    VisitIsComplete(t, i, readable, writable, k);
    VisitIsSafe(t, i, readable, writable, [], k);
    var more := Dispatch(t, i + 1, last, readable, writable, [], k + |calls|).1;
    HasConcat(calls, more, fd, false);
    HasConcat(calls, more, fd, true);
    if i == fd {
      NothingLeft(t, i + 1, last, readable, writable, k + |calls|);
      DispatchIsSafe(t, i + 1, last, readable, writable, [], k + |calls|);
    } else {
      DispatchIsComplete(t, i + 1, last, readable, writable, k + |calls|, fd);
    }
  }

  lemma {:induction false} NothingLeft(t: Table, i: nat, last: int, readable: set<int>, writable: set<int>, k: nat)
    ensures Dispatch(t, i, last, readable, writable, [], k).0 == t
    decreases last - i
  {
    if i <= last {
      NothingLeft(t, i + 1, last, readable, writable, k + |Visit(t, i, readable, writable, [], k).1|);
    }
  }

  // ----- the selector object -----

  class Selector {
    var fds: array<Item>
    var maxFd: int
    var masterR: set<int>
    var masterW: set<int>

    /** The used slots. */
    function View(): Table
      reads `fds, fds
    {
      map i | 0 <= i < fds.Length && fds[i].fd != FD_UNUSED :: fds[i]
    }

    ghost predicate Slots()
      reads `fds, fds
    {
      && fds.Length > 0
      && forall i :: 0 <= i < fds.Length ==> fds[i] == FREE || (fds[i].fd == i && i < FD_SETSIZE)
    }

    /** The interest sets are those of the used slots; `maxFd` is the largest of them, 0 if there is none. */
    ghost predicate Valid()
      reads this, fds
    {
      && Slots()
      && masterR == Readers(View())
      && masterW == Writers(View())
      && (forall fd :: fd in View() ==> fd <= maxFd)
      && (maxFd in View() || (maxFd == 0 && View() == map[]))
    }

    /** Every valid descriptor has a slot, so no access is out of bounds. */
    ghost predicate Covers()
      reads this
    {
      fds.Length >= FD_SETSIZE
    }

    /** The selector that `selector_new` gives for a size it accepts. */
    constructor (initial: nat)
      requires initial <= FD_SETSIZE
      ensures Valid() && fresh(fds) && View() == map[]
      ensures Covers() <==> initial >= FD_SETSIZE / 2
    {
      CapacityIsEnough(initial);
      fds := new Item[Capacity(initial)](_ => FREE);
      maxFd, masterR, masterW := 0, {}, {};
      new;
      assert View() == map[];
    }

    /** `selector_new`: null for more elements than there can be descriptors. */
    static method New(initial: nat) returns (s: Selector?)
      ensures s == null <==> initial > FD_SETSIZE
      ensures s != null ==> fresh(s) && fresh(s.fds) && s.Valid() && s.View() == map[]
      ensures s != null ==> (s.Covers() <==> initial >= FD_SETSIZE / 2)
    {
      if initial > FD_SETSIZE {
        return null;
      }
      s := new Selector(initial);
    }

    /** `items_max_fd` */
    method ItemsMaxFd() returns (max: int)
      requires Slots() && maxFd < fds.Length && forall fd :: fd in View() ==> fd <= maxFd
      ensures max in View() || (max == 0 && forall fd :: fd in View() ==> fd == 0)
      ensures forall fd :: fd in View() ==> fd <= max
    {
      max := 0;
      var i := 0;
      while i <= maxFd
        invariant 0 <= i && (max == 0 || max in View())
        invariant forall fd :: fd in View() && fd < i ==> fd <= max
      {
        if fds[i].fd != FD_UNUSED && fds[i].fd > max {
          max := fds[i].fd;
        }
        i := i + 1;
      }
      if max == 0 && 0 !in View() {
        assert forall fd :: fd in View() ==> fd == 0;
      }
    }

    /** `items_update_fdset_for_fd` for the used slot i. */
    method UpdateFdset(i: nat)
      requires i < fds.Length && fds[i].fd == i
      modifies this`masterR, this`masterW
      ensures masterR == old(masterR) - {i} + if fds[i].interest.read then {i} else {}
      ensures masterW == old(masterW) - {i} + if fds[i].interest.write then {i} else {}
    {
      masterR, masterW := masterR - {i}, masterW - {i};
      if fds[i].interest.read {
        masterR := masterR + {i};
      }
      if fds[i].interest.write {
        masterW := masterW + {i};
      }
    }

    /** `realloc`, and `items_init` behind the old entries. */
    static method Grown(items: array<Item>, size: nat) returns (grown: array<Item>)
      requires items.Length <= size
      ensures fresh(grown) && grown.Length == size
      ensures forall j :: 0 <= j < size ==> grown[j] == if j < items.Length then items[j] else FREE
    {
      grown := new Item[size](_ => FREE);
      var i := 0;
      while i < items.Length
        invariant 0 <= i <= items.Length
        invariant forall j :: 0 <= j < size ==> grown[j] == if j < i then items[j] else FREE
      {
        grown[i] := items[i];
        i := i + 1;
      }
    }

    /** `ensure_capacity` on an existing table: reallocated, the new slots free. */
    method EnsureCapacity(n: nat) returns (ret: Status)
      requires Valid()
      modifies this`fds
      ensures Valid() && View() == old(View()) && maxFd == old(maxFd)
      ensures ret == if n < old(fds.Length) || n <= FD_SETSIZE then SUCCESS else MAXFD
      ensures ret == SUCCESS ==> n < fds.Length
      ensures fds == old(fds) || fresh(fds)
      ensures fds.Length >= old(fds.Length)
    {
      hide Readers, Writers;
      if n < fds.Length {
        return SUCCESS;
      } else if n > FD_SETSIZE {
        return MAXFD;
      }
      CapacityIsEnough(n);
      var size := NextCapacity(n);
      ghost var was := View();
      fds := Grown(fds, size);
      assert View() == was;
      return SUCCESS;
    }

    /** `selector_register`; None when it reads behind the table, which its test for room lets fd == fds.Length do. */
    method Register(fd: int, handler: nat, interest: Interest, data: nat) returns (ret: Option<Status>)
      requires Valid()
      modifies this, fds
      ensures Valid() && fds.Length >= old(fds.Length) && (fds == old(fds) || fresh(fds))
      ensures old(Covers()) ==> fds == old(fds)
      ensures ret == None <==> !InvalidFd(fd) && fd == old(fds.Length)
      ensures ret.Some? ==> ret.value == if InvalidFd(fd) then IARGS else if fd in old(View()) then FDINUSE else SUCCESS
      ensures View() == if ret.Some? then Act(old(View()), Add(fd, handler, interest, data)) else old(View())
    {
      hide Readers, Writers;
      if InvalidFd(fd) {
        return Some(IARGS);
      }
      if fd > fds.Length {
        var _ := EnsureCapacity(fd);
      }
      if fd >= fds.Length {
        return None;
      }
      if fds[fd].fd != FD_UNUSED {
        return Some(FDINUSE);
      }
      Occupy(fd, handler, interest, data);
      return Some(SUCCESS);
    }

    /** The registration proper, into a free slot. */
    method Occupy(fd: nat, handler: nat, interest: Interest, data: nat)
      requires Valid() && fd < fds.Length && fd < FD_SETSIZE && fds[fd] == FREE
      modifies `maxFd, `masterR, `masterW, fds
      ensures Valid() && View() == old(View())[fd := Item(fd, interest, handler, data)]
    {
      hide Readers, Writers;
      ghost var was := View();
      fds[fd] := Item(fd, interest, handler, data);
      if fd > maxFd {
        maxFd := fd;
      }
      assert View() == was[fd := fds[fd]];
      InterestSets(was, fd, fds[fd]);
      UpdateFdset(fd);
      assert forall k :: k in View() ==> k in was || k == fd;
    }

    /**
     * `selector_unregister_fd`, None when it reads behind the table; the handlers of this server have no
     * `handle_close`.
     */
    method Unregister(fd: int) returns (ret: Option<Status>)
      requires Valid()
      modifies this, fds
      ensures Valid() && fds == old(fds)
      ensures ret == None <==> !InvalidFd(fd) && fd >= fds.Length
      ensures ret.Some? ==> ret.value == if InvalidFd(fd) || fd !in old(View()) then IARGS else SUCCESS
      ensures View() == Act(old(View()), Drop(fd))
    {
      hide Readers, Writers;
      if InvalidFd(fd) {
        assert View() == View() - {fd};
        return Some(IARGS);
      }
      if fd >= fds.Length {
        assert View() == View() - {fd};
        return None;
      }
      if fds[fd].fd == FD_UNUSED {
        assert View() == View() - {fd};
        return Some(IARGS);
      }
      Vacate(fd);
      return Some(SUCCESS);
    }

    /** The unregistration proper, of a used slot. */
    method Vacate(fd: nat)
      requires Valid() && fd < fds.Length && fds[fd].fd == fd
      modifies `maxFd, `masterR, `masterW, fds
      ensures Valid() && View() == old(View()) - {fd}
    {
      hide Readers, Writers;
      ghost var was := View();
      fds[fd] := fds[fd].(interest := OP_NOOP);
      UpdateFdset(fd);
      fds[fd] := FREE;
      assert View() == was - {fd};
      InterestSets(was, fd, FREE);
      maxFd := ItemsMaxFd();
      assert maxFd !in View() ==> View() == map[];
    }

    /** `selector_set_interest`, None when it reads behind the table. */
    method SetInterest(fd: int, i: Interest) returns (ret: Option<Status>)
      requires Valid()
      modifies this, fds
      ensures Valid() && fds == old(fds)
      ensures ret == None <==> !InvalidFd(fd) && fd >= fds.Length
      ensures ret.Some? ==> ret.value == if InvalidFd(fd) || fd !in old(View()) then IARGS else SUCCESS
      ensures View() == Act(old(View()), SetTo(fd, i))
    {
      hide Readers, Writers;
      if InvalidFd(fd) {
        return Some(IARGS);
      }
      if fd >= fds.Length {
        return None;
      }
      if fds[fd].fd == FD_UNUSED {
        return Some(IARGS);
      }
      ghost var was := View();
      fds[fd] := fds[fd].(interest := i);
      assert View() == was[fd := was[fd].(interest := i)];
      InterestSets(was, fd, fds[fd]);
      UpdateFdset(fd);
      assert forall k :: k in View() ==> k in was;
      return Some(SUCCESS);
    }

    /** What a handler does when it is called; false when the program reads behind the table. */
    method Perform(actions: seq<Action>) returns (ok: bool)
      requires Valid()
      modifies this, fds
      ensures Valid() && fds.Length >= old(fds.Length) && (fds == old(fds) || fresh(fds))
      ensures old(Covers()) ==> ok && fds == old(fds)
      ensures ok ==> View() == ActAll(old(View()), actions)
      decreases |actions|
    {
      hide Readers, Writers;
      if actions == [] {
        return true;
      }
      var ret;
      match actions[0] {
        case SetTo(fd, i) => ret := SetInterest(fd, i);
        case Add(fd, h, i, d) => ret := Register(fd, h, i, d);
        case Drop(fd) => ret := Unregister(fd);
      }
      if ret == None {
        return false;
      }
      ok := Perform(actions[1..]);
    }

    /**
     * The body of the loop of `handle_iteration`, `k` calls having been made; false also when a read handler has made
     * the table move, and the loop's pointer to the item is still into the old one.
     */
    method VisitSlot(i: nat, readable: set<int>, writable: set<int>, script: seq<seq<Action>>, k: nat)
        returns (ok: bool, calls: seq<Call>)
      requires Valid() && i < fds.Length
      modifies this, fds
      ensures Valid() && fds.Length >= old(fds.Length) && (fds == old(fds) || fresh(fds))
      ensures old(Covers()) ==> ok
      ensures ok ==> (View(), calls) == Visit(old(View()), i, readable, writable, script, k)
    {
      hide ActAll, Act, Actions;
      ok, calls := true, [];
      if fds[i].fd != FD_UNUSED {
        assert i in View() && View()[i] == fds[i];
        var item, data := fds, fds[i].data;
        if fds[i].fd in readable && fds[i].interest.read {
          calls := [Call(i, false, fds[i].handler, data, View())];
          ok := Perform(Actions(script, k));
        }
        if !ok {
          return;
        }
        assert i in View() ==> View()[i] == fds[i];
        assert i !in View() ==> fds[i] == FREE;
        if i in writable {
          if item != fds {
            return false, calls;
          }
          if fds[i].interest.write {
            var last := Call(i, true, fds[i].handler, data, View());
            ok := Perform(Actions(script, k + |calls|));
            calls := calls + [last];
          }
        }
      }
    }

    /**
     * `handle_iteration` on the sets that `select` has returned; it accesses only the table, if that covers all
     * descriptors.
     */
    method HandleIteration(readable: set<int>, writable: set<int>, script: seq<seq<Action>>)
        returns (ok: bool, calls: seq<Call>)
      requires Valid()
      modifies this, fds
      ensures Valid() && fds.Length >= old(fds.Length) && (fds == old(fds) || fresh(fds))
      ensures old(Covers()) ==> ok
      ensures ok ==> (View(), calls) == Dispatch(old(View()), 0, old(maxFd), readable, writable, script, 0)
    {
      hide Visit, View;
      var n, i := maxFd, 0;
      ok, calls := true, [];
      ghost var all := Dispatch(View(), 0, n, readable, writable, script, 0);
      LargestIsValid();
      assert [] + all.1 == all.1;
      while i <= n
        invariant 0 <= i && n < fds.Length && Valid() && (fds == old(fds) || fresh(fds))
        invariant fds.Length >= old(fds.Length)
        invariant var (end, more) := Dispatch(View(), i, n, readable, writable, script, |calls|);
                  all == (end, calls + more)
      {
        ghost var round := Visit(View(), i, readable, writable, script, |calls|);
        ghost var more := Dispatch(round.0, i + 1, n, readable, writable, script, |calls| + |round.1|).1;
        assert calls + (round.1 + more) == calls + round.1 + more;
        var fine, now := VisitSlot(i, readable, writable, script, |calls|);
        calls := calls + now;
        if !fine {
          return false, calls;
        }
        i := i + 1;
      }
      assert calls + [] == calls;
    }

    lemma {:induction false} LargestIsValid()
      requires Valid()
      ensures 0 <= maxFd < fds.Length
    {
    }

    /** The loop of `selector_destroy`: everything is unregistered before the table is freed. */
    method Destroy()
      requires Valid()
      modifies this, fds
      ensures Valid() && View() == map[] && masterR == masterW == {} && maxFd == 0
    {
      var i := 0;
      while i < fds.Length
        invariant 0 <= i <= fds.Length && Valid() && fds == old(fds)
        invariant forall fd :: fd in View() ==> i <= fd
      {
        if fds[i].fd != FD_UNUSED {
          var _ := Unregister(i);
        }
        i := i + 1;
      }
      assert View() == map[];
    }
  }
}
