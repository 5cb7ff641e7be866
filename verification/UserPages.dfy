/** USERS of the manager protocol: `handleUsers` of src/manager/manager_handler.c, ten entries from an offset on. */
module UserPages {
  import opened Text
  import opened Commands
  import opened Users

  /** The characters of the local array in which the answer is put together, without the final NUL. */
  const AUX_SIZE := UDP_BUFFER_SIZE - 2

  /** The line of entry i of the table in memory, its strings read as far as they run. */
  function EntryLine(us: seq<User>, i: nat): string
    requires i < |us|
  {
    Dec(i + 1) + " " + NameAt(us, i) + ":" + PassAt(us, i) + "\r\n"
  }

  function Lines(us: seq<User>, lo: nat, hi: nat): string
    requires lo <= hi <= |us|
    decreases hi - lo
  {
    if lo == hi then "" else Lines(us, lo, hi - 1) + EntryLine(us, hi - 1)
  }

  function LastOf(n: nat, offset: nat): nat {
    if offset + 9 > n then n else offset + 9
  }

  function Header(n: nat, offset: int): string {
    "+OK User list follows (" + Dec(offset) + " - " + Dec(if offset + 9 > n then n else offset + 9) + "):\n"
  }

  /** The page of a valid offset, the first n entries being used. */
  function Page(us: seq<User>, n: nat, offset: nat): string
    requires 1 <= offset <= n <= |us|
  {
    Header(n, offset) + (Lines(us, offset - 1, LastOf(n, offset)) + ".\r\n")
  }

  /** The answer to USERS with this argument; None when the program writes behind its local array. */
  function Answer(us: seq<User>, n: nat, request: Option<string>): Option<string>
    requires n <= |us|
  {
    if request.None? then Some("-ERR Please specify offset\r\n") else
    var offset := Atoi(request.value);
    if offset < 1 || offset > n then Some("-ERR Offset must be between 1 and " + Dec(n) + "\r\n")
    else if |Page(us, n, offset)| > AUX_SIZE then None
    else Some(Page(us, n, offset))
  }

  lemma {:induction false} LinesJoin(us: seq<User>, a: nat, b: nat, c: nat)
    requires a <= b <= c <= |us|
    ensures Lines(us, a, b) + Lines(us, b, c) == Lines(us, a, c)
    decreases c - b
  {
    hide EntryLine;
    if b < c {
      LinesJoin(us, a, b, c - 1);
      assert Lines(us, a, b) + (Lines(us, b, c - 1) + EntryLine(us, c - 1))
          == Lines(us, a, b) + Lines(us, b, c - 1) + EntryLine(us, c - 1);
    } else {
      assert Lines(us, a, b) + "" == Lines(us, a, b);
    }
  }

  /** The answer, spelt out. */
  lemma {:induction false} AnswerSpelled(us: seq<User>, n: nat, request: Option<string>)
    requires n <= |us|
    ensures request.None? ==> Answer(us, n, request) == Some("-ERR Please specify offset\r\n")
    ensures request.Some? ==>
              var offset := Atoi(request.value);
              var last := if offset + 9 > n then n else offset + 9;
              if offset < 1 || offset > n
              then Answer(us, n, request) == Some("-ERR Offset must be between 1 and " + Dec(n) + "\r\n")
              else
                var text := "+OK User list follows (" + Dec(offset) + " - " + Dec(last) + "):\n"
                            + (Lines(us, offset - 1, last) + ".\r\n");
                Answer(us, n, request) == if |text| < UDP_BUFFER_SIZE - 1 then Some(text) else None
  {
    hide Dec, Lines, Atoi;
  }

  /** What a client takes from a page: all between its first line and the final dot. */
  function Body(page: string): string {
    var i := IndexOf(page, '\n');
    if i + 4 > |page| then "" else page[i + 1..|page| - 3]
  }

  /** No page at offset, offset + 10, offset + 20 and so on overruns the program's array. */
  predicate AllAnswered(us: seq<User>, n: nat, offset: nat)
    requires n <= |us|
    decreases n - offset
  {
    offset > n || (Answer(us, n, Some(Dec(offset))).Some? && AllAnswered(us, n, offset + 10))
  }

  /** What a client takes from the answers to USERS with these offsets. */
  function PagesFrom(us: seq<User>, n: nat, offset: nat): string
    requires n <= |us|
    decreases n - offset
  {
    if offset > n then "" else
    (match Answer(us, n, Some(Dec(offset))) case None => "" case Some(page) => Body(page))
    + PagesFrom(us, n, offset + 10)
  }

  lemma {:induction false} BodyOfPage(us: seq<User>, n: nat, offset: nat)
    requires 1 <= offset <= n <= |us|
    ensures Body(Page(us, n, offset)) == Lines(us, offset - 1, LastOf(n, offset))
  {
    hide Dec, Lines;
    var head, lines := Header(n, offset), Lines(us, offset - 1, LastOf(n, offset));
    DecReads(offset);
    DecReads(LastOf(n, offset));
    var first := head[..|head| - 1];
    assert '\n' !in first;
    assert head == first + "\n";
    var page := Page(us, n, offset);
    assert page == first + ("\n" + (lines + ".\r\n"));
    FirstLF(first, lines + ".\r\n");
  }

  lemma {:induction false} FirstLF(line: string, rest: string)
    requires '\n' !in line
    ensures IndexOf(line + ("\n" + rest), '\n') == |line|
    decreases |line|
  {
    if line == "" {
      assert line + ("\n" + rest) == "\n" + rest;
    } else {
      assert (line + ("\n" + rest))[1..] == line[1..] + ("\n" + rest);
      FirstLF(line[1..], rest);
    }
  }

  /** The answers to USERS 1, USERS 11, USERS 21, ... list every entry exactly once, in table order. */
  lemma {:induction false} PagesCoverTable(us: seq<User>, n: nat, offset: nat)
    requires 1 <= offset && n <= |us| <= MAX_USERS && AllAnswered(us, n, offset)
    ensures PagesFrom(us, n, offset) == if offset > n then "" else Lines(us, offset - 1, n)
    decreases n - offset
  {
    hide Dec, Atoi, EntryLine, Body, Page;
    if offset <= n {
      AtoiOfDec(offset);
      BodyOfPage(us, n, offset);
      PagesCoverTable(us, n, offset + 10);
      if offset + 10 <= n {
        LinesJoin(us, offset - 1, offset + 9, n);
      } else {
        assert Lines(us, offset - 1, n) + "" == Lines(us, offset - 1, n);
      }
    }
  }

  // ----- when a page fits -----

  lemma {:induction false} EntryLineLength(us: seq<User>, i: nat)
    requires i < |us| <= MAX_USERS && Terminated(us[i])
    ensures EntryLine(us, i) == Dec(i + 1) + " " + NameOf(us[i]) + ":" + PassOf(us[i]) + "\r\n"
    ensures |EntryLine(us, i)| <= 70
  {
    hide NameOf, PassOf, NameAt, PassAt;
    ReadsOwnStrings(us, i);
    SmallDec(i + 1);
  }

  lemma {:induction false} SmallDec(n: nat)
    requires n <= MAX_USERS + 9
    ensures |Dec(n)| <= 4
  {
    assert Pow10(4) == 10_000 by {
      assert Pow10(2) == 100;
    }
    DecLength(n, 4);
  }

  lemma {:induction false} LinesLength(us: seq<User>, lo: nat, hi: nat)
    requires lo <= hi <= |us| <= MAX_USERS && forall i :: lo <= i < hi ==> Terminated(us[i])
    ensures |Lines(us, lo, hi)| <= 70 * (hi - lo)
    decreases hi - lo
  {
    hide EntryLine, Terminated;
    if lo < hi {
      LinesLength(us, lo, hi - 1);
      EntryLineLength(us, hi - 1);
    }
  }

  /** Where no string fills its array, every page fits, and no answer is lost. */
  lemma {:induction false} PageFits(us: seq<User>, n: nat, offset: nat)
    requires 1 <= offset <= n <= |us| <= MAX_USERS && forall i :: 0 <= i < n ==> Terminated(us[i])
    ensures |Page(us, n, offset)| <= AUX_SIZE
  {
    hide Lines;
    SmallDec(offset);
    SmallDec(if offset + 9 > n then n else offset + 9);
    LinesLength(us, offset - 1, LastOf(n, offset));
  }

  /** Entry i of a table whose strings all fill their arrays is read on to the end of the last such entry. */
  lemma {:induction false} FullEntriesRunOn(us: seq<User>, i: nat, n: nat)
    requires i <= n <= |us|
    requires forall k :: i <= k < n ==>
               |us[k].name| == |us[k].pass| == MAX_LENGTH && '\0' !in us[k].name && '\0' !in us[k].pass
    ensures |NameAt(us, i)| >= 2 * MAX_LENGTH * (n - i)
    ensures i < n ==> |PassAt(us, i)| >= 2 * MAX_LENGTH * (n - i) - MAX_LENGTH
    decreases n - i
  {
    hide CStr, Memory, NameAt, PassAt;
    if i < n {
      var u := us[i];
      assert u.name[..MAX_LENGTH] == u.name && u.pass[..MAX_LENGTH] == u.pass;
      FullEntriesRunOn(us, i + 1, n);
      StoredEntryReads(us, i, u.name, u.pass);
    }
  }

  /** Four users whose names and passwords have 32 characters each: the first page is written behind the local array. */
  lemma {:induction false} FullEntriesOverflow(us: seq<User>, n: nat, request: string)
    requires 4 <= n <= |us| && Atoi(request) == 1
    requires forall k :: 0 <= k < 4 ==>
               |us[k].name| == |us[k].pass| == MAX_LENGTH && '\0' !in us[k].name && '\0' !in us[k].pass
    ensures Answer(us, n, Some(request)) == None
  {
    hide Dec, NameAt, PassAt, Atoi;
    FullEntriesRunOn(us, 0, 4);
    FullEntriesRunOn(us, 1, 4);
    FullEntriesRunOn(us, 2, 4);
    FullEntriesRunOn(us, 3, 4);
    FourLines(us);
    LinesJoin(us, 0, 4, LastOf(n, 1));
  }

  lemma {:induction false} FourLines(us: seq<User>)
    requires |us| >= 4
    ensures |Lines(us, 0, 4)| >= |NameAt(us, 0)| + |PassAt(us, 0)| + |NameAt(us, 1)| + |PassAt(us, 1)|
                                 + |NameAt(us, 2)| + |PassAt(us, 2)| + |NameAt(us, 3)| + |PassAt(us, 3)|
  {
    hide Dec, NameAt, PassAt;
    assert Lines(us, 0, 2) == Lines(us, 0, 1) + EntryLine(us, 1);
    assert Lines(us, 0, 3) == Lines(us, 0, 2) + EntryLine(us, 2);
  }

  // ----- the handler -----

  /** `handleUsers`; no request is a missing argument. */
  method HandleUsers(table: UserTable, request: Option<string>) returns (response: Option<string>)
    requires table.Valid()
    ensures response == Answer(table.users[..], table.count, request)
  {
    hide Dec, EntryLine, Atoi, Header, NameAt, PassAt, Lines;
    if request.None? {
      return Some("-ERR Please specify offset\r\n");
    }
    var offset := Atoi(request.value);
    var aux := Header(table.count, offset);
    if offset < 1 || offset > table.count {
      return Some("-ERR Offset must be between 1 and " + Dec(table.count) + "\r\n");
    }
    var lines := EntryLines(table, offset);
    aux := aux + (lines + ".\r\n");
    if |aux| > AUX_SIZE {
      return None;
    }
    if |aux| >= UDP_BUFFER_SIZE {
      return Some("-ERR UDP buffer size limit exceeded");
    }
    return Some(aux);
  }

  /** The loop of `handleUsers`. */
  method EntryLines(table: UserTable, offset: nat) returns (lines: string)
    requires table.Valid() && 1 <= offset <= table.count
    ensures lines == Lines(table.users[..], offset - 1, LastOf(table.count, offset))
  {
    hide Dec, NameAt, PassAt;
    var i := offset - 1;
    lines := "";
    while i < table.count && i < offset + 9
      invariant offset - 1 <= i <= table.count && i <= offset + 9
      invariant lines == Lines(table.users[..], offset - 1, i)
    {
      lines := lines + (Dec(i + 1) + " " + NameAt(table.users[..], i) + ":" + PassAt(table.users[..], i) + "\r\n");
      i := i + 1;
    }
  }
}
