/** The command language, read off a whole line at once: the reference for the byte machine of Parser.dfy. */
module Commands {
  import opened Text

  datatype Keyword =
    | QUIT | STAT | LIST | RETR | DELE | NOOP | RSET | TOP | UIDL | USER | PASS | APOP | CAPA | UNDEF | ERROR

  function Lookup(word: string): (k: Keyword)
    ensures k != UNDEF
  {
    if word == "QUIT" then QUIT
    else if word == "STAT" then STAT
    else if word == "LIST" then LIST
    else if word == "RETR" then RETR
    else if word == "DELE" then DELE
    else if word == "NOOP" then NOOP
    else if word == "RSET" then RSET
    else if word == "TOP" then TOP
    else if word == "UIDL" then UIDL
    else if word == "USER" then USER
    else if word == "PASS" then PASS
    else if word == "APOP" then APOP
    else if word == "CAPA" then CAPA
    else ERROR
  }

  datatype Command = Command(keyword: Keyword, arg1: string, arg2: string)

  const Malformed := Command(ERROR, "", "")

  /** Position of the first `c`, or |s|. */
  function IndexOf(s: string, c: char): (i: nat)
    ensures i <= |s| && c !in s[..i]
    ensures i < |s| ==> s[i] == c
    ensures c in s <==> i < |s|
  {
    if s == "" || s[0] == c then 0 else
    var i := 1 + IndexOf(s[1..], c);
    assert s[..i] == [s[0]] + s[1..][..i - 1];
    i
  }

  /** The segments between single spaces, possibly empty. */
  function Split(line: string): (segs: seq<string>)
    ensures segs != []
    decreases |line|
  {
    var i := IndexOf(line, ' ');
    if i == |line| then [line] else [line[..i]] + Split(line[i + 1..])
  }

  /** Some segment fills the parser's line buffer, which then stays full for ever. */
  ghost predicate Oversized(line: string) {
    exists seg :: seg in Split(line) && |seg| >= BUFFER_SIZE
  }

  /** What a zeroed argument buffer of the C code holds. */
  function Zeros(): (z: string)
    ensures |z| == BUFFER_SIZE && forall i :: 0 <= i < BUFFER_SIZE ==> z[i] == '\0'
  {
    seq(BUFFER_SIZE, _ => '\0')
  }

  /** `memcpy` of a segment over the start of an argument buffer. */
  function Overlay(arg: string, seg: string): (r: string)
    requires |seg| < |arg|
    ensures |r| == |arg| && r[|arg| - 1] == arg[|arg| - 1]
  {
    seg + arg[|seg|..]
  }

  /** The two argument buffers after the segments that follow the keyword; a buffer starting with NUL counts as free. */
  function Slots(a1: string, a2: string, segs: seq<string>): (string, string)
    requires |a1| == |a2| == BUFFER_SIZE
    requires forall seg :: seg in segs ==> |seg| < BUFFER_SIZE
    decreases |segs|
  {
    if segs == [] then (a1, a2)
    else if a1[0] == '\0' then Slots(Overlay(a1, segs[0]), a2, segs[1..])
    else if a2[0] == '\0' then Slots(a1, Overlay(a2, segs[0]), segs[1..])
    else (a1, a2)
  }

  ghost predicate EndsInCR(s: string) {
    s != "" && s[|s| - 1] == '\r'
  }

  /** The segments of a line, the last one without its CR. */
  ghost function Words(line: string): (words: seq<string>)
    ensures words != []
  {
    var segs := Split(line);
    var last := segs[|segs| - 1];
    segs[..|segs| - 1] + [if last == "" then "" else last[..|last| - 1]]
  }

  /** The command on a line (without its LF): a CR must end its last segment, keywords are case-insensitive. */
  ghost function ParseLine(line: string): Command
    requires !Oversized(line)
  {
    WordsAreShort(line);
    var segs, words := Split(line), Words(line);
    var keyword := Lookup(CStr(UpperAll(words[0])));
    var (a1, a2) := Slots(Zeros(), Zeros(), words[1..]);
    if !EndsInCR(segs[|segs| - 1]) || keyword == ERROR then Malformed else Command(keyword, CStr(a1), CStr(a2))
  }

  lemma {:induction false} WordsAreShort(line: string)
    requires !Oversized(line)
    ensures forall seg :: seg in Words(line) ==> |seg| < BUFFER_SIZE
  {
    var segs := Split(line);
    assert segs[|segs| - 1] in segs;
  }

  /** The commands that a byte stream completes, in order. */
  ghost function CommandsIn(stream: string): seq<Command>
    decreases |stream|
  {
    var i := IndexOf(stream, '\n');
    if i == |stream| || Oversized(stream[..i]) then [] else
    [ParseLine(stream[..i])] + CommandsIn(stream[i + 1..])
  }

  function NonEmpty(segs: seq<string>): (r: seq<string>)
    ensures forall seg :: seg in r ==> seg != ""
  {
    if segs == [] then [] else (if segs[0] == "" then [] else [segs[0]]) + NonEmpty(segs[1..])
  }

  function Nth(segs: seq<string>, k: nat): string {
    if k < |segs| then segs[k] else ""
  }

  /** For text without NULs the arguments are simply the next two non-empty segments. */
  lemma {:induction false} PlainArguments(segs: seq<string>)
    requires forall seg :: seg in segs ==> |seg| < BUFFER_SIZE && '\0' !in seg
    ensures var (a1, a2) := Slots(Zeros(), Zeros(), segs);
            CStr(a1) == Nth(NonEmpty(segs), 0) && CStr(a2) == Nth(NonEmpty(segs), 1)
  {
    CStrOfOverlay("");
    if segs != [] {
      var z := Zeros();
      CStrOfOverlay(segs[0]);
      if segs[0] == "" {
        assert Overlay(z, "") == z;
        PlainArguments(segs[1..]);
      } else {
        SecondArgument(Overlay(z, segs[0]), segs[1..]);
      }
    }
  }

  lemma {:induction false} CStrOfOverlay(seg: string)
    requires |seg| < BUFFER_SIZE && '\0' !in seg
    ensures CStr(Overlay(Zeros(), seg)) == seg
    ensures Overlay(Zeros(), "") == Zeros()
    ensures seg != "" ==> Overlay(Zeros(), seg)[0] != '\0'
  {
    CStrStops(seg, Zeros()[|seg|..]);
  }

  lemma {:induction false} CStrStops(s: string, t: string)
    requires t != "" && t[0] == '\0'
    ensures CStr(s + t) == CStr(s)
  {
    if s != "" && s[0] != '\0' {
      assert (s + t)[1..] == s[1..] + t;
      CStrStops(s[1..], t);
    }
  }

  lemma {:induction false} SecondArgument(a1: string, segs: seq<string>)
    requires |a1| == BUFFER_SIZE && a1[0] != '\0'
    requires forall seg :: seg in segs ==> |seg| < BUFFER_SIZE && '\0' !in seg
    ensures Slots(a1, Zeros(), segs).0 == a1
    ensures CStr(Slots(a1, Zeros(), segs).1) == Nth(NonEmpty(segs), 0)
    decreases |segs|
  {
    CStrOfOverlay("");
    if segs != [] {
      CStrOfOverlay(segs[0]);
      if segs[0] == "" {
        SecondArgument(a1, segs[1..]);
      } else {
        var a2 := Overlay(Zeros(), segs[0]);
        assert Slots(a1, a2, segs[1..]) == (a1, a2);
      }
    }
  }

  // ----- what is typed is what is parsed -----

  /** How a command is spelt. */
  function Spelling(k: Keyword): string {
    match k
    case QUIT => "QUIT" case STAT => "STAT" case LIST => "LIST" case RETR => "RETR" case DELE => "DELE"
    case NOOP => "NOOP" case RSET => "RSET" case TOP => "TOP" case UIDL => "UIDL" case USER => "USER"
    case PASS => "PASS" case APOP => "APOP" case CAPA => "CAPA"
    case UNDEF => "" case ERROR => ""
  }

  predicate Spelt(k: Keyword) {
    k != UNDEF && k != ERROR
  }

  /** A keyword is found exactly by its spelling; ERROR is left for every other word. */
  lemma {:induction false} LookupSpells(word: string)
    ensures forall k :: Spelt(k) ==> (Lookup(word) == k <==> word == Spelling(k))
    ensures Lookup(word) == ERROR <==> forall k :: Spelt(k) ==> word != Spelling(k)
  {
    SpellingsDiffer();
    if Lookup(word) != ERROR {
      assert word == Spelling(Lookup(word));
    }
  }

  lemma {:induction false} SpellingsDiffer()
    ensures forall k :: Spelt(k) ==> Lookup(Spelling(k)) == k
  {
  }

  /** The keyword of a line that ends in CR is that of its first word, in any case; ERROR exactly if there is none. */
  lemma {:induction false} KeywordOfLine(line: string)
    requires !Oversized(line) && EndsInCR(Split(line)[|Split(line)| - 1])
    ensures var word := CStr(UpperAll(Words(line)[0]));
            && (forall k :: Spelt(k) ==> (ParseLine(line).keyword == k <==> word == Spelling(k)))
            && (ParseLine(line) == Malformed <==> forall k :: Spelt(k) ==> word != Spelling(k))
  {
    hide Lookup, Slots, CStr, Split, Words, Oversized;
    WordsAreShort(line);
    LookupSpells(CStr(UpperAll(Words(line)[0])));
  }

  lemma {:induction false} LineEndsInCR(line: string)
    ensures EndsInCR(Split(line)[|Split(line)| - 1]) <==> line != "" && line[|line| - 1] == '\r'
    decreases |line|
  {
    hide IndexOf;
    var i := IndexOf(line, ' ');
    if i < |line| {
      var rest := line[i + 1..];
      LineEndsInCR(rest);
      assert Split(line) == [line[..i]] + Split(rest);
      hide Split;
      assert rest != "" ==> rest[|rest| - 1] == line[|line| - 1];
    } else {
      assert Split(line) == [line];
    }
  }

  /** A line is malformed exactly if no CR ends it, or its first word spells no keyword. */
  lemma {:induction false} MalformedExactly(line: string)
    requires !Oversized(line)
    ensures ParseLine(line) == Malformed
       <==> line == "" || line[|line| - 1] != '\r'
            || forall k :: Spelt(k) ==> CStr(UpperAll(Words(line)[0])) != Spelling(k)
  {
    hide Lookup, Slots, CStr, Split, Words, Oversized;
    LineEndsInCR(line);
    WordsAreShort(line);
    LookupSpells(CStr(UpperAll(Words(line)[0])));
  }

  lemma {:induction false} SplitCons(seg: string, rest: string)
    requires ' ' !in seg
    ensures Split(seg + (" " + rest)) == [seg] + Split(rest)
  {
    var line := seg + (" " + rest);
    FirstAt(seg, rest);
    assert line[..|seg|] == seg && line[|seg| + 1..] == rest;
  }

  lemma {:induction false} FirstAt(seg: string, rest: string)
    requires ' ' !in seg
    ensures IndexOf(seg + (" " + rest), ' ') == |seg|
    decreases |seg|
  {
    if seg == "" {
      assert seg + (" " + rest) == " " + rest;
    } else {
      assert (seg + (" " + rest))[1..] == seg[1..] + (" " + rest);
      FirstAt(seg[1..], rest);
    }
  }

  lemma {:induction false} SplitOne(seg: string)
    requires ' ' !in seg
    ensures Split(seg) == [seg]
  {
    assert IndexOf(seg, ' ') == |seg|;
  }

  /** A word as a client types it: no space, no NUL, no LF, not too long. */
  ghost predicate Typed(word: string) {
    ' ' !in word && '\0' !in word && '\n' !in word && |word| < BUFFER_SIZE - 1
  }

  /** The words of a line, a space between each two. */
  function Spaced(words: seq<string>): string
    requires words != []
    decreases |words|
  {
    if |words| == 1 then words[0] else words[0] + (" " + Spaced(words[1..]))
  }

  lemma {:induction false} SplitOfLine(words: seq<string>)
    requires words != [] && forall w :: w in words ==> ' ' !in w
    ensures Split(Spaced(words) + "\r") == words[..|words| - 1] + [words[|words| - 1] + "\r"]
    decreases |words|
  {
    hide Split;
    if |words| == 1 {
      SplitOne(words[0] + "\r");
    } else {
      var rest := words[1..];
      assert rest[|rest| - 1] == words[|words| - 1];
      assert Spaced(words) + "\r" == words[0] + (" " + (Spaced(rest) + "\r"));
      SplitCons(words[0], Spaced(rest) + "\r");
      SplitOfLine(rest);
      assert words[..|words| - 1] == [words[0]] + rest[..|rest| - 1];
    }
  }

  /** The words that a client types, and CR LF: the keyword in any case, then the first two words that are not empty. */
  lemma {:induction false} TypedLine(k: Keyword, words: seq<string>)
    requires words != [] && Spelt(k) && UpperAll(words[0]) == Spelling(k) && forall w :: w in words ==> Typed(w)
    ensures var line := Spaced(words) + "\r";
            && !Oversized(line)
            && ParseLine(line) == Command(k, Nth(NonEmpty(words[1..]), 0), Nth(NonEmpty(words[1..]), 1))
  {
    hide Split, Lookup, Slots, CStr, Nth, NonEmpty, Spaced, UpperAll, Spelling;
    var line, n := Spaced(words) + "\r", |words| - 1;
    SplitOfLine(words);
    assert words[n] in words;
    assert (words[n] + "\r")[..|words[n]|] == words[n];
    assert Words(line) == words;
    forall seg | seg in Split(line) ensures |seg| < BUFFER_SIZE {
      if seg in words[..n] {
        assert seg in words;
      }
    }
    assert forall w :: w in words[1..] ==> w in words;
    SpellingHasNoNul(k);
    LookupSpells(Spelling(k));
    PlainArguments(words[1..]);
  }

  lemma {:induction false} SpellingHasNoNul(k: Keyword)
    ensures CStr(Spelling(k)) == Spelling(k)
  {
  }
}
