/** The incremental command parser of src/parser.c and its feeding loop in src/pop3cmd.c. */
module Parsers {
  import opened Text
  import opened Buffers
  import opened Commands

  /** The parser's fields; `line` is the used part of the line buffer, the arguments are whole buffers. */
  datatype PState = PState(state: Keyword, finished: bool, line: string, arg1: string, arg2: string) {

    ghost predicate Valid() {
      && |line| <= BUFFER_SIZE
      && |arg1| == |arg2| == BUFFER_SIZE
      && arg1[BUFFER_SIZE - 1] == arg2[BUFFER_SIZE - 1] == '\0'
    }

    /** The command a finished parser hands over. */
    function Result(): Command {
      if state == ERROR then Malformed else Command(state, CStr(arg1), CStr(arg2))
    }

    /** `process_buffer` */
    function Process(): (p: PState)
      requires Valid() && |line| < BUFFER_SIZE
      ensures p.Valid() && p.state != UNDEF && p.finished == finished && p.line == line
    {
      if state == UNDEF then this.(state := Lookup(CStr(line)))
      else if state != ERROR && arg1[0] == '\0' then this.(arg1 := Overlay(arg1, line))
      else if state != ERROR && arg2[0] == '\0' then this.(arg2 := Overlay(arg2, line))
      else this
    }

    /** `parser_feed` */
    function Feed(c: char): (p: PState)
      requires Valid()
      ensures p.Valid()
    {
      var c := if state == UNDEF then Upper(c) else c;
      if |line| == BUFFER_SIZE then this
      else if c == ' ' then Process().(line := "")
      else if c == '\n' then
        if line != "" && line[|line| - 1] == '\r'
        then this.(line := line[..|line| - 1]).Process().(finished := true)
        else this.(state := ERROR, finished := true)
      else this.(line := line + [c])
    }

    /** `pop3cmd_consume`: feed until a command is finished; also the bytes not consumed. */
    function Consume(s: string): (r: (PState, string))
      requires Valid()
      ensures r.0.Valid() && |r.1| <= |s|
      ensures s != "" ==> |r.1| < |s|
      decreases |s|
    {
      if s == "" then (this, s) else
      var p := Feed(s[0]);
      if p.finished then (p, s[1..]) else p.Consume(s[1..])
    }
  }

  /** The parser after `parser_init` or `parser_reset`. */
  function Init(): (p: PState)
    ensures p.Valid()
  {
    PState(UNDEF, false, "", Zeros(), Zeros())
  }

  // ----- refinement: the byte machine against the line grammar -----

  /** How a segment is stored: upper-cased while the keyword is still unknown. */
  function Stored(p: PState, seg: string): (r: string)
    ensures |r| == |seg|
  {
    if p.state == UNDEF then UpperAll(seg) else seg
  }

  lemma {:induction false} ConsumeWord(p: PState, word: string, rest: string)
    requires p.Valid() && !p.finished && |p.line| + |word| <= BUFFER_SIZE
    requires ' ' !in word && '\n' !in word
    ensures var q := p.(line := p.line + Stored(p, word)); q.Valid() && p.Consume(word + rest) == q.Consume(rest)
    decreases |word|
  {
    hide Lookup, CStr, Overlay, PState.Process;
    if word == "" {
      assert word + rest == rest && p.line + Stored(p, word) == p.line;
    } else {
      var q := p.Feed(word[0]);
      assert q == p.(line := p.line + Stored(p, word[..1]));
      assert (word + rest)[1..] == word[1..] + rest;
      ConsumeWord(q, word[1..], rest);
      assert q.line + Stored(q, word[1..]) == p.line + Stored(p, word);
    }
  }

  lemma {:induction false} ConsumeStuck(p: PState, s: string)
    requires p.Valid() && !p.finished && |p.line| == BUFFER_SIZE
    ensures p.Consume(s) == (p, "")
    decreases s
  {
    if s != "" {
      ConsumeStuck(p, s[1..]);
    }
  }

  /** The parser after a whole segment and the space that ends it. */
  function Digest(p: PState, seg: string): (q: PState)
    requires p.Valid() && |seg| < BUFFER_SIZE
    ensures q.Valid() && q.line == "" && q.finished == p.finished && q.state != UNDEF
  {
    p.(line := Stored(p, seg)).Process().(line := "")
  }

  /** The parser after the last segment of a line and its LF. */
  function FinishLast(p: PState, seg: string): (q: PState)
    requires p.Valid() && |seg| < BUFFER_SIZE
    ensures q.Valid() && q.finished
  {
    if seg != "" && seg[|seg| - 1] == '\r' then
      p.(line := Stored(p, seg[..|seg| - 1])).Process().(finished := true)
    else p.(line := Stored(p, seg), state := ERROR, finished := true)
  }

  /** The parser after the rest of a line and its LF, segment by segment. */
  ghost function Finish(p: PState, line: string): (q: PState)
    requires p.Valid() && p.line == "" && !Oversized(line)
    ensures q.Valid() && q.finished
    decreases |line|
  {
    var i := IndexOf(line, ' ');
    ShortStart(line);
    if i < |line| then
      ShortTail(line);
      Finish(Digest(p, line[..i]), line[i + 1..])
    else FinishLast(p, line)
  }

  lemma {:induction false} ShortTail(line: string)
    requires !Oversized(line) && IndexOf(line, ' ') < |line|
    ensures !Oversized(line[IndexOf(line, ' ') + 1..])
  {
    ShortStart(line);
    SplitTail(line);
  }

  lemma {:induction false} SplitTail(line: string)
    requires IndexOf(line, ' ') < |line|
    ensures Split(line) == [line[..IndexOf(line, ' ')]] + Split(line[IndexOf(line, ' ') + 1..])
    ensures forall seg :: seg in Split(line[IndexOf(line, ' ') + 1..]) ==> seg in Split(line)
    ensures |line[..IndexOf(line, ' ')]| < BUFFER_SIZE ==> Oversized(line) == Oversized(line[IndexOf(line, ' ') + 1..])
  {
    assert line[..IndexOf(line, ' ')] == Split(line)[0];
  }

  lemma {:induction false} ConsumeLongSegment(p: PState, seg: string, tail: string)
    requires p.Valid() && !p.finished && p.line == "" && |seg| >= BUFFER_SIZE
    requires ' ' !in seg && '\n' !in seg
    ensures !p.Consume(seg + tail).0.finished && p.Consume(seg + tail).1 == ""
  {
    hide PState.Feed, Lookup;
    var word, rest := seg[..BUFFER_SIZE], seg[BUFFER_SIZE..] + tail;
    assert seg + tail == word + rest;
    ConsumeWord(p, word, rest);
    ConsumeStuck(p.(line := p.line + Stored(p, word)), rest);
  }

  lemma {:induction false} ConsumeSpace(p: PState, seg: string, tail: string)
    requires p.Valid() && !p.finished && p.line == "" && |seg| < BUFFER_SIZE
    requires ' ' !in seg && '\n' !in seg
    ensures p.Consume(seg + ([' '] + tail)) == Digest(p, seg).Consume(tail)
  {
    hide Lookup, CStr;
    var q := p.(line := p.line + Stored(p, seg));
    assert q.line == Stored(p, seg);
    ConsumeWord(p, seg, [' '] + tail);
    assert q.Feed(' ') == Digest(p, seg);
    assert ([' '] + tail)[1..] == tail;
  }

  lemma {:induction false} ConsumeNewline(p: PState, seg: string, tail: string)
    requires p.Valid() && !p.finished && p.line == "" && |seg| < BUFFER_SIZE
    requires ' ' !in seg && '\n' !in seg && !Oversized(seg)
    ensures p.Consume(seg + (['\n'] + tail)) == (Finish(p, seg), tail)
  {
    hide Lookup, CStr;
    var q := p.(line := p.line + Stored(p, seg));
    assert q.line == Stored(p, seg);
    ConsumeWord(p, seg, ['\n'] + tail);
    FeedNewline(p, seg);
    assert (['\n'] + tail)[1..] == tail;
  }

  lemma {:induction false} FeedNewline(p: PState, seg: string)
    requires p.Valid() && p.line == "" && !p.finished && |seg| < BUFFER_SIZE
    requires ' ' !in seg && '\n' !in seg && !Oversized(seg)
    ensures p.(line := Stored(p, seg)).Feed('\n') == Finish(p, seg)
  {
    hide Lookup, CStr;
    assert IndexOf(seg, ' ') == |seg|;
    var s := Stored(p, seg);
    if seg != "" {
      assert s[|s| - 1] == '\r' <==> seg[|seg| - 1] == '\r';
      assert s[..|s| - 1] == Stored(p, seg[..|seg| - 1]);
    }
  }

  lemma {:induction false} ConsumeNothing(p: PState)
    requires p.Valid()
    ensures p.Consume("") == (p, "")
  {
  }

  /** A line is one segment, or a segment, a space and a shorter line. */
  lemma {:induction false} FirstSegment(line: string)
    ensures var j := IndexOf(line, ' ');
            && Split(line)[0] == line[..j] && Split(line)[0] in Split(line)
            && (j == |line| ==> Split(line) == [line])
            && (j < |line| ==> line == line[..j] + ([' '] + line[j + 1..]))
  {
    SplitHead(line);
    hide IndexOf, Split;
  }

  lemma {:induction false} SplitHead(line: string)
    ensures Split(line)[0] == line[..IndexOf(line, ' ')]
    ensures IndexOf(line, ' ') == |line| ==> Split(line) == [line]
  {
    hide IndexOf;
  }

  lemma {:induction false} NoNewlineInParts(line: string, j: nat)
    requires '\n' !in line && j <= |line|
    ensures '\n' !in line[..j] && '\n' !in line[j..]
  {
  }

  /** Consuming a whole line from its start: its command comes out, or nothing ever does. */
  lemma {:induction false} ConsumeLine(p: PState, line: string, tail: string)
    requires p.Valid() && !p.finished && p.line == "" && '\n' !in line
    ensures var r := p.Consume(line + (['\n'] + tail));
            if Oversized(line) then !r.0.finished && r.1 == "" else r == (Finish(p, line), tail)
    decreases |line|
  {
    hide PState.Consume, Digest, IndexOf, Split, Oversized;
    var j := IndexOf(line, ' ');
    var seg, rest, lf := line[..j], line[j..], ['\n'] + tail;
    FirstSegment(line);
    NoNewlineInParts(line, j);
    if j >= BUFFER_SIZE {
      assert line + lf == seg + (rest + lf);
      ConsumeLongSegment(p, seg, rest + lf);
      LongSegment(line, seg);
    } else if j < |line| {
      SplitTail(line);
      NoNewlineInParts(line, j + 1);
      assert line + lf == seg + ([' '] + (line[j + 1..] + lf));
      ConsumeSpace(p, seg, line[j + 1..] + lf);
      ConsumeLine(Digest(p, seg), line[j + 1..], tail);
    } else {
      assert seg == line;
      ShortSegment(line);
      ConsumeNewline(p, line, tail);
    }
  }

  lemma {:induction false} LongSegment(line: string, seg: string)
    requires seg in Split(line) && |seg| >= BUFFER_SIZE
    ensures Oversized(line)
  {
  }

  lemma {:induction false} ShortStart(line: string)
    requires !Oversized(line)
    ensures IndexOf(line, ' ') < BUFFER_SIZE
  {
    hide IndexOf;
    assert Split(line)[0] in Split(line);
  }

  lemma {:induction false} ShortSegment(line: string)
    requires Split(line) == [line] && |line| < BUFFER_SIZE
    ensures !Oversized(line)
  {
  }

  /** Consuming part of a line finishes nothing. */
  lemma {:induction false} ConsumePart(p: PState, line: string)
    requires p.Valid() && !p.finished && p.line == "" && '\n' !in line
    ensures !p.Consume(line).0.finished && p.Consume(line).1 == ""
    decreases |line|
  {
    hide PState.Consume, Digest, IndexOf, Split;
    var j := IndexOf(line, ' ');
    var seg := line[..j];
    FirstSegment(line);
    NoNewlineInParts(line, j);
    if j >= BUFFER_SIZE {
      assert line == seg + line[j..];
      ConsumeLongSegment(p, seg, line[j..]);
    } else if j < |line| {
      NoNewlineInParts(line, j + 1);
      ConsumeSpace(p, seg, line[j + 1..]);
      ConsumePart(Digest(p, seg), line[j + 1..]);
    } else {
      assert line == seg + "";
      ConsumeWord(p, seg, "");
      ConsumeNothing(p.(line := p.line + Stored(p, seg)));
    }
  }

  /** Past its first segment, a line has the words and the ending of its tail. */
  lemma {:induction false} WordsTail(line: string)
    requires IndexOf(line, ' ') < |line|
    ensures var i := IndexOf(line, ' ');
            var tail := line[i + 1..];
            && Words(line) == [line[..i]] + Words(tail)
            && Words(line)[0] == line[..i] && Words(line)[1..] == Words(tail)
            && Split(line)[|Split(line)| - 1] == Split(tail)[|Split(tail)| - 1]
  {
    hide IndexOf;
    SplitTail(line);
    hide Split;
  }

  lemma {:induction false} WordsOfOne(line: string)
    requires IndexOf(line, ' ') == |line|
    ensures Split(line) == [line]
    ensures Words(line) == [if line == "" then "" else line[..|line| - 1]] && Words(line)[1..] == []
  {
    hide IndexOf;
  }

  ghost predicate Terminated(line: string) {
    EndsInCR(Split(line)[|Split(line)| - 1])
  }

  /** Finishing the line from here puts these words into the argument slots, or ends in ERROR. */
  ghost predicate FillsSlots(p: PState, line: string)
    requires p.Valid() && p.line == "" && p.state != UNDEF && !Oversized(line)
  {
    WordsAreShort(line);
    var q := Finish(p, line);
    && (!Terminated(line) || p.state == ERROR ==> q.state == ERROR)
    && (Terminated(line) && p.state != ERROR ==>
          q.state == p.state && (q.arg1, q.arg2) == Slots(p.arg1, p.arg2, Words(line)))
  }

  lemma {:induction false} FinishTail(p: PState, line: string)
    requires p.Valid() && p.line == "" && !Oversized(line) && IndexOf(line, ' ') < |line|
    requires !Oversized(line[IndexOf(line, ' ') + 1..]) && IndexOf(line, ' ') < BUFFER_SIZE
    ensures Finish(p, line) == Finish(Digest(p, line[..IndexOf(line, ' ')]), line[IndexOf(line, ' ') + 1..])
  {
    hide IndexOf, Split, Oversized, Digest;
  }

  lemma {:induction false} LastSegmentFills(p: PState, line: string)
    requires p.Valid() && p.line == "" && p.state != UNDEF && !Oversized(line) && IndexOf(line, ' ') == |line|
    ensures FillsSlots(p, line)
  {
    hide IndexOf, Split, Words, Lookup, Oversized, CStr, Overlay;
    WordsAreShort(line);
    WordsOfOne(line);
    if line != "" {
      var word := line[..|line| - 1];
      DigestFills(p, word, []);
      assert [word] + [] == Words(line);
    }
  }

  /** One segment goes to the first free slot. */
  lemma {:induction false} DigestFills(p: PState, seg: string, segs: seq<string>)
    requires p.Valid() && p.line == "" && p.state != UNDEF && |seg| < BUFFER_SIZE
    requires forall s :: s in segs ==> |s| < BUFFER_SIZE
    ensures var q := Digest(p, seg);
            && q.state == p.state
            && (p.state != ERROR ==> Slots(p.arg1, p.arg2, [seg] + segs) == Slots(q.arg1, q.arg2, segs))
  {
    hide CStr, Overlay, Lookup, Slots, Digest;
    SlotsStep(p.arg1, p.arg2, seg, segs);
    SlotsFull(p.arg1, p.arg2, segs);
    DigestArgument(p, seg);
  }

  lemma {:induction false} DigestArgument(p: PState, seg: string)
    requires p.Valid() && p.line == "" && p.state != UNDEF && |seg| < BUFFER_SIZE
    ensures Digest(p, seg)
         == if p.state != ERROR && p.arg1[0] == '\0' then p.(arg1 := Overlay(p.arg1, seg))
            else if p.state != ERROR && p.arg2[0] == '\0' then p.(arg2 := Overlay(p.arg2, seg))
            else p
  {
    hide CStr, Overlay, Lookup;
  }

  lemma {:induction false} SlotsStep(a1: string, a2: string, seg: string, segs: seq<string>)
    requires |a1| == |a2| == BUFFER_SIZE && |seg| < BUFFER_SIZE
    requires forall s :: s in segs ==> |s| < BUFFER_SIZE
    ensures Slots(a1, a2, [seg] + segs)
         == if a1[0] == '\0' then Slots(Overlay(a1, seg), a2, segs)
            else if a2[0] == '\0' then Slots(a1, Overlay(a2, seg), segs)
            else (a1, a2)
  {
    hide Overlay;
    assert ([seg] + segs)[0] == seg && ([seg] + segs)[1..] == segs;
  }

  /** After the keyword, the remaining segments go to the argument slots. */
  lemma {:induction false} FinishArguments(p: PState, line: string)
    requires p.Valid() && p.line == "" && p.state != UNDEF && !Oversized(line)
    ensures FillsSlots(p, line)
    decreases |line|
  {
    hide IndexOf, Split, Words, Lookup, Oversized, Digest, Slots, Finish;
    var i := IndexOf(line, ' ');
    WordsAreShort(line);
    FirstSegment(line);
    if i < |line| {
      SplitTail(line);
      WordsTail(line);
      ShortStart(line);
      WordsAreShort(line[i + 1..]);
      DigestFills(p, line[..i], Words(line[i + 1..]));
      FinishTail(p, line);
      FinishArguments(Digest(p, line[..i]), line[i + 1..]);
    } else {
      LastSegmentFills(p, line);
    }
  }

  lemma {:induction false} SlotsFull(a1: string, a2: string, segs: seq<string>)
    requires |a1| == |a2| == BUFFER_SIZE
    requires forall seg :: seg in segs ==> |seg| < BUFFER_SIZE
    ensures a1[0] != '\0' && a2[0] != '\0' ==> Slots(a1, a2, segs) == (a1, a2)
  {
  }

  lemma {:induction false} DigestKeyword(word: string)
    requires |word| < BUFFER_SIZE
    ensures Digest(Init(), word) == Init().(state := Lookup(CStr(UpperAll(word))))
  {
    hide Lookup, CStr, Overlay;
  }

  lemma {:induction false} FinishSeveral(line: string)
    requires !Oversized(line) && IndexOf(line, ' ') < |line|
    ensures Finish(Init(), line).Result() == ParseLine(line)
  {
    hide IndexOf, Split, Words, Lookup, Oversized, Slots, CStr, Overlay, Digest, PState.Process, UpperAll, Zeros;
    hide Finish;
    var i := IndexOf(line, ' ');
    WordsAreShort(line);
    FirstSegment(line);
    SplitTail(line);
    WordsTail(line);
    ShortStart(line);
    DigestKeyword(line[..i]);
    FinishTail(Init(), line);
    FinishArguments(Digest(Init(), line[..i]), line[i + 1..]);
  }

  lemma {:induction false} FinishOne(line: string)
    requires !Oversized(line) && IndexOf(line, ' ') == |line|
    ensures Finish(Init(), line).Result() == ParseLine(line)
  {
    hide IndexOf, Split, Words, Lookup, Oversized, Slots, CStr, Overlay;
    WordsAreShort(line);
    WordsOfOne(line);
    NoSlots();
  }

  /** What a whole line leaves in a fresh parser is what the grammar reads off the line. */
  lemma {:induction false} FinishIsParseLine(line: string)
    requires !Oversized(line)
    ensures Finish(Init(), line).Result() == ParseLine(line)
  {
    hide *;
    if IndexOf(line, ' ') < |line| {
      FinishSeveral(line);
    } else {
      FinishOne(line);
    }
  }

  lemma {:induction false} NoSlots()
    ensures Slots(Zeros(), Zeros(), []) == (Zeros(), Zeros())
  {
  }

  /** The fresh parser, run over any bytes, stops exactly at the first complete command and reads it correctly. */
  lemma {:induction false} ConsumeIsFirstCommand(stream: string)
    ensures var i, (p, rest) := IndexOf(stream, '\n'), Init().Consume(stream);
            && (p.finished <==> i < |stream| && !Oversized(stream[..i]))
            && (p.finished ==> rest == stream[i + 1..])
    ensures var (p, rest) := Init().Consume(stream);
            if p.finished
            then CommandsIn(stream) == [p.Result()] + CommandsIn(rest)
            else CommandsIn(stream) == [] && rest == ""
  {
    hide PState.Consume, IndexOf, Split, ParseLine, Finish, Oversized;
    var i := IndexOf(stream, '\n');
    var line := stream[..i];
    if i == |stream| {
      assert stream == line;
      ConsumePart(Init(), stream);
    } else {
      assert stream == line + (['\n'] + stream[i + 1..]);
      ConsumeLine(Init(), line, stream[i + 1..]);
      if !Oversized(line) {
        FinishIsParseLine(line);
      }
    }
  }

  /** The same without the place where it stops. */
  lemma {:induction false} FirstCommand(stream: string)
    ensures var (p, rest) := Init().Consume(stream);
            if p.finished
            then CommandsIn(stream) == [p.Result()] + CommandsIn(rest)
            else CommandsIn(stream) == [] && rest == ""
  {
    hide *;
    ConsumeIsFirstCommand(stream);
  }

  /** Stopping between two reads changes nothing: consuming `a`, then `b`, is consuming `a + b`. */
  lemma {:induction false} ConsumeSplit(p: PState, a: string, b: string)
    requires p.Valid() && !p.finished && !p.Consume(a).0.finished
    ensures p.Consume(a + b) == p.Consume(a).0.Consume(b)
    decreases |a|
  {
    hide PState.Feed;
    if a == "" {
      assert a + b == b;
    } else {
      assert (a + b)[1..] == a[1..] + b;
      ConsumeSplit(p.Feed(a[0]), a[1..], b);
    }
  }

  /** Commands obtained when the stream arrives in the given pieces and the parser is reset after each one. */
  function Arriving(p: PState, pieces: seq<string>): seq<Command>
    requires p.Valid() && !p.finished
    decreases |pieces|, 0
  {
    if pieces == [] then [] else var (cmds, q) := Drain(p, pieces[0]); cmds + Arriving(q, pieces[1..])
  }

  /** The commands one piece completes, and the parser it leaves. */
  function Drain(p: PState, piece: string): (r: (seq<Command>, PState))
    requires p.Valid() && !p.finished
    ensures r.1.Valid() && !r.1.finished
    decreases |piece|
  {
    if piece == "" then ([], p) else
    var (q, rest) := p.Consume(piece);
    if !q.finished then ([], q) else
    var (cmds, last) := Drain(Init(), rest);
    ([q.Result()] + cmds, last)
  }

  /** However the stream is cut into reads, the commands are those of the whole stream. */
  lemma {:induction false} ArrivingIsCommandsIn(frag: string, pieces: seq<string>)
    requires !Init().Consume(frag).0.finished
    ensures Arriving(Init().Consume(frag).0, pieces) == CommandsIn(frag + Flatten(pieces))
    decreases |pieces|
  {
    hide PState.Consume, CommandsIn, Drain, Init;
    if pieces == [] {
      assert frag + Flatten(pieces) == frag;
      FirstCommand(frag);
    } else {
      var frag' := DrainIsCommandsIn(frag, pieces[0], Flatten(pieces[1..]));
      ArrivingIsCommandsIn(frag', pieces[1..]);
      var cmds, more := Drain(Init().Consume(frag).0, pieces[0]).0, CommandsIn(frag' + Flatten(pieces[1..]));
      assert frag + Flatten(pieces) == frag + pieces[0] + Flatten(pieces[1..]);
    }
  }

  lemma {:induction false} DrainIsCommandsIn(frag: string, piece: string, later: string) returns (frag': string)
    requires !Init().Consume(frag).0.finished
    ensures !Init().Consume(frag').0.finished
    ensures Drain(Init().Consume(frag).0, piece).1 == Init().Consume(frag').0
    ensures CommandsIn(frag + piece + later) == Drain(Init().Consume(frag).0, piece).0 + CommandsIn(frag' + later)
    decreases |piece|
  {
    hide PState.Feed, ParseLine, CommandsIn, Zeros;
    var p := Init().Consume(frag).0;
    if piece == "" {
      assert frag + piece == frag;
      return frag;
    }
    var (q, rest) := p.Consume(piece);
    ConsumeSplit(Init(), frag, piece);
    if !q.finished {
      return frag + piece;
    }
    ConsumeMore(Init(), frag + piece, later);
    FirstCommand(frag + piece + later);
    frag' := DrainIsCommandsIn("", rest, later);
    assert "" + rest + later == rest + later;
    assert Init().Consume("").0 == Init();
  }

  /** Bytes behind a finished command are left alone. */
  lemma {:induction false} ConsumeMore(p: PState, a: string, b: string)
    requires p.Valid() && !p.finished && p.Consume(a).0.finished
    ensures p.Consume(a + b) == (p.Consume(a).0, p.Consume(a).1 + b)
    decreases |a|
  {
    hide PState.Feed;
    assert (a + b)[1..] == a[1..] + b;
    if !p.Feed(a[0]).finished {
      ConsumeMore(p.Feed(a[0]), a[1..], b);
    }
  }

  // ----- the parser object -----

  class Pop3Parser {
    var state: Keyword
    var finished: bool
    const line: array<char>
    var lineSize: nat
    const arg1: array<char>
    const arg2: array<char>

    ghost function Repr(): set<object> {
      {this, line, arg1, arg2}
    }

    ghost predicate Valid()
      reads this, line, arg1, arg2
    {
      && line != arg1 && line != arg2 && arg1 != arg2
      && line.Length == arg1.Length == arg2.Length == BUFFER_SIZE
      && lineSize <= BUFFER_SIZE
      && (forall i :: lineSize <= i < BUFFER_SIZE ==> line[i] == '\0')
      && arg1[BUFFER_SIZE - 1] == arg2[BUFFER_SIZE - 1] == '\0'
    }

    ghost function View(): (p: PState)
      requires Valid()
      reads this, line, arg1, arg2
      ensures p.Valid() && p.finished == finished
    {
      PState(state, finished, line[..lineSize], arg1[..], arg2[..])
    }

    constructor ()
      ensures Valid() && fresh(Repr()) && View() == Init()
    {
      state, finished, lineSize := UNDEF, false, 0;
      line := new char[BUFFER_SIZE](_ => '\0');
      arg1 := new char[BUFFER_SIZE](_ => '\0');
      arg2 := new char[BUFFER_SIZE](_ => '\0');
      new;
      assert arg1[..] == Zeros() && arg2[..] == Zeros();
    }

    method Reset()
      requires Valid()
      modifies this, line, arg1, arg2
      ensures Valid() && View() == Init()
    {
      forall i | 0 <= i < BUFFER_SIZE { arg1[i] := '\0'; }
      forall i | 0 <= i < BUFFER_SIZE { arg2[i] := '\0'; }
      lineSize, finished, state := 0, false, UNDEF;
      forall i | 0 <= i < BUFFER_SIZE { line[i] := '\0'; }
      assert arg1[..] == Zeros() && arg2[..] == Zeros();
    }

    /** `memcpy` of the used part of the line into an argument buffer. */
    method CopyLine(arg: array<char>)
      requires Valid() && lineSize < BUFFER_SIZE && (arg == arg1 || arg == arg2)
      modifies arg
      ensures Valid() && View().line == old(View().line)
      ensures arg[..] == Overlay(old(arg[..]), old(View().line))
    {
      forall i | 0 <= i < lineSize { arg[i] := line[i]; }
      assert arg[..] == Overlay(old(arg[..]), old(View().line));
    }

    method ProcessBuffer()
      requires Valid() && lineSize < BUFFER_SIZE
      modifies this`state, arg1, arg2
      ensures Valid() && View() == old(View()).Process()
    {
      if state == UNDEF {
        CStrStops(line[..lineSize], line[lineSize..]);
        assert line[..] == line[..lineSize] + line[lineSize..];
        state := Lookup(CStr(line[..]));
      } else if state != ERROR && arg1[0] == '\0' {
        CopyLine(arg1);
      } else if state != ERROR && arg2[0] == '\0' {
        CopyLine(arg2);
      }
    }

    method Feed(c0: char) returns (k: Keyword)
      requires Valid()
      modifies this, line, arg1, arg2
      ensures Valid() && View() == old(View()).Feed(c0)
      ensures k == if |old(View()).line| == BUFFER_SIZE then ERROR else View().state
    {
      hide Lookup, CStr, Overlay, PState.Process;
      var c := if state == UNDEF then Upper(c0) else c0;
      if lineSize == BUFFER_SIZE {
        return ERROR;
      }
      if c == ' ' {
        ProcessBuffer();
        forall i | 0 <= i < lineSize { line[i] := '\0'; }
        lineSize := 0;
      } else if c == '\n' {
        if lineSize > 0 && line[lineSize - 1] == '\r' {
          lineSize := lineSize - 1;
          line[lineSize] := '\0';
          assert line[..lineSize] == old(View()).line[..lineSize];
          ProcessBuffer();
        } else {
          state := ERROR;
        }
        finished := true;
      } else {
        line[lineSize] := c;
        lineSize := lineSize + 1;
        assert line[..lineSize] == old(View()).line + [c];
      }
      return state;
    }

    /** The command and arguments that a finished parser hands to `executeCommand`. */
    method Finished() returns (c: Command)
      requires Valid()
      ensures c == View().Result()
    {
      c := if state == ERROR then Malformed else Command(state, CStr(arg1[..]), CStr(arg2[..]));
    }
  }

  /** `pop3cmd_consume` */
  method ConsumeBuffer(b: Buffer, p: Pop3Parser) returns (k: Keyword)
    requires b.Valid() && p.Valid() && {b, b.data} !! p.Repr()
    modifies b, b.data, p, p.line, p.arg1, p.arg2
    ensures b.Valid() && p.Valid()
    ensures var (q, rest) := old(p.View()).Consume(old(b.View()).pending);
            p.View() == q && b.View().pending == rest
    ensures old(b.View()).CanRead() ==>
              b.View() == old(b.View()).Take(|old(b.View()).pending| - |b.View().pending|)
    ensures !old(b.View()).CanRead() ==> b.View() == old(b.View())
  {
    hide Buffer.View, Pop3Parser.View, PState.Feed;
    k := p.state;
    ghost var s := b.View().pending;
    ghost var taken := 0;
    var more := b.CanRead();
    while more
      invariant b.Valid() && p.Valid() && more == b.View().CanRead()
      invariant taken <= |s| && b.View().pending == s[taken..]
      invariant b.View() == if s == "" then old(b.View()) else old(b.View()).Take(taken)
      invariant old(p.View()).Consume(s) == p.View().Consume(s[taken..])
      decreases |s| - taken
    {
      var c := b.ReadByte();
      k := p.Feed(c);
      taken := taken + 1;
      assert c == s[taken - 1] && s[taken..] == s[taken - 1..][1..];
      if p.finished {
        break;
      }
      more := b.CanRead();
    }
  }
}
