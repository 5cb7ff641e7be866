/** How RETR puts a message on the wire, and how a client of RFC 1939 (section 3) takes it off again. */
module DotStuffing {
  import opened Text
  import opened Commands

  /** The flag `newLine` (or "the last byte was CR") after `s`: about its last byte, or as before. */
  function After(flag: bool, s: string, c: char): bool {
    if s == "" then flag else s[|s| - 1] == c
  }

  /** The bytes emitted for one byte of a message. */
  function EncodeByte(newLine: bool, afterCR: bool, c: char): string {
    if c == '\n' then (if afterCR then "\n" else "\r\n")
    else if c == '.' && newLine then ".."
    else [c]
  }

  /** The whole-message encoding: bare LF becomes CR LF, a dot that starts a line is doubled. */
  function Encode(newLine: bool, afterCR: bool, s: string): string
    decreases |s|
  {
    if s == "" then "" else EncodeByte(newLine, afterCR, s[0]) + Encode(s[0] == '\n', s[0] == '\r', s[1..])
  }

  lemma {:induction false} EncodeConcat(newLine: bool, afterCR: bool, s: string, t: string)
    ensures Encode(newLine, afterCR, s + t)
         == Encode(newLine, afterCR, s) + Encode(After(newLine, s, '\n'), After(afterCR, s, '\r'), t)
    decreases |s|
  {
    if s == "" {
      assert s + t == t;
    } else {
      assert (s + t)[1..] == s[1..] + t;
      EncodeConcat(s[0] == '\n', s[0] == '\r', s[1..], t);
    }
  }

  // ----- how much an encoding grows -----

  function BareLFs(afterCR: bool, s: string): nat
    decreases |s|
  {
    if s == "" then 0 else (if s[0] == '\n' && !afterCR then 1 else 0) + BareLFs(s[0] == '\r', s[1..])
  }

  function LineDots(newLine: bool, s: string): nat
    decreases |s|
  {
    if s == "" then 0 else (if s[0] == '.' && newLine then 1 else 0) + LineDots(s[0] == '\n', s[1..])
  }

  lemma {:induction false} EncodeLength(newLine: bool, afterCR: bool, s: string)
    ensures |Encode(newLine, afterCR, s)| == |s| + BareLFs(afterCR, s) + LineDots(newLine, s)
    ensures |s| <= |Encode(newLine, afterCR, s)| <= 2 * |s|
    decreases |s|
  {
    if s != "" {
      EncodeLength(s[0] == '\n', s[0] == '\r', s[1..]);
    }
  }

  /** The bound on growth is reached: a chunk of LFs doubles. */
  lemma {:induction false} NewlinesDouble(newLine: bool, n: nat)
    ensures |Encode(newLine, false, seq(n, _ => '\n'))| == 2 * n
    decreases n
  {
    if n > 0 {
      assert seq(n, _ => '\n')[1..] == seq(n - 1, _ => '\n');
      NewlinesDouble(true, n - 1);
    }
  }

  // ----- the client's side -----

  /** Position of the first CR LF, or |s|. */
  function LineEnd(s: string): (i: nat)
    ensures i <= |s|
    decreases |s|
  {
    if |s| < 2 then |s|
    else if s[0] == '\r' && s[1] == '\n' then 0
    else 1 + LineEnd(s[1..])
  }

  /** Read a multi-line response: lines up to a lone dot, one leading dot removed from each; also the bytes after it. */
  function Decode(s: string): Option<(string, string)>
    decreases |s|
  {
    var i := LineEnd(s);
    if i + 2 > |s| then None
    else if s[..i] == "." then Some(("", s[i + 2..]))
    else var (body, rest) :- Decode(s[i + 2..]); Some((Unstuffed(s[..i]) + CRLF + body, rest))
  }

  function Unstuffed(line: string): string {
    if line != "" && line[0] == '.' then line[1..] else line
  }

  /** The message with CR LF line ends: what the client should end up with. */
  function Normalised(afterCR: bool, s: string): string
    decreases |s|
  {
    if s == "" then "" else
    (if s[0] == '\n' && !afterCR then "\r\n" else [s[0]]) + Normalised(s[0] == '\r', s[1..])
  }

  predicate StartsWithDot(s: string) {
    s != "" && s[0] == '.'
  }

  // ----- line by line -----

  lemma {:induction false} LineEndAt(line: string, tail: string)
    requires '\n' !in line
    ensures LineEnd(line + (CRLF + tail)) == |line|
    decreases |line|
  {
    if line == "" {
      assert line + (CRLF + tail) == CRLF + tail;
    } else {
      assert (line + (CRLF + tail))[1..] == line[1..] + (CRLF + tail);
      LineEndAt(line[1..], tail);
    }
  }

  lemma {:induction false} DecodeLine(line: string, tail: string)
    requires '\n' !in line
    ensures Decode(line + (CRLF + tail)) ==
            if line == "." then Some(("", tail))
            else match Decode(tail) { case None => None case Some(r) => Some((Unstuffed(line) + CRLF + r.0, r.1)) }
  {
    LineEndAt(line, tail);
    var s := line + (CRLF + tail);
    assert s[..|line|] == line && s[|line| + 2..] == tail;
  }

  function Stuffed(newLine: bool, line: string): string {
    if newLine && StartsWithDot(line) then "." + line else line
  }

  /** A stuffed line is never the terminator, and unstuffs to itself. */
  lemma {:induction false} StuffedLine(line: string)
    ensures Stuffed(true, line) != "." && Unstuffed(Stuffed(true, line)) == line
  {
  }

  lemma {:induction false} EncodeLine(newLine: bool, afterCR: bool, line: string)
    requires '\n' !in line
    ensures Encode(newLine, afterCR, line) == Stuffed(newLine, line)
    ensures Normalised(afterCR, line) == line
    decreases |line|
  {
    if line != "" {
      EncodeLine(false, line[0] == '\r', line[1..]);
      assert line == [line[0]] + line[1..];
    }
  }

  /** A line without the CR that may precede its LF. */
  function Bare(line: string): string {
    if line != "" && line[|line| - 1] == '\r' then line[..|line| - 1] else line
  }

  lemma {:induction false} NormalisedConcat(afterCR: bool, s: string, t: string)
    ensures Normalised(afterCR, s + t) == Normalised(afterCR, s) + Normalised(After(afterCR, s, '\r'), t)
    decreases |s|
  {
    if s == "" {
      assert s + t == t;
    } else {
      assert (s + t)[1..] == s[1..] + t;
      NormalisedConcat(s[0] == '\r', s[1..], t);
    }
  }

  lemma {:induction false} EncodeNewline(newLine: bool, afterCR: bool, rest: string)
    ensures Encode(newLine, afterCR, "\n" + rest) == (if afterCR then "\n" else CRLF) + Encode(true, false, rest)
    ensures Normalised(afterCR, "\n" + rest) == (if afterCR then "\n" else CRLF) + Normalised(false, rest)
  {
    assert ("\n" + rest)[1..] == rest;
  }

  lemma {:induction false} BareThenCRLF(newLine: bool, line: string, x: string)
    ensures Stuffed(newLine, line) + ((if After(false, line, '\r') then "\n" else CRLF) + x)
         == Stuffed(newLine, Bare(line)) + (CRLF + x)
    ensures '\n' !in line ==> '\n' !in Stuffed(newLine, Bare(line))
  {
    if After(false, line, '\r') {
      assert line == Bare(line) + "\r";
      assert Stuffed(newLine, line) == Stuffed(newLine, Bare(line)) + "\r";
      assert "\r" + ("\n" + x) == CRLF + x;
    }
  }

  lemma {:induction false} FirstLine(newLine: bool, line: string, rest: string)
    requires '\n' !in line
    ensures Encode(newLine, false, line + ("\n" + rest))
         == Stuffed(newLine, Bare(line)) + (CRLF + Encode(true, false, rest))
    ensures Normalised(false, line + ("\n" + rest)) == Bare(line) + (CRLF + Normalised(false, rest))
    ensures '\n' !in Stuffed(newLine, Bare(line))
  {
    hide Encode, Normalised, Bare;
    var t := "\n" + rest;
    EncodeConcat(newLine, false, line, t);
    NormalisedConcat(false, line, t);
    EncodeLine(newLine, false, line);
    EncodeNewline(After(newLine, line, '\n'), After(false, line, '\r'), rest);
    BareThenCRLF(newLine, line, Encode(true, false, rest));
    BareThenCRLF(false, line, Normalised(false, rest));
  }

  lemma {:induction false} Reassociate(a: string, b: string, c: string, d: string)
    ensures a + (b + c) + d == a + (b + (c + d))
  {
  }

  /** What the client reads: everything, when the message starts on a fresh line or not with a dot. */
  lemma {:induction false} DecodeEncoded(newLine: bool, message: string, tail: string)
    requires newLine || !StartsWithDot(message)
    ensures Decode(Encode(newLine, false, message) + (FINAL + tail)) == Some((Normalised(false, message) + CRLF, tail))
    decreases |message|
  {
    hide Encode, Normalised, Decode, IndexOf;
    var i := IndexOf(message, '\n');
    var line := message[..i];
    if i == |message| {
      assert message == line;
      EncodeLine(newLine, false, line);
      StuffedLine(line);
      DecodeLast(Stuffed(newLine, line), tail);
    } else {
      var rest := message[i + 1..];
      assert message == line + ("\n" + rest);
      DecodeEncoded(true, rest, tail);
      DecodeFirstLine(newLine, line, rest, tail);
      StuffedLine(Bare(line));
      Reassociate(Bare(line), CRLF, Normalised(false, rest), CRLF);
    }
  }

  /** The first line comes off, given that the rest decodes. */
  lemma {:induction false} DecodeFirstLine(newLine: bool, line: string, rest: string, tail: string)
    requires '\n' !in line
    requires Decode(Encode(true, false, rest) + (FINAL + tail)) == Some((Normalised(false, rest) + CRLF, tail))
    ensures var first := Stuffed(newLine, Bare(line));
            var r := Decode(Encode(newLine, false, line + ("\n" + rest)) + (FINAL + tail));
            && r.Some?
            && (first == "." ==> r.value.0 == "")
            && (first != "." ==> r.value == (Unstuffed(first) + (CRLF + (Normalised(false, rest) + CRLF)), tail))
    ensures Normalised(false, line + ("\n" + rest)) == Bare(line) + (CRLF + Normalised(false, rest))
  {
    hide *;
    FirstLine(newLine, line, rest);
    var first := Stuffed(newLine, Bare(line));
    Reassociate(first, CRLF, Encode(true, false, rest), FINAL + tail);
    DecodeLine(first, Encode(true, false, rest) + (FINAL + tail));
    if first != "." {
      NoPrefix(Unstuffed(first), Normalised(false, rest) + CRLF);
    }
  }

  lemma {:induction false} NoPrefix(a: string, b: string)
    ensures a + CRLF + b == a + (CRLF + b)
  {
  }

  lemma {:induction false} DecodeLast(line: string, tail: string)
    requires '\n' !in line && line != "."
    ensures Decode(line + (FINAL + tail)) == Some((Unstuffed(line) + CRLF, tail))
  {
    hide Decode;
    assert line + (FINAL + tail) == line + (CRLF + ("." + (CRLF + tail)));
    DecodeLine(line, "." + (CRLF + tail));
    DecodeLine(".", tail);
    assert Unstuffed(line) + CRLF + "" == Unstuffed(line) + CRLF;
  }

  /** The same for a message that is one dotted line. */
  lemma {:induction false} DecodeDottedLine(line: string, tail: string)
    requires StartsWithDot(line) && '\n' !in line
    ensures var r := Decode(Encode(false, false, line) + (FINAL + tail));
            r.Some? && r.value.0 == if line == "." then "" else Normalised(false, line[1..]) + CRLF
  {
    hide Encode, Normalised, Decode;
    EncodeLine(false, false, line);
    EncodeLine(false, false, line[1..]);
    if line == "." {
      assert line + (FINAL + tail) == line + (CRLF + ("." + (CRLF + tail)));
      DecodeLine(line, "." + (CRLF + tail));
    } else {
      DecodeLast(line, tail);
    }
  }

  /** Entered with `newLine` false, a message starting with a dot loses that dot, or is cut short by it. */
  lemma {:induction false} DecodeUnstuffed(message: string, tail: string)
    requires StartsWithDot(message)
    ensures var r := Decode(Encode(false, false, message) + (FINAL + tail));
            r.Some? && (r.value.0 == "" || r.value.0 == Normalised(false, message[1..]) + CRLF)
  {
    hide Encode, Normalised, Decode, IndexOf;
    var i := IndexOf(message, '\n');
    var line := message[..i];
    if i == |message| {
      assert message == line;
      DecodeDottedLine(line, tail);
    } else {
      var rest := message[i + 1..];
      assert message == line + ("\n" + rest) && message[1..] == line[1..] + ("\n" + rest);
      assert '\n' !in line[1..];
      DecodeEncoded(true, rest, tail);
      DecodeFirstLine(false, line, rest, tail);
      FirstLine(false, line[1..], rest);
      Reassociate(Bare(line[1..]), CRLF, Normalised(false, rest), CRLF);
      BareDotted(line);
    }
  }

  lemma {:induction false} BareDotted(line: string)
    requires StartsWithDot(line)
    ensures Bare(line) != "." ==> Stuffed(false, Bare(line)) != "."
    ensures Bare(line) != "." ==> Unstuffed(Stuffed(false, Bare(line))) == Bare(line[1..])
  {
  }

  // ----- chunk by chunk: the file is read in pieces, each encoded on its own -----

  /** `pop3ReadFile` over successive reads: only `newLine` is carried, and a chunk ends at its first NUL. */
  function EncodeChunks(newLine: bool, chunks: seq<string>): string
    decreases |chunks|
  {
    if chunks == [] then "" else
    var text := CStr(chunks[0]);
    Encode(newLine, false, text) + EncodeChunks(After(newLine, text, '\n'), chunks[1..])
  }

  /** The flag after these reads. */
  function FlagAfter(newLine: bool, chunks: seq<string>): bool
    decreases |chunks|
  {
    if chunks == [] then newLine else FlagAfter(After(newLine, CStr(chunks[0]), '\n'), chunks[1..])
  }

  /** Boundaries that fall between a CR and its LF. */
  function SplitPairs(afterCR: bool, chunks: seq<string>): nat
    decreases |chunks|
  {
    if chunks == [] then 0 else
    (if afterCR && chunks[0] != "" && chunks[0][0] == '\n' then 1 else 0)
    + SplitPairs(After(afterCR, chunks[0], '\r'), chunks[1..])
  }

  predicate NulFree(chunks: seq<string>) {
    forall c :: c in chunks ==> '\0' !in c
  }

  /** The message the encoder behaves as if it had read: cut at NULs, one more CR at each split pair. */
  function Perceived(afterCR: bool, chunks: seq<string>): string
    decreases |chunks|
  {
    if chunks == [] then "" else
    var text := CStr(chunks[0]);
    (if afterCR && text != "" && text[0] == '\n' then "\r" else "") + text
    + Perceived(After(afterCR, text, '\r'), chunks[1..])
  }

  /** Reading in chunks is encoding the perceived message in one go; the flag carried on is the same. */
  lemma {:induction false} ChunksEncodePerceived(newLine: bool, afterCR: bool, chunks: seq<string>)
    requires !(newLine && afterCR)
    ensures EncodeChunks(newLine, chunks) == Encode(newLine, afterCR, Perceived(afterCR, chunks))
    ensures FlagAfter(newLine, chunks) == After(newLine, Perceived(afterCR, chunks), '\n')
    decreases |chunks|
  {
    hide Encode, After, CStr;
    if chunks == [] {
      NothingEncoded(newLine, afterCR);
    } else {
      var text := CStr(chunks[0]);
      var pre := if afterCR && text != "" && text[0] == '\n' then "\r" else "";
      var rest := Perceived(After(afterCR, text, '\r'), chunks[1..]);
      NeverBoth(newLine, afterCR, text);
      ChunksEncodePerceived(After(newLine, text, '\n'), After(afterCR, text, '\r'), chunks[1..]);
      AfterConcat(newLine, pre + text, rest, '\n');
      EncodeConcat(newLine, afterCR, pre + text, rest);
      assert Perceived(afterCR, chunks) == pre + text + rest;
      ChunkEncoding(newLine, afterCR, text);
    }
  }

  lemma {:induction false} NeverBoth(newLine: bool, afterCR: bool, text: string)
    requires !(newLine && afterCR)
    ensures !(After(newLine, text, '\n') && After(afterCR, text, '\r'))
  {
  }

  lemma {:induction false} NothingEncoded(newLine: bool, afterCR: bool)
    ensures Encode(newLine, afterCR, "") == "" && After(newLine, "", '\n') == newLine
  {
  }

  lemma {:induction false} AfterConcat(flag: bool, s: string, t: string, c: char)
    ensures After(flag, s + t, c) == After(After(flag, s, c), t, c)
  {
  }

  /** Without NULs, wherever the boundaries fall, the flag carried on is that of the whole message. */
  lemma {:induction false} FlagOfMessage(newLine: bool, chunks: seq<string>)
    requires NulFree(chunks)
    ensures FlagAfter(newLine, chunks) == After(newLine, Flatten(chunks), '\n')
    decreases |chunks|
  {
    if chunks != [] {
      FlagOfMessage(After(newLine, chunks[0], '\n'), chunks[1..]);
    }
  }

  lemma {:induction false} ChunkEncoding(newLine: bool, afterCR: bool, text: string)
    requires !(newLine && afterCR)
    ensures var pre := if afterCR && text != "" && text[0] == '\n' then "\r" else "";
            && Encode(newLine, false, text) == Encode(newLine, afterCR, pre + text)
            && After(newLine, pre + text, '\n') == After(newLine, text, '\n')
            && After(afterCR, pre + text, '\r') == After(afterCR, text, '\r')
  {
    if afterCR && text != "" && text[0] == '\n' {
      assert ("\r" + text)[1..] == text;
      assert Encode(newLine, true, "\r" + text) == "\r" + Encode(false, true, text);
    } else {
      assert "" + text == text;
    }
  }

  /** `s` without its CRs: what the line-end conversion never touches. */
  function WithoutCR(s: string): string
    decreases |s|
  {
    if s == "" then "" else (if s[0] == '\r' then "" else [s[0]]) + WithoutCR(s[1..])
  }

  lemma {:induction false} WithoutCRConcat(s: string, t: string)
    ensures WithoutCR(s + t) == WithoutCR(s) + WithoutCR(t)
    decreases |s|
  {
    if s == "" {
      assert s + t == t;
    } else {
      assert (s + t)[1..] == s[1..] + t;
      WithoutCRConcat(s[1..], t);
    }
  }

  lemma {:induction false} NormalisedWithoutCR(afterCR: bool, s: string)
    ensures WithoutCR(Normalised(afterCR, s)) == WithoutCR(s)
    decreases |s|
  {
    if s != "" {
      var head := if s[0] == '\n' && !afterCR then "\r\n" else [s[0]];
      NormalisedWithoutCR(s[0] == '\r', s[1..]);
      WithoutCRConcat(head, Normalised(s[0] == '\r', s[1..]));
      assert "\r\n"[1..] == "\n";
      assert WithoutCR(head) == if s[0] == '\r' then "" else [s[0]];
    }
  }

  lemma {:induction false} NormalisedKeeps(afterCR: bool, s: string, c: char)
    requires c != '\r'
    ensures c in Normalised(afterCR, s) <==> c in s
    decreases |s|
  {
    if s != "" {
      NormalisedKeeps(s[0] == '\r', s[1..], c);
      assert s == [s[0]] + s[1..];
    }
  }

  lemma {:induction false} PerceivedHasNoNul(afterCR: bool, chunks: seq<string>)
    ensures '\0' !in Perceived(afterCR, chunks)
    ensures '\0' in Flatten(chunks) <==> !NulFree(chunks)
    decreases |chunks|
  {
    if chunks != [] {
      PerceivedHasNoNul(After(afterCR, CStr(chunks[0]), '\r'), chunks[1..]);
    }
  }

  /** Every LF follows a CR. */
  ghost predicate Crlf(afterCR: bool, s: string) {
    forall i :: 0 <= i < |s| && s[i] == '\n' ==> CRBefore(afterCR, s, i)
  }

  predicate CRBefore(afterCR: bool, s: string, i: nat)
    requires i < |s|
  {
    if i == 0 then afterCR else s[i - 1] == '\r'
  }

  lemma {:induction false} CrlfCons(afterCR: bool, head: string, rest: string)
    requires head != "" && Crlf(afterCR, head) && Crlf(head[|head| - 1] == '\r', rest)
    ensures Crlf(afterCR, head + rest)
  {
    var s := head + rest;
    forall i | 0 <= i < |s| && s[i] == '\n' ensures CRBefore(afterCR, s, i) {
      if i < |head| {
        assert head[i] == '\n' && CRBefore(afterCR, head, i);
      } else {
        assert rest[i - |head|] == '\n' && CRBefore(head[|head| - 1] == '\r', rest, i - |head|);
      }
    }
  }

  lemma {:induction false} CrlfTail(afterCR: bool, s: string)
    requires Crlf(afterCR, s) && s != ""
    ensures Crlf(s[0] == '\r', s[1..]) && (s[0] == '\n' ==> afterCR)
  {
    var t := s[1..];
    assert s[0] == '\n' ==> CRBefore(afterCR, s, 0);
    forall i | 0 <= i < |t| && t[i] == '\n' ensures CRBefore(s[0] == '\r', t, i) {
      assert s[i + 1] == '\n' && CRBefore(afterCR, s, i + 1);
    }
  }

  /** What normalising does: every LF then follows a CR, a text in which it did is left alone, only CRs are added. */
  lemma {:induction false} NormalisedIsCrlf(afterCR: bool, s: string)
    ensures Crlf(afterCR, Normalised(afterCR, s))
    ensures Crlf(afterCR, s) ==> Normalised(afterCR, s) == s
    ensures WithoutCR(Normalised(afterCR, s)) == WithoutCR(s)
    ensures |Normalised(afterCR, s)| == |s| + BareLFs(afterCR, s)
    decreases |s|
  {
    hide WithoutCR, Crlf;
    NormalisedWithoutCR(afterCR, s);
    if s == "" {
      NoLF(afterCR);
    } else {
      var head := if s[0] == '\n' && !afterCR then "\r\n" else [s[0]];
      NormalisedIsCrlf(s[0] == '\r', s[1..]);
      OneLF(afterCR, head);
      CrlfCons(afterCR, head, Normalised(s[0] == '\r', s[1..]));
      if Crlf(afterCR, s) {
        CrlfTail(afterCR, s);
        assert s == [s[0]] + s[1..];
      }
    }
  }

  lemma {:induction false} NoLF(afterCR: bool)
    ensures Crlf(afterCR, "")
  {
  }

  lemma {:induction false} OneLF(afterCR: bool, head: string)
    requires head == "\r\n" || (|head| == 1 && (head[0] == '\n' ==> afterCR))
    ensures Crlf(afterCR, head)
  {
  }

  /** Among NUL-free chunks, the perceived message is the message plus one CR for each split pair. */
  lemma {:induction false} PerceivedGrowth(afterCR: bool, chunks: seq<string>)
    requires NulFree(chunks)
    ensures WithoutCR(Perceived(afterCR, chunks)) == WithoutCR(Flatten(chunks))
    ensures |Normalised(afterCR, Perceived(afterCR, chunks))|
         == |Normalised(afterCR, Flatten(chunks))| + SplitPairs(afterCR, chunks)
    ensures SplitPairs(afterCR, chunks) == 0 ==> Perceived(afterCR, chunks) == Flatten(chunks)
    decreases |chunks|
  {
    hide Normalised, WithoutCR, CStr;
    if chunks != [] {
      var text, rest := chunks[0], chunks[1..];
      assert CStr(text) == text;
      var cr := After(afterCR, text, '\r');
      PerceivedGrowth(cr, rest);
      ChunkGrowth(afterCR, text, Perceived(cr, rest), Flatten(rest));
    }
  }

  /** On the wire: the chunk encodings are longer than the whole-message one by exactly one byte for each split pair. */
  lemma {:induction false} EncodedGrowth(newLine: bool, afterCR: bool, chunks: seq<string>)
    requires NulFree(chunks)
    ensures |EncodeChunks(newLine, chunks)| == |Encode(newLine, afterCR, Flatten(chunks))| + SplitPairs(afterCR, chunks)
    decreases |chunks|
  {
    hide Encode, CStr;
    if chunks == [] {
      NothingEncoded(newLine, afterCR);
    } else {
      var text, rest := chunks[0], chunks[1..];
      assert CStr(text) == text;
      EncodedGrowth(After(newLine, text, '\n'), After(afterCR, text, '\r'), rest);
      EncodeConcat(newLine, afterCR, text, Flatten(rest));
      EncodedAfterCR(newLine, afterCR, text);
    }
  }

  lemma {:induction false} EncodedAfterCR(newLine: bool, afterCR: bool, s: string)
    ensures |Encode(newLine, false, s)|
         == |Encode(newLine, afterCR, s)| + if afterCR && s != "" && s[0] == '\n' then 1 else 0
  {
  }

  lemma {:induction false} ChunkGrowth(afterCR: bool, text: string, perceived: string, rest: string)
    requires WithoutCR(perceived) == WithoutCR(rest)
    ensures var pre := if afterCR && text != "" && text[0] == '\n' then "\r" else "";
            var cr := After(afterCR, text, '\r');
            && WithoutCR(pre + text + perceived) == WithoutCR(text + rest)
            && |Normalised(afterCR, pre + text + perceived)| - |Normalised(cr, perceived)|
               == |pre| + |Normalised(afterCR, text + rest)| - |Normalised(cr, rest)|
            && (pre == "" ==> pre + text + perceived == text + perceived)
  {
    hide Normalised, WithoutCR;
    var pre := if afterCR && text != "" && text[0] == '\n' then "\r" else "";
    NormalisedConcat(afterCR, pre + text, perceived);
    NormalisedConcat(afterCR, text, rest);
    ExtraCR(afterCR, text);
    WithoutCRConcat(pre + text, perceived);
    WithoutCRConcat(text, rest);
    WithoutCRConcat(pre, text);
    assert "" + WithoutCR(text) == WithoutCR(text);
  }

  lemma {:induction false} ExtraCR(afterCR: bool, text: string)
    ensures var pre := if afterCR && text != "" && text[0] == '\n' then "\r" else "";
            && |Normalised(afterCR, pre + text)| == |Normalised(afterCR, text)| + |pre|
            && After(afterCR, pre + text, '\r') == After(afterCR, text, '\r')
            && WithoutCR(pre) == ""
  {
    assert ("\r" + text)[1..] == text;
    assert "" + text == text;
  }

  /**
   * Exactly when a client gets the message back from a RETR whose file was read in these chunks: no chunk holds a
   * NUL, no boundary splits a CR LF, and the reply starts on a fresh line or the message does not start with a dot.
   */
  lemma {:induction false} RetrievalExact(newLine: bool, chunks: seq<string>, tail: string)
    ensures Decode(EncodeChunks(newLine, chunks) + (FINAL + tail))
            == Some((Normalised(false, Flatten(chunks)) + CRLF, tail))
       <==> NulFree(chunks) && SplitPairs(false, chunks) == 0 && (newLine || !StartsWithDot(Flatten(chunks)))
  {
    hide Encode, EncodeChunks, Normalised, Decode, Perceived, SplitPairs;
    var p, m := Perceived(false, chunks), Flatten(chunks);
    ChunksEncodePerceived(newLine, false, chunks);
    PerceivedHasNoNul(false, chunks);
    NormalisedKeeps(false, m, '\0');
    NormalisedKeeps(false, p, '\0');
    if NulFree(chunks) {
      PerceivedGrowth(false, chunks);
    }
    if newLine || !StartsWithDot(p) {
      DecodeEncoded(newLine, p, tail);
      SameBeforeCRLF(Normalised(false, p), Normalised(false, m));
    } else {
      DecodeUnstuffed(p, tail);
      NormalisedKeeps(false, p[1..], '\0');
      NormalisedWithoutCR(false, p[1..]);
      NormalisedWithoutCR(false, m);
      SameBeforeCRLF(Normalised(false, p[1..]), Normalised(false, m));
      assert |WithoutCR(p)| == 1 + |WithoutCR(p[1..])|;
    }
  }

  lemma {:induction false} SameBeforeCRLF(s: string, t: string)
    ensures s + CRLF == t + CRLF <==> s == t
  {
    assert (s + CRLF)[..|s|] == s;
    assert (t + CRLF)[..|t|] == t;
  }

  /** Three retrievals that go wrong: a pair split by a read, a NUL, a dot after a message without a final LF. */
  lemma {:induction false} RetrievalExamples()
    ensures Decode(EncodeChunks(true, ["a\r", "\nb"]) + (FINAL + "")) != Some((Normalised(false, "a\r\nb") + CRLF, ""))
    ensures Decode(EncodeChunks(true, ["a\0b"]) + (FINAL + "")) != Some((Normalised(false, "a\0b") + CRLF, ""))
    ensures Decode(EncodeChunks(false, [".a"]) + (FINAL + "")) != Some((Normalised(false, ".a") + CRLF, ""))
  {
    hide Decode, EncodeChunks, Normalised;
    RetrievalExact(true, ["a\r", "\nb"], "");
    RetrievalExact(true, ["a\0b"], "");
    RetrievalExact(false, [".a"], "");
    var split, nul, dot := ["a\r", "\nb"], ["a\0b"], [".a"];
    assert split[1..] == ["\nb"] && split[1..][1..] == [] && nul[1..] == [] && dot[1..] == [];
    assert Flatten(split[1..]) == "\nb" + Flatten([]) && Flatten(split) == "a\r" + Flatten(split[1..]);
    assert Flatten(nul) == "a\0b" + Flatten([]) && Flatten(dot) == ".a" + Flatten([]);
    assert "a\r" + "\nb" == "a\r\nb" && "\nb" + "" == "\nb" && "a\0b" + "" == "a\0b" && ".a" + "" == ".a";
    assert SplitPairs(true, split[1..]) >= 1;
    assert nul[0] in nul && '\0' in nul[0] by { assert nul[0][1] == '\0'; }
  }
}
