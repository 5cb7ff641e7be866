/** A server without buffers, chunks or events: commands in, whole replies out. */
module Reference {
  import opened Text
  import opened Commands
  import opened Maildrop
  import opened DotStuffing
  import Session
  import MaildropRuns

  /** The lines of the unmarked messages from index i on, in id order, and the final dot. */
  function ListText(files: seq<FileEntry>, cant: nat, i: nat): string
    requires cant <= |files|
    decreases cant - i
  {
    if i >= cant then ".\r\n"
    else (if files[i].deleted then "" else Session.ListLine(files[i])) + ListText(files, cant, i + 1)
  }

  /**
   * The circumstances in which one command is answered: the user table of that moment and, for a RETR, the pieces in
   * which its file is read; None stands for a file encoded in one go.
   */
  datatype Choice = Choice(users: set<(string, string)>, chunks: Option<seq<string>>)

  /** These pieces, if they are pieces of this text; else the text as one. */
  function ReadAs(chunks: seq<string>, body: string): (r: seq<string>)
    ensures Flatten(r) == body
  {
    if Flatten(chunks) == body then chunks else
    assert [body][1..] == [] && body + Flatten([]) == body;
    [body]
  }

  function BodyText(newLine: bool, body: string, chunks: Option<seq<string>>): string {
    match chunks
    case None => Encode(newLine, false, body)
    case Some(cs) => EncodeChunks(newLine, ReadAs(cs, body))
  }

  function FlagText(newLine: bool, body: string, chunks: Option<seq<string>>): bool {
    match chunks
    case None => After(newLine, body, '\n')
    case Some(cs) => FlagAfter(newLine, ReadAs(cs, body))
  }

  /** One command: the new maildrop, the new `newLine`, the whole reply. */
  function AnswerIn(ch: Choice, m: Mail, newLine: bool, c: Command): (r: (Mail, bool, string))
    requires m.Valid() && m.phase != CLOSED
    ensures r.0.Valid()
  {
    ExecKeepsValid(ch.users, m, c);
    var (mail, reply) := Exec(ch.users, m, c);
    match reply
    case Line(text) => (mail, newLine, text)
    case Listing => (mail, newLine, Session.ListHeader(Count(m.files[..m.cant])) + ListText(m.files, m.cant, 0))
    case FileBody(status, file) =>
      var body := m.store.Content(m.name, file);
      (mail, FlagText(newLine, body, ch.chunks), status + (BodyText(newLine, body, ch.chunks) + FINAL))
  }

  function Answer(users: set<(string, string)>, m: Mail, newLine: bool, c: Command): (r: (Mail, bool, string))
    requires m.Valid() && m.phase != CLOSED
  {
    AnswerIn(Choice(users, None), m, newLine, c)
  }

  /**
   * The replies to a sequence of commands, each in its circumstances, behind those with this user table and files in
   * one go; nothing is answered after QUIT has closed the session.
   */
  function Replies(m: Mail, newLine: bool, cmds: seq<Command>, choices: seq<Choice>, users: set<(string,
                   string)>): string
    requires m.Valid()
    decreases |cmds|
  {
    if cmds == [] || m.phase == CLOSED then "" else
    var (mail, nl, text) := AnswerIn(if choices == [] then Choice(users, None) else choices[0], m, newLine, cmds[0]);
    text + Replies(mail, nl, cmds[1..], if choices == [] then [] else choices[1..], users)
  }

  /** Files in one go and one user table: the choices make no difference. */
  lemma {:induction false} PlainChoices(m: Mail, newLine: bool, cmds: seq<Command>, choices: seq<Choice>,
                                        users: set<(string, string)>)
    requires m.Valid() && forall ch :: ch in choices ==> ch == Choice(users, None)
    ensures Replies(m, newLine, cmds, choices, users) == Replies(m, newLine, cmds, [], users)
    decreases |cmds|
  {
    hide AnswerIn;
    if cmds != [] && m.phase != CLOSED {
      var a := AnswerIn(Choice(users, None), m, newLine, cmds[0]);
      var rest := if choices == [] then [] else choices[1..];
      assert choices != [] ==> choices[0] in choices;
      assert forall ch :: ch in rest ==> ch in choices;
      PlainChoices(a.0, a.1, cmds[1..], rest, users);
    }
  }

  /** LIST announces as many messages as it lists, in increasing id order with their sizes. */
  lemma {:induction false} ListTextIsExact(m: Mail, i: nat)
    requires m.Valid() && i <= m.cant
    ensures ListText(m.files, m.cant, i) == LinesOf(Live(m.files[i..m.cant])) + ".\r\n"
    ensures |Live(m.files[i..m.cant])| == Count(m.files[..m.cant]) - Count(m.files[..i])
    ensures Increasing(Live(m.files[i..m.cant]), i, m.cant)
    decreases m.cant - i
  {
    hide Session.ListLine, Increasing, ListText, LinesOf;
    if i < m.cant {
      ListTextIsExact(m, i + 1);
      var here, there := m.files[i..m.cant], m.files[i + 1..m.cant];
      assert here[0] == m.files[i] && here[1..] == there;
      assert m.files[..i + 1][..i] == m.files[..i];
      IdIsPosition(m, i);
      IncreasingCons(here[0], Live(there), i, m.cant);
      NextLine(m.files, m.cant, i);
    } else {
      assert m.files[i..m.cant] == [];
      NoLines(m.files, m.cant);
      NoneIncreasing(i, m.cant);
    }
  }

  lemma {:induction false} NextLine(files: seq<FileEntry>, cant: nat, i: nat)
    requires i < cant <= |files| && ListText(files, cant, i + 1) == LinesOf(Live(files[i + 1..cant])) + ".\r\n"
    ensures ListText(files, cant, i) == LinesOf(Live(files[i..cant])) + ".\r\n"
  {
    hide Dec;
    var here, there := files[i..cant], files[i + 1..cant];
    assert here[0] == files[i] && here[1..] == there;
    if !here[0].deleted {
      assert Live(here)[1..] == Live(there);
      var line := Dec(here[0].id) + " " + Dec(here[0].size) + "\r\n";
      assert Live(here)[0] == here[0] && line + (LinesOf(Live(there)) + ".\r\n") == LinesOf(Live(here)) + ".\r\n";
    } else {
      assert "" + ListText(files, cant, i + 1) == ListText(files, cant, i + 1);
    }
  }

  lemma {:induction false} NoLines(files: seq<FileEntry>, cant: nat)
    requires cant <= |files|
    ensures ListText(files, cant, cant) == LinesOf(Live([])) + ".\r\n"
  {
    assert "" + ".\r\n" == ".\r\n";
  }

  /** Ids strictly increasing, above lo and up to hi. */
  ghost predicate Increasing(files: seq<FileEntry>, lo: int, hi: int) {
    && (forall a :: 0 <= a < |files| ==> lo < files[a].id <= hi)
    && (forall a, b :: 0 <= a < b < |files| ==> files[a].id < files[b].id)
  }

  lemma {:induction false} NoneIncreasing(lo: int, hi: int)
    ensures Increasing([], lo, hi)
  {
  }

  lemma {:induction false} IncreasingCons(f: FileEntry, files: seq<FileEntry>, lo: int, hi: int)
    requires Increasing(files, lo + 1, hi) && f.id == lo + 1 <= hi
    ensures Increasing([f] + files, lo, hi) && Increasing(files, lo, hi)
  {
  }

  lemma {:induction false} IdIsPosition(m: Mail, i: nat)
    requires m.Valid() && i < m.cant
    ensures |m.files| == MAX_EMAILS && m.files[i].id == i + 1 <= m.cant
  {
  }

  function Live(files: seq<FileEntry>): (r: seq<FileEntry>)
    ensures forall f :: f in r ==> f in files && !f.deleted
  {
    if files == [] then [] else if files[0].deleted then Live(files[1..]) else [files[0]] + Live(files[1..])
  }

  lemma {:induction false} LiveNext(files: seq<FileEntry>, f: FileEntry)
    ensures Live(files + [f]) == Live(files) + if f.deleted then [] else [f]
  {
    if files != [] {
      assert (files + [f])[1..] == files[1..] + [f];
      LiveNext(files[1..], f);
    }
  }

  /** The octets of the unmarked messages are the octets counted. */
  lemma {:induction false} SizeOfLive(files: seq<FileEntry>)
    ensures Size(Live(files)) == Size(files) && Count(files) == |Live(files)|
    decreases |files|
  {
    if files != [] {
      var n := |files| - 1;
      SizeOfLive(files[..n]);
      LiveNext(files[..n], files[n]);
      assert files == files[..n] + [files[n]];
      assert Live(files) != Live(files[..n]) ==> Live(files)[..|Live(files)| - 1] == Live(files[..n]);
    }
  }

  /** STAT reports the number and the octets of the very messages that LIST lists: the unmarked ones, in id order. */
  lemma {:induction false} StatAgreesWithList(users: set<(string, string)>, m: Mail, newLine: bool)
    requires Books(m) && m.phase == TRANSACTION && m.files[0].id != 0
    ensures var live := Live(m.files[..m.cant]);
            && Increasing(live, 0, m.cant)
            && Answer(users, m, newLine, Command(STAT, "", "")).2
               == "+OK " + Dec(|live|) + " " + Dec(ToInt32(Size(live))) + "\r\n"
            && Answer(users, m, newLine, Command(LIST, "", "")).2
               == "+OK " + Dec(|live|) + (if |live| > 1 then " messages\r\n" else " message\r\n")
                  + (LinesOf(live) + ".\r\n")
  {
    hide Dec, Size, Count, Live, LinesOf, ListText, Increasing;
    var files := m.files[..m.cant];
    assert m.files[0..m.cant] == files;
    ListTextIsExact(m, 0);
    SizeOfLive(files);
    CountBound(files);
    assert " message" + "s" + "\r\n" == " messages\r\n" && " message" + "" + "\r\n" == " message\r\n";
    assert forall x: string, y: string ::
        "+OK " + x + " message" + y + "\r\n" == "+OK " + x + (" message" + y + "\r\n");
    assert ToInt32(m.activeCant) == m.activeCant;
    assert ToInt32(Size(files) % TWO_32) == ToInt32(Size(files));
  }

  /** Number and octets of each message. */
  function LinesOf(files: seq<FileEntry>): string {
    if files == [] then "" else Dec(files[0].id) + " " + Dec(files[0].size) + "\r\n" + LinesOf(files[1..])
  }

  /**
   * RETR of an unmarked message during a visit: a status line with the octets found at login, then what a client
   * decodes to that message, if the reply starts on a fresh line or the message not with a dot.
   */
  lemma {:induction false} RetrServesMessage(users: set<(string, string)>, m: Mail, m0: Mail,
                                             steps: seq<MaildropRuns.Step>,
                                             newLine: bool, arg: string)
    requires MaildropRuns.FreshLogin(m, m0) && forall s :: s in steps ==> s.cmd.keyword != QUIT
    requires 1 <= Atoi(arg) <= |m.store.dirs[m.name.value]|
    requires !MaildropRuns.After(m0, steps).files[Atoi(arg) - 1].deleted
    ensures var last := MaildropRuns.After(m0, steps);
            var body := m.store.dirs[m.name.value][Atoi(arg) - 1].body;
            var status := "+OK " + Dec(ToInt32(|body|)) + " octets\r\n";
            && last.phase == TRANSACTION
            && status <= Answer(users, last, newLine, Command(RETR, arg, "")).2
            && (newLine || !StartsWithDot(body) ==>
                  Decode(Answer(users, last, newLine, Command(RETR, arg, "")).2[|status|..])
                  == Some((Normalised(false, body) + CRLF, "")))
  {
    hide Dec, Atoi, Encode, Decode, Normalised, ExecRetr, MaildropRuns.After;
    MaildropRuns.RetrFindsMessage(m, m0, steps, arg);
    var body := m.store.dirs[m.name.value][Atoi(arg) - 1].body;
    if newLine || !StartsWithDot(body) {
      DecodeEncoded(newLine, body, "");
      assert FINAL + "" == FINAL;
    }
  }
}
