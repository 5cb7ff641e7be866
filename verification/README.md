# A verified model of the POP3 server's session engine

The model covers what happens between `accept` and `close` on one POP3 connection, the selector that drives it, and the
user table behind it.

* `Text`, `Buffer`, `Commands`, `Parser`: byte strings as C sees them, the bounded I/O buffer with its overlapping-move
  compaction, the command grammar read off a whole line, and the byte machine that must agree with it.
* `Maildrop`, `MaildropRuns`: the message table with its deletion marks and running counters, every command handler,
  and what whole runs of commands do to it (accounting, RSET, QUIT, login).
* `Protocol`: what each command is answered and what it changes, spelt out in words of its own.
* `DotStuffing`: the RETR encoder, whole-message and chunk by chunk, with the decoder of section 3 of RFC 1939.
* `Session`, `SessionSafety`: one connection as a state machine over selector events; None stands for a failed assert,
  `Aborted` for a state that has no handler for the event.
* `Reference`: a server without buffers, chunks or events, each command in its own circumstances (user table, pieces in
  which a file is read). `Hearing`, `Sending`: what one event does to the bytes received and to the file being sent.
  `SessionRuns`, `ClientRuns`, `Overflow`, `Retrieval`: the theorems that relate every run of the machine to the reference.
* `Client`, `Server`: the `Client` structure as an object with the C functions as methods, each proved against the
  machine's function; `Serve` carries the run theorems over to the object.
* `Selector`: the descriptor table, the interest sets, `max_fd` and the dispatch loop under handlers that change them.
  `EventLoop`: selector and connections together.
* `Users`, `UserPages`: the user table with its fixed-width arrays as a finite map, and the paged listing of it.

The network is arbitrary: `recv` delivers any bytes that fit, the end of the stream, or fails; `send` takes any number of
the pending bytes, 0 included (which is also how a failing `send` leaves the buffer); `read` returns any non-empty part
of the file of at most 4095 bytes. Users enter a session as the set of pairs that a login may give
(`Users.Accounts`, which `Users.UserTable.CheckValid` accepts); the file system is a map from users to folders with the set of files whose removal fails.

Sizes are as in C: the counters wrap at 2^32, sizes and `atoi` results are truncated to 32-bit `int`.

## Where the code falls short of its intent

Each of these is in the model as the code has it, with the exact condition under which the intent is met.

* A short (or failing) send from a full buffer at the end of a mail file finds no room for the terminator; the assert of
  `buffer_write_adv` fails and the whole server stops. `SessionSafety.StateAndInterestAgree` (if and only if),
  `Overflow.NewlinesAbort` (a file of 4095 line feeds, two sends).
* A reply drained while a fragment of a command is waiting, or anything behind a QUIT, leaves the machine in a state
  without a write handler but with write interest: `SessionSafety.StateAndInterestAgree` and, over whole runs,
  `ClientRuns.RunSettles` (if and only if), `ClientRuns.FragmentDoomsServer` (a three-event run).
* Commands that wait behind a RETR are not answered until more bytes arrive: the end of a file goes to READ without
  parsing what is already in the client buffer. `SessionRuns.SessionRefinesReference` (at rest everything has been sent
  if and only if no complete command waits), `SessionRuns.RestFollowsFile` (only a RETR ends so).
* A read that ends between a CR and its LF adds a CR, a NUL cuts its chunk short, and `newLine` is not reset by RETR, so
  a first dot may not be doubled: `DotStuffing.RetrievalExact` (if and only if), `DotStuffing.RetrievalExamples`.
* A chunk whose encoding is longer than the buffer loses bytes, and a full, partly sent buffer makes the server read the
  next chunk early and lose it whole: `Overflow.DeliveredUnlessDropped` (if and only if), `Overflow.NewlinesOverflow`,
  `Retrieval.FullBufferDropsChunk`.
* The removal loop of QUIT compares its index with the count it decrements: `MaildropRuns.QuitExact`,
  `MaildropRuns.QuitRemovesAllMarked` (if and only if), `MaildropRuns.QuitLeavesMarkedMessage`, and with the bound fixed
  before the loop `MaildropRuns.RepairedQuitExact`.
* The same loop, when a removal fails, has shortened the table; an unmarked entry it cuts off is still counted:
  `MaildropRuns.QuitMiscountsExact` (if and only if). A login that finds no folder then keeps that table and its counters:
  `MaildropRuns.BooksOverRuns` (if and only if), `MaildropRuns.StaleLoginBreaksBooks` (a run from the start). RSET then
  does not bring back the login either: `MaildropRuns.RsetRestoresLogin` (if and only if).
* `user_add` admits names and passwords of exactly 32 characters, which are read on into what follows them:
  `Users.StoredEntryReads` (what is read), `Users.StoredNameIsFound` (if and only if).
* USERS puts its answer together in a local array before it checks the length; strings of 32 characters make lines that
  run on, and the array is overrun: `UserPages.HandleUsers` (None exactly then), `UserPages.PageFits` (never without such
  strings), `UserPages.FullEntriesOverflow` (four users that `user_add` admits).
* `handle_iteration` copies the data of a key before the read handler is called; a handler that drops its descriptor and
  adds it again leaves the write handler with the old data: `Selectors.DispatchHandsCurrentData` (if and only if),
  `Selectors.ReuseHandsStaleData`. No handler of this server does that.
* `selector_register` tests for room with `>`: harmless exactly when the initial size is at least 512
  (`Selectors.CapacityIsEnough`, `Selectors.Selector.New`, `Selectors.Selector.Register`); the server asks for 1024.

The draft "RFC Manager Protocol" describes the answer to USERS as a bare `+OK` line and one fixed error line; the model
follows the code, which prints the range and an English text.

## Model

| member | source | states |
|---|---|---|
| Buffers.PutAllKeepsPrefix | src/utils/buffer.c:84-90 | writing byte by byte keeps exactly the longest prefix that fits and drops the rest silently |
| Buffers.RunIsFifo | src/utils/buffer.c:13-105 | over any legal run of operations, accepted bytes = bytes taken ++ pending bytes, nothing is taken back, and the cursors stay in bounds |
| Buffers.CompactionMaximisesRoom | src/utils/buffer.c:92-105 | compaction keeps the pending bytes and leaves the most room any buffer with those bytes can have |
| Buffers.Buffer.constructor | src/utils/buffer.c:19-24 | an empty buffer of the given size |
| Buffers.Buffer.Reset | src/utils/buffer.c:13-17 | the buffer is empty and rewound |
| Buffers.Buffer.CanWrite | src/utils/buffer.c:27-30 | true exactly when there is room behind the write pointer, gap at the front not counted |
| Buffers.Buffer.CanRead | src/utils/buffer.c:39-42 | true exactly when bytes are pending |
| Buffers.Buffer.WriteLimit | src/utils/buffer.c:32-37 | the room reported is limit minus write pointer |
| Buffers.Buffer.StoreBytes | src/utils/buffer.c:51-57 | appends the bytes, or fails the assert without change when they pass the limit |
| Buffers.Buffer.Print | src/command_handler.c:6-14 | snprintf at the write pointer: an exact fit loses its last byte to the NUL, a longer text fails the assert |
| Buffers.Buffer.ReadAdv | src/utils/buffer.c:59-70 | hands out the first n pending bytes, keeps the others, and rewinds a drained buffer |
| Buffers.Buffer.ReadByte | src/utils/buffer.c:72-82 | takes the next pending byte, or gives 0 and changes nothing |
| Buffers.Buffer.WriteByte | src/utils/buffer.c:84-90 | appends the byte if there is room, else changes nothing |
| Buffers.Buffer.Compact | src/utils/buffer.c:92-105 | the overlapping move keeps the pending bytes in order and puts them at the front |
| Text.DecReads | src/command_handler.c:71-124 | a printed number is decimal digits, none too many, and reads back as the number |
| Text.AtoiReads | src/command_handler.c:96-121 | `atoi` reads white space, a sign and decimal digits up to anything else, and truncates to 32 bits |
| Text.AtoiOfDec | src/command_handler.c:96-121 | `atoi` undoes `%d` on every `int` |
| Text.UpperIs | src/parser.c:71 | `toupper` changes the letters of one alphabet into those of the other and nothing else |
| Commands.LookupSpells | src/parser.c:28-57 | each of the thirteen keywords is found exactly by its spelling, and ERROR is left for every other word |
| Commands.KeywordOfLine | src/parser.c:28-99 | the keyword of a line that ends in CR is the one that its first word spells, in any case; it is malformed exactly if there is none |
| Commands.MalformedExactly | src/parser.c:55-99 | a line is malformed if and only if it does not end in CR or its first word spells no keyword |
| Commands.TypedLine | src/parser.c:28-99 | the words a client types, spaces between them and CR LF behind, parse to the keyword and the first two words that are not empty |
| Commands.PlainArguments | src/parser.c:59-65 | without NULs, the two argument buffers end up with the next two non-empty segments |
| Parsers.ConsumeSplit | src/pop3cmd.c:18-30 | stopping between two reads changes nothing about what is parsed |
| Parsers.ConsumeIsFirstCommand | src/pop3cmd.c:18-30 | the byte machine stops exactly behind the LF of the first line, unless an oversized segment in it blocks it for ever, leaves what follows unread, and has read from the line the command of the line grammar |
| Parsers.FinishIsParseLine | src/parser.c:28-99 | a line fed byte by byte leaves the keyword (any case) and the two arguments that splitting the whole line gives, ERROR if no CR precedes the LF or the keyword is unknown |
| Parsers.ArrivingIsCommandsIn | src/pop3.c:238-286 | however the stream is cut into reads, with a reset after each command, the commands are those of the whole stream |
| Parsers.Pop3Parser.constructor | src/parser.c:7-23 | a fresh parser: UNDEF, empty line, zeroed arguments |
| Parsers.Pop3Parser.Reset | src/parser.c:109-115 | the parser is as fresh again |
| Parsers.Pop3Parser.ProcessBuffer | src/parser.c:28-67 | the line buffer becomes the keyword, or is copied into the first free argument |
| Parsers.Pop3Parser.Feed | src/parser.c:69-99 | one byte in place does what the value machine does, and returns its state, ERROR when the line buffer is full |
| Parsers.ConsumeBuffer | src/pop3cmd.c:18-30 | drains the buffer into the parser up to the end of the first command; the bytes behind it stay pending |
| DotStuffing.EncodeConcat | src/pop3.c:154-179 | encoding a concatenation is encoding its parts with the flags carried over |
| DotStuffing.EncodeLength | src/pop3.c:154-179 | an encoding has |s| + bare LFs + line-start dots bytes, hence between |s| and 2*|s| |
| DotStuffing.DecodeEncoded | src/pop3.c:147-179 | on a fresh line (or a message without a first dot) the decoder of section 3 of RFC 1939 stops exactly at the terminator and returns the CRLF-normalised message and one CRLF |
| DotStuffing.NormalisedIsCrlf | src/pop3.c:156-163 | in a normalised text every LF follows a CR; a text in which it did is left alone; only CRs are added, one per bare LF |
| DotStuffing.DecodeUnstuffed | src/command_handler.c:126-127 | entered with the flag false, a message with a first dot loses that dot or is cut to nothing |
| DotStuffing.ChunksEncodePerceived | src/pop3.c:154-179 | encoding chunk by chunk equals encoding in one go the message with one more CR at each split CR LF and each chunk cut at its first NUL; the final flag is that of this message |
| DotStuffing.FlagOfMessage | src/pop3.c:154-179 | without NULs, wherever the boundaries fall, the final `newLine` is that of the whole message |
| DotStuffing.PerceivedGrowth | src/pop3.c:157-162 | without NULs that message differs only in CRs, and normalises to exactly one byte more for every boundary inside a CR LF |
| DotStuffing.EncodedGrowth | src/pop3.c:154-179 | without NULs the chunk encodings are longer than the encoding of the whole message by exactly one byte for every boundary inside a CR LF |
| DotStuffing.RetrievalExact | src/pop3.c:133-197 | the client decodes the message if and only if no chunk holds a NUL, no boundary splits a CR LF, and the reply starts on a fresh line or the message not with a dot |
| DotStuffing.RetrievalExamples | src/pop3.c:154-164 | a split pair, a NUL and a stale flag each lose a message |
| Maildrop.ExecKeepsValid | src/command_handler.c:289-314 | ids stay 1..n by position and the counters in range through every command; listings and files come only from TRANSACTION and change nothing |
| Maildrop.ExecKeepsTally | src/command_handler.c:138-223 | through every command the counters equal the count and octets of the unmarked entries that the last login with a folder listed |
| Maildrop.AccountedUnlessCutOff | src/pop3file.c:104-107 | those are the unmarked messages of the table if and only if no unmarked entry lies between its present length and the listed one |
| Maildrop.QuitMiscounts | src/command_handler.c:31-45 | a QUIT leaves right counters right if and only if every entry it cuts off the table is marked |
| Maildrop.ExecKeepsBooks | src/command_handler.c:138-223 | in AUTHORIZATION and TRANSACTION the counters stay right after a command if and only if it is not a login without a folder over a table with an unmarked entry cut off |
| MaildropRuns.TallyOverRuns | src/pop3file.c:79-107 | the counters are those of the entries listed by the last login after every run from a fresh client |
| MaildropRuns.BooksOverRuns | src/pop3file.c:79-107 | from a fresh client, the counters are right all along a run of commands if and only if no login in it is stale |
| MaildropRuns.StaleLoginBreaksBooks | src/pop3file.c:70-77 | a run from a fresh client after which they are wrong |
| MaildropRuns.RsetRestoresLogin | src/command_handler.c:171-186 | after any commands but QUIT, RSET does what it would have done at the login, and brings back that very state if and only if it had no marks |
| MaildropRuns.DeletedIsGone | src/command_handler.c:138-163 | DELE is positive only on an unmarked message, a second one changes nothing; the message is then refused by RETR and LIST, all others answer as before |
| MaildropRuns.SweepExact | src/command_handler.c:31-39 | from any index on, the removal loop visits i if and only if i plus the removals before it is below the initial count; it removes the marked ones it visits before the first removal that fails and no other, counts what is left, and fails if and only if a visited marked file cannot be removed |
| MaildropRuns.QuitExact | src/command_handler.c:27-66 | QUIT leaves exactly the messages that are unmarked, unvisited or from the first failing removal on, in order; it signs off with an empty maildrop, 1 message or the number of messages left, in those words, or answers -ERR and stays in UPDATE exactly if a removal failed |
| MaildropRuns.RepairedQuitExact | src/command_handler.c:31-39 | with the bound fixed before the loop, exactly the marked messages go (section 6 of RFC 1939) if and only if each of them can be removed |
| MaildropRuns.QuitRemovesAllMarked | src/command_handler.c:32-36 | QUIT as written removes all marked messages if and only if each can be removed and the last marked index plus the number of marks is at most the number of messages |
| MaildropRuns.QuitMiscountsExact | src/command_handler.c:31-45 | from the marks and the files that cannot be removed: a QUIT leaves right counters right if and only if the entries from the number of files left on are all marked |
| MaildropRuns.QuitLeavesMarkedMessage | src/command_handler.c:32-36 | two messages, both marked: one stays and is announced |
| MaildropRuns.WholeVisit | src/command_handler.c:200-223 | login, any commands, QUIT: the folder then holds exactly what the final marks and the loop leave of the folder at login |
| MaildropRuns.MailCommandsNeedTransaction | src/command_handler.c:255-314 | STAT, LIST, RETR, DELE, NOOP and RSET are answered as unknown, without effect, exactly outside TRANSACTION |
| MaildropRuns.NameIsLastNamed | src/command_handler.c:188-220 | a name held by the client is that of the last USER obeyed, and no PASS has been refused since |
| MaildropRuns.LoginSafety | src/command_handler.c:200-223 | whoever is in TRANSACTION after a run gave, at one step, for the last name a password then in the user table, and has been in TRANSACTION since |
| Protocol.GreetingIs | src/main.c:111-117 | the greeting |
| Protocol.UserAnswers | src/command_handler.c:188-198 | USER outside TRANSACTION: the name is kept |
| Protocol.PassAnswers | src/command_handler.c:200-223 | PASS without a name, with a pair not in the table, which forgets the name, and with one that is, which lists the folder if there is one: the new state and the words of each |
| Protocol.LoginLists | src/pop3file.c:79-107 | a login lists every file of the folder, numbered from 1, with its octets, unmarked, and their totals; the next entry is the sentinel, those behind it stay |
| Protocol.QuitOutside | src/command_handler.c:16-24 | QUIT outside TRANSACTION closes the session |
| Protocol.CapaAnswers | src/command_handler.c:226-252 | the capabilities of each phase in their words, and that they are exactly the commands of its table |
| Protocol.OthersAnswer | src/command_handler.c:255-313 | every other command, TOP, UIDL and APOP included, is unknown and changes nothing |
| Protocol.NoopAnswers | src/command_handler.c:165-169 | NOOP changes nothing |
| Protocol.StatAnswers | src/command_handler.c:68-75 | STAT prints the number, then the octets |
| Protocol.ListAnswers | src/command_handler.c:77-116 | LIST of one message during a visit: its number and the octets found at login, or that it is deleted, or that there is none |
| Protocol.ListWithoutTable | src/command_handler.c:80-84 | LIST for a user without a folder whose client has listed none |
| Protocol.RetrAnswers | src/command_handler.c:118-136 | RETR during a visit: octets and file of the message found at login, or that there is none |
| Protocol.DeleAnswers | src/command_handler.c:138-163 | DELE marks the entry of that number and no other, takes it off the counters, and says so; or says that it is marked, or that there is none |
| Protocol.RsetAnswers | src/command_handler.c:171-186 | RSET during a visit: the state of the login, with the number of messages and the octets of the folder in the answer |
| Protocol.QuitAnswers | src/command_handler.c:27-66 | QUIT in TRANSACTION does what QuitExact says, in its words |
| Protocol.ErrorAnswers | src/pop3.c:413-428 | -ERR if the buffer has room for it, its LF lost at an exact fit, and write interest in any case |
| SessionSafety.StepKeepsOk | src/utils/stm.c:28-77 | every event leaves well-formed buffers, parser, maildrop and list cursor |
| SessionSafety.ReplyIsShort | src/command_handler.c:16-252 | every one-line reply and status line is below 200 bytes, so no assert of an empty buffer can fail |
| SessionSafety.StateAndInterestAgree | src/pop3.c:85-234 | an event aborts if and only if it is a short send from a full buffer at the end of a file; otherwise state and interest agree after it if and only if it does not drain a reply over a fragment or behind a QUIT, and if it does, every next event aborts the server |
| Reference.ListTextIsExact | src/pop3.c:290-360 | a listing is the lines of the unmarked messages, in increasing id order with their sizes, then a dot; their number is the one counted |
| Reference.StatAgreesWithList | src/command_handler.c:68-87 | STAT reports the number and octets of exactly the messages that LIST announces and lists, one line each with number and octets |
| MaildropRuns.RetrFindsMessage | src/command_handler.c:118-136 | during a visit, RETR id announces the octets, and names the file, of the id-th message of the folder at login, unless it is marked or there is none |
| Reference.RetrServesMessage | src/pop3.c:133-234 | the whole RETR reply is that status line and what a client decodes to the CRLF-normalised message, and nothing behind it |
| Hearing.StepHears | src/pop3.c:238-286 | one event executes at most the next command of the bytes received, under the maildrop function, and holds on to the fragment behind it; a failing `recv` forgets the fragment |
| Hearing.HangUpCloses | src/pop3.c:46-52 | the client hangs up while nothing waits: the connection is closed, and its descriptor unregistered |
| Hearing.ClosesExactly | src/pop3.c:37-129 | an event closes a connection if and only if it is that, or the last byte of a reply is out after QUIT and nothing waits |
| Hearing.StrandedExactly | src/pop3.c:105-128 | input left behind a drained reply: a fragment is taken in with write interest in READ; a command behind QUIT is taken off the input, and `-ERR` waits in ERROR_STATE, which has no handler to send it |
| SessionRuns.StepKeepsFuture | src/pop3.c:37-234 | on every event that neither loses nor strands bytes, bytes sent ++ bytes still to be sent = bytes that were to be sent, the command executed answered in its circumstances |
| SessionRuns.SessionRefinesReference | src/pop3.c:37-393 | in every run on which no chunk is overfull and no input stranded, the bytes sent are a prefix of greeting and reference replies to the commands heard, the k-th command executed answered under the user table of the very event that executes it, with its file in the pieces read; at rest they are all of them if and only if no complete command waits |
| SessionRuns.ChoicesFollowSteps | src/pop3.c:238-286 | the tables of the answers are, one by one, those of the events that execute the commands |
| SessionRuns.CleanSession | src/pop3.c:37-393 | with one user table and clean chunks, those are the replies to the bytes received with each file encoded in one go, and nothing else of the run matters |
| SessionRuns.RestFollowsFile | src/pop3.c:224-228 | only the end of a RETR, which leaves the input alone, comes to rest over a complete command |
| SessionRuns.SchedulingIndependence | src/pop3.c:37-129 | two such schedules of the same input that come to rest have sent the same bytes |
| ClientRuns.RunSettles | src/include/pop3.h:167-200 | at the end of every run from a settled connection, state and interest agree if and only if no event of it stranded input; otherwise no handler is left for the interest |
| ClientRuns.EveryRunSettles | src/main.c:89-117 | so for every run of every accepted connection |
| ClientRuns.LockStepIsGood | src/pop3.c:37-129 | a client that sends nothing behind an LF before the reply never strands its input |
| ClientRuns.LockStepSession | src/pop3.c:37-129 | for every lock-step client and every split of both streams, the bytes it gets are greeting and reference replies, under the table of each executing event, all of them whenever the server waits for it; with clean chunks and one table, those to the bytes it sent |
| ClientRuns.FragmentDoomsServer | src/pop3.c:281 | greeting, two bytes in one read, reply drained: no handler is left |
| Sending.RefillStep | src/pop3.c:133-234 | a chunk read into an empty or a full buffer adds what there is room for, whole if it is not overfull |
| Sending.ChunkIsAnyPiece | src/pop3file.c:24-43 | a read may give any start of what is left, from one byte to 4095, and nothing else |
| Overflow.FileRunSends | src/pop3.c:133-234 | over any sends and any file reads, an abort at the end included, the bytes sent and pending are, chunk by chunk, the whole encoding, its first 4096 bytes or nothing, and all encodings if and only if no chunk was overfull; the chunks are the file so far and `newLine` is the flag after them |
| Retrieval.RetrievalDelivers | src/pop3.c:133-234 | a whole RETR that dropped nothing sends the status line, the chunk encodings and CRLF.CRLF, nothing else; the client decodes the message under exactly the condition of RetrievalExact; without NULs the next reply starts with the flag of this message |
| Retrieval.FullChunkFits | src/pop3file.c:40-42 | a chunk fits the empty buffer if and only if its text up to a NUL, its bare LFs and its line-start dots come to at most the buffer size; with the program's full read size, if and only if it grows by at most one byte |
| Retrieval.ChunkStoredWhole | src/pop3.c:154-181 | an empty buffer takes a chunk whole if and only if its encoding is at most the buffer size |
| Retrieval.FullBufferDropsChunk | src/pop3.c:211-222 | after a short send from a full buffer the next chunk is read and lost whole, and the assert fails if and only if the file is at its end |
| Retrieval.LongReplyEnds | src/pop3.c:199-393 | a file or a listing is over within a number of progressing sends bounded by what is left of it and the bytes pending, whatever is read, dropped or waiting; an abort can only be the last event |
| Retrieval.RepliesEnd | src/pop3.c:85-393 | the reply in progress and the replies to all input waiting are over within a number of progressing sends bounded by that work, the bytes waiting and the longest file |
| Retrieval.SomeBound | src/pop3file.c:46-113 | every store has a longest file |
| SessionSafety.SmallChunksFit | src/pop3.c:154-181 | from a state with room, an event whose chunk is shorter than half the buffer neither aborts nor loses a byte, and leads to a state with room |
| Overflow.DeliveredUnlessDropped | src/pop3.c:199-234 | a whole RETR delivers the chunk encodings if and only if no encoding was longer than the buffer and none was read behind a short send from a full buffer; the file is read in full either way |
| Overflow.NewlinesOverflow | src/pop3file.c:40 | a full chunk of LFs doubles and loses almost half of its encoding |
| Overflow.NewlinesAbort | src/pop3.c:211-222 | once such a chunk fills the buffer, a send that takes one byte aborts the server |
| Clients.Client.constructor | src/main.c:89-117 | the initial values, with the greeting in the server buffer |
| Clients.Client.FindFile | src/command_handler.c:96-109 | the search loop finds exactly the entry with that id |
| Clients.Client.RemoveMarked | src/command_handler.c:31-39 | the loop in place, its count and failure flag included, is the removal function as written |
| Clients.Client.HandleQuitAuth | src/command_handler.c:27-66 | new maildrop and reply are those of the QUIT function; UPDATE after a failed removal, else CLOSED |
| Clients.Client.HandleStat | src/command_handler.c:68-75 | the counters are printed as signed decimals and nothing else changes |
| Clients.Client.HandleList | src/command_handler.c:77-116 | one entry, an error line, or the start of a listing, as the list function says |
| Clients.Client.HandleRetr | src/command_handler.c:118-136 | status line and active file for an unmarked message, else the error line |
| Clients.Client.HandleDele | src/command_handler.c:138-163 | mark, counters and reply in place are those of the DELE function |
| Clients.Client.HandleRset | src/command_handler.c:171-186 | marks and counters in place are those of the RSET function |
| Clients.Client.Undelete | src/command_handler.c:173-179 | the loop's step-by-step additions come to the difference of the totals, modulo 2^32 |
| Clients.Client.PopulateArray | src/pop3file.c:46-113 | entries, sizes, sentinel and counters of the folder, or no change without one |
| Clients.Client.HandlePass | src/command_handler.c:200-223 | phase, name, table and reply are those of the PASS function |
| Clients.NotInTable | src/command_handler.c:255-313 | a command that the phase's table does not hold is answered as unknown, without effect |
| Clients.Client.Execute | src/command_handler.c:289-314 | the table search calls the handler of the command, answers an unknown one, and gives ERROR_STATE in CLOSED |
| Clients.Client.Pop3ReadList | src/pop3.c:290-360 | header, next unmarked line or dot by the cursor, skipping marked messages |
| Clients.Client.CountUndeleted | src/pop3.c:327-332 | the loop counts the unmarked messages |
| Clients.Client.Pop3WriteList | src/pop3.c:363-393 | sends n bytes, and reads on when the buffer is drained |
| Clients.Client.ReadFirstLineFile | src/pop3file.c:115-144 | opens the file if needed, gives a chunk of what is left, closes at the end |
| Clients.Client.EncodeLine | src/pop3.c:154-179 | the byte loop puts into the buffer the encoding of the chunk up to its first NUL, and leaves the flag of its last byte |
| Clients.Client.Pop3ReadFile | src/pop3.c:133-197 | next chunk encoded into the buffer, or the ending |
| Clients.Client.Pop3WriteFile | src/pop3.c:199-234 | sends n bytes, then waits, refills or ends the reply as the machine does |
| Clients.Client.ParseCommandInBuffer | src/pop3.c:238-286 | one command is parsed and executed, or the fragment kept, or the parser reset |
| Clients.Client.Pop3ReadCommand | src/pop3.c:37-83 | state, interest and buffers after a readable event are those of the machine |
| Clients.Client.Pop3WriteCommand | src/pop3.c:85-129 | state, interest and buffers after a writable event are those of the machine |
| Clients.Client.ArriveInError | src/pop3.c:413-428 | -ERR if it fits, and write interest |
| Clients.Client.JumpTo | src/utils/stm.c:38-53 | the new state and what arriving in it does |
| Clients.Client.HandleEvent | src/utils/stm.c:55-77 | one event on the object is one step of the machine, aborts included |
| Clients.EncodeNext | src/pop3.c:155-179 | looking back one byte inside the chunk decides each byte as the encoder with its CR flag does |
| Server.Serve | src/pop3.c:21-34 | an object served event by event from accept on ends in the machine's state having sent its bytes, unless an event aborts the machine; on a good run none does, and the bytes are what the reference tells, each command under the table of its event |
| Server.RunExecutes | src/pop3.c:238-286 | every run, whatever is dropped, stranded, forgotten or aborted on it, leaves the maildrop of exactly the commands that its events execute, each under the table of its event; they are in order a prefix of the commands heard |
| Server.SessionLogin | src/command_handler.c:200-223 | a connection in TRANSACTION after any events has, among the commands they executed, the login that LoginSafety asks for, in the table of the event that executed it |
| Selectors.CapacityIsEnough | src/utils/selector.c:174-190 | the next capacity exceeds what is asked for, and covers all descriptors if and only if 512 or more are asked for |
| Selectors.NextCapacity | src/utils/selector.c:174-190 | the shift loop computes the power of two above n, capped, plus one |
| Selectors.ActAt | src/utils/selector.c:337-433 | what setting an interest, registering and unregistering do to each descriptor |
| Selectors.DispatchIsSafe | src/utils/selector.c:452-485 | whatever handlers do to the table, every call is for a used descriptor, ready and interested at that moment, in descriptor order, read before write |
| Selectors.DispatchHandsCurrentData | src/utils/selector.c:462-482 | every handler gets the data its descriptor has at that moment, if and only if each read handler that is followed by the write handler of its descriptor leaves the descriptor with the data it had |
| Selectors.ReuseHandsStaleData | src/utils/selector.c:462-482 | a read handler that does so leaves the write handler with the old data |
| Selectors.NoCallAfterUnregistering | src/utils/selector.c:474-482 | a descriptor left unregistered by its read handler is not called again in the iteration |
| Selectors.DispatchIsComplete | src/utils/selector.c:452-485 | with handlers that leave the table alone, exactly the ready and interested ones are called |
| EventLoops.EnabledExactly | src/utils/selector.c:465-481 | an event can happen to a connection exactly if the selector calls that handler for its interest and the kernel may answer so |
| EventLoops.IterationDrivesConnections | src/utils/selector.c:452-485 | over connections registered with their interests, with others accepted meanwhile, every handler call of an iteration is an event that can happen to its connection, and all are registered so afterwards |
| EventLoops.IterationDelivers | src/utils/selector.c:452-485 | the read handler of a connection is called if and only if it is readable and a read can happen to it; if it is not, the write handler if and only if it is writable and a write can happen |
| EventLoops.CallsAreARun | src/utils/selector.c:452-485 | what the calls of an iteration do to a connection is the run of their events, to the end or until it is closed |
| EventLoops.ServerRun | src/main.c:244-250 | after any iterations of a server that accepts, serves and closes connections, each is registered with its interest and is the run, from accept on, of exactly the events it has had; state and interest agree unless it has stranded input, and in TRANSACTION it has logged in |
| Selectors.Selector.New | src/utils/selector.c:291-308 | null exactly for more elements than there can be descriptors, else an empty table that covers all descriptors if and only if at least 512 were asked for |
| Selectors.Selector.ItemsMaxFd | src/utils/selector.c:212-224 | the largest used descriptor, 0 if none |
| Selectors.Selector.UpdateFdset | src/utils/selector.c:226-240 | the descriptor is in a set exactly when it is interested in it; others are untouched |
| Selectors.Selector.EnsureCapacity | src/utils/selector.c:247-289 | room for index n with the old entries kept, or MAXFD |
| Selectors.Selector.Register | src/utils/selector.c:337-378 | adds a free valid descriptor, else the error; sets and maximum follow; reads behind the table exactly for the descriptor equal to its size |
| Selectors.Selector.Unregister | src/utils/selector.c:380-414 | removes a used descriptor, else the error; sets and maximum follow; reads behind the table exactly for a valid descriptor beyond it |
| Selectors.Selector.SetInterest | src/utils/selector.c:416-433 | changes the interest of a used descriptor, else the error; the sets follow; reads behind the table exactly for a valid descriptor beyond it |
| Selectors.Selector.HandleIteration | src/utils/selector.c:452-485 | the loop in place, with handlers changing the table under it, makes the calls of the dispatch function and leaves its table, unless it accesses memory outside the table, which it never does when that covers all descriptors |
| Selectors.Selector.Destroy | src/utils/selector.c:310-333 | every descriptor has been unregistered before the table goes |
| Users.TokensOfPair | src/users.c:15-16 | "name:password" splits into the name, then the password |
| Users.TokensJoin | src/users.c:15-16 | a colon separates the tokens before it from those behind it, whatever else is there |
| Users.StoredEntryReads | src/users.c:23-43 | what `strcmp` sees of a stored entry: the two strings, each read on into what follows it if it has exactly 32 characters |
| Users.StoredNameIsFound | src/users.c:23-43 | a stored name is read back if and only if it is shorter than its array, a password also if the next name is empty |
| Users.MapShrinks | src/users.c:45-60 | moving the last entry into a removed one's place removes exactly that name from the map and keeps names unique |
| Users.UserTable.Find | src/users.c:62-70 | the first entry that `strcmp` finds under the name, -1 if there is none; in a proper table that is the lookup in the map |
| Users.UserTable.CheckValid | src/users.c:72-82 | true exactly for the pairs that sessions are given; in a proper table exactly when the map holds that password for that name |
| Users.UserTable.Add | src/users.c:9-43 | the code of the first test that fails, else the table gains the entry, stays proper if and only if both strings are shorter than 32, and then gains the pair as a map; the slots behind the count are untouched |
| Users.UserTable.Remove | src/users.c:45-60 | -1 exactly when no entry is found; else the last entry takes the place of one found under the name, and the map of a proper table loses it; the slots from the new count on are untouched |
| UserPages.PagesCoverTable | src/manager/manager_handler.c:119-156 | what a client takes from the answers to USERS 1, 11, 21, ... is every entry exactly once, in table order, unless an answer is lost |
| UserPages.PageFits | src/manager/manager_handler.c:128-153 | where no string fills its array, a page fits the local array and the response |
| UserPages.EntryLineLength | src/manager/manager_handler.c:144-146 | the line of an entry: its number, its name, a colon, its password |
| UserPages.FullEntriesOverflow | src/manager/manager_handler.c:144-152 | four users with names and passwords of 32 characters overrun the local array before the length is checked |
| UserPages.AnswerSpelled | src/manager/manager_handler.c:119-156 | the page with its first line, the error line for a missing or invalid offset, or nothing exactly if the page has more than 1022 characters |
| UserPages.HandleUsers | src/manager/manager_handler.c:119-156 | for every table: the page, or the error line for a missing or invalid offset, or nothing exactly if the page has more than 1022 characters |

## Left out

- Sockets, `accept`, arguments, logging, signals, address formatting, the manager client and the manager's other handlers: plumbing, or simpler copies of what is modelled.
- The real `select`, blocking jobs, the mutex and `handle_block_notifications`: the ready sets are arbitrary sets given to the iteration; the server starts no blocking job.
- Memory: allocation never fails, nothing is freed; a `realloc` is a fresh array with the old entries.
- Metrics counters, `client->password`, `client->addr`, and the logging copy of four bytes in `parseCommandInBuffer`.
- TOP, UIDL and APOP beyond being recognised: like the program, the model answers them as unknown.
- READ_FILE and READ_LIST: the table has these states, no handler ever returns them.
- `stm_init` and the NULL `current` before the first event: a fresh machine is in WRITE, its initial state.
- A failing `read` of a mail file, and a file or folder that changes while it is being read.
- Overflow inside `atoi` beyond truncation to 32 bits, and `%d` of anything wider than an `int`.
- Maildrop.Store: folders hold at most nine regular files with distinct names, the most the table of ten has room for with its sentinel.
- Clients.Client.PopulateArray: a folder with ten or more regular files, for which the program writes behind the table.
- SessionRuns.SessionRefinesReference: runs on which a chunk is overfull, which Overflow.FileRunSends covers, or input is stranded, after which nothing more happens (ClientRuns.RunSettles). No other session touches the folders during the run.
- EventLoops.ServerRun: each connection has its own file system, so a QUIT in one session does not reach the folder another session of the same user is reading.
- SessionRuns.CleanSession: runs with unclean chunks, a changing user table or a failing `recv`, which SessionRefinesReference covers.
- ClientRuns.LockStepSession: overfull chunks; what happens then is DeliveredUnlessDropped.
- Retrieval.RetrievalDelivers: runs that dropped nothing; Overflow.DeliveredUnlessDropped covers the others.
- EventLoops.IterationDrivesConnections: the handlers of the listening sockets, which are any handlers that leave the descriptors of connections alone.
- Selectors.Selector.Unregister: the `handle_close` callback, which this server never sets.
- Selectors.Selector.HandleIteration: what the program does once it has accessed memory outside its table.
- UserPages.HandleUsers: what the program does once it has written behind its local array.
- Clients.Client.FindFile: the C code has this loop once in each of three handlers; the model has it once. The same holds for the two lines that write a reply and return a state.
- Bytes are `char`, and a character is taken to be its own upper case outside a-z.
