# POP3 client engine, modelled in Dafny

This project models the POP3 client of `Pop3.cpp`. There are two classes:

- `CPop3Message` holds one retrieved mail message. It splits the message into header and body. It also looks up header fields: it finds the n-th field of a given name, unfolds continuation lines, turns tabs into spaces and trims the value.
- `CPop3Connection` is the session with a POP3 server (RFC 1939). It logs in with USER and PASS. It issues STAT, LIST, UIDL, DELE, RSET, NOOP, RETR, TOP and QUIT. It reads every response through `ReadResponse`, a loop that works as follows:
  - it receives into a `char` buffer, which grows whenever it is full;
  - it restarts an idle timeout whenever data arrives;
  - it stops when the terminator (`"\r\n"` or `"\r\n.\r\n"`) shows up in the NUL-terminated text;
  - it judges the reply by its `+OK` prefix.

  The parsers then read the STAT numbers, the LIST sizes, the UIDL ids or the message text out of that buffer.

The modules:

| module | file | contents |
|---|---|---|
| `Text` | text.dfy | character classes, `Find` (`strstr`, `CString::Find`), `Trim`, `atoi`, decimal printing, the `+OK` tests |
| `Fields` | fields.dfy | the n-th field match and the clean-up of a field body, as functions |
| `Message` | message.dfy | header, body and Reply-To as functions; the class `Pop3Message` with the imperative `GetHeaderItem` and its loops |
| `Transport` | transport.dfy | the 32-bit tick counter, the socket as a script of rounds, `send` |
| `Reader` | reader.dfy | `ReadResponse` as a function of that script: one round (`Step`), the loop (`ReadLoop`), and the properties of both |
| `Replies` | replies.dfy | what each parser reads out of a response buffer; round trips against well-formed responses; the UIDL scan as written and as corrected |
| `Session` | session.dfy | every operation of the connection as a function of its members; end-to-end lemmas |
| `Connection` | connection.dfy | the class `Pop3Connection`: fields, arrays, loops. Each method is proved to end in the state that the `Session` function gives |

The socket is a value of type `Transport.Net`. It holds the following:

- the rounds still to come: in each round `select` fails, bytes arrive, the peer closes, or `recv` fails, together with the `GetTickCount` reading of that round;
- the bytes that have arrived but have not been received;
- the outcome of each coming `send`;
- the commands sent so far.

## Model

| member | source | states |
|---|---|---|
| Message.Header | Pop3.cpp:191-208 | the header is the text before the first `"\r\n\r\n"`, and holds no earlier one; it is the whole text exactly when there is no blank line |
| Message.RawBody | Pop3.cpp:210-217 | no body (NULL) exactly when there is no blank line; otherwise the text is header, blank line, body |
| Message.Body | Pop3.cpp:219-226 | the body when there is a blank line; otherwise the empty string, and the header is the whole text |
| Message.ReplyTo | Pop3.cpp:228-242 | the result is the first non-empty value in the order Reply-To, From, Sender, Return-Path (the last one, possibly empty, when the first three are empty); empty exactly when all four are |
| Message.HeaderItemClean | Pop3.cpp:100-189 | every field value is a single line without tabs and without white space at either end |
| Message.HeaderItemMissing | Pop3.cpp:115-130 | asking for an occurrence beyond the number of matching fields gives the empty string |
| Message.Pop3Message.constructor | Pop3.cpp:86-89 | a new message has no text |
| Message.Pop3Message.GetHeaderItem | Pop3.cpp:100-189 | the field equals `HeaderItem` of the header: the cleaned body of the n-th line that starts with the name, in any case, followed by a colon |
| Message.SearchField | Pop3.cpp:115-130 | the loop that cuts the upper-cased header after each match and searches again ends at the n-th match, or -1 when there are fewer |
| Message.ScanFieldEnd | Pop3.cpp:134-164 | the scan stops at the end of the text or at the first line break not followed by a space or tab |
| Message.ExtractField | Pop3.cpp:165-185 | the extracted body, unfolded, de-tabbed and trimmed, is `FieldValue` |
| Message.DeleteLineBreaks | Pop3.cpp:167-173 | the loop that removes `"\r\n"` pairs gives `RemoveLineBreaks` |
| Message.ReplaceTabs | Pop3.cpp:175-181 | the loop that replaces tabs gives `TabsToSpaces` |
| Fields.NthFindFound | Pop3.cpp:115-130 | the n-th match exists exactly when n is below the number of matches |
| Fields.NthFindMatch | Pop3.cpp:115-130 | a match that was found is an occurrence of the pattern |
| Fields.RescanIsNthFind | Pop3.cpp:120-130 | searching again in the header cut after the previous match, including the case of no first match, gives the next match |
| Fields.FieldEndIsFirst | Pop3.cpp:139-164 | the field ends at the first position that is a field end |
| Fields.RemoveLineBreaksClean | Pop3.cpp:167-173 | no line break is left |
| Fields.TabsToSpacesChars | Pop3.cpp:175-181 | each tab becomes a space; every other character stays |
| Text.TrimSpec | Pop3.cpp:183-185 | the trimmed value is the infix of the field after its leading white space |
| Text.TrimDropsSpace | Pop3.cpp:183-185 | trimming drops only white space, on either side |
| Text.TrimEdges | Pop3.cpp:183-185 | the trimmed value neither starts nor ends with white space |
| Text.AtoiIntToString | Pop3.cpp:1057-1063 | `atoi` reads back a printed number that is followed by a non-digit |
| Transport.Elapsed | Pop3.cpp:745 | `GetTickCount() - dwStartTicks` in unsigned 32-bit arithmetic: the start plus the elapsed ticks wraps to now |
| Transport.Send | Pop3.cpp:306-312 | a command that was sent is logged; a failed send logs nothing; the rest of the socket is unchanged |
| Reader.StepTimesOut | Pop3.cpp:744-751 | a round ends with a timeout exactly when more than the timeout has passed since the last data, and then nothing else changes |
| Reader.StepFailures | Pop3.cpp:753-791 | a failed `select` or `recv` ends the loop with the data received so far |
| Reader.StepReadable | Pop3.cpp:753-780 | within the timeout, a round receives when the peer closed or bytes wait, and otherwise loops around |
| Reader.StepFits | Pop3.cpp:767-818 | the buffer always has room for the received bytes and their NUL |
| Reader.StepGrows | Pop3.cpp:798-817 | the buffer grows only when a receive filled it, and then by the growth step; received bytes stay in front |
| Reader.ReceiveGrows | Pop3.cpp:767-804 | a receive that fills the room grows the buffer by the growth step, one that leaves room keeps the size; either way the next round has room |
| Reader.StepClock | Pop3.cpp:773-777 | data restarts the idle clock; a round without data leaves it |
| Reader.StepKeepsBytes | Pop3.cpp:767-780 | no byte is lost or reordered in one round |
| Reader.ReadLoopFits | Pop3.cpp:742-822 | the buffer never overflows, however often it grows |
| Reader.ReadLoopKeepsBytes | Pop3.cpp:742-822 | the received text is a prefix of the byte stream: waiting bytes, then what the rounds delivered |
| Reader.ReadLoopFound | Pop3.cpp:820-821 | the loop reports the terminator exactly when the received text contains it |
| Reader.SteadyStreamNeverTimesOut | Pop3.cpp:744-777 | the timeout is an idle timeout: a stream that keeps delivering within it never times out |
| Reader.PromptLoopFinds | Pop3.cpp:742-821 | while bytes remain and the server keeps up, every round receives at least one byte and restarts the clock, so the loop finds a terminator the stream holds within one round per byte |
| Reader.PromptReadFinds | Pop3.cpp:733-821 | whatever the initial buffer size (at least 1), a read with one round per byte of the stream and one more finds the terminator when the server keeps up |
| Reader.LargeResponseCaptured | Pop3.cpp:798-821 | when the server keeps up, a response of any length, however small the initial buffer, is found and received whole, and its reply is the text before the terminator |
| Reader.WholeResponseRead | Pop3.cpp:742-822 | when the server sends exactly one response and keeps up, the loop finds the terminator with exactly that response received |
| Replies.FirstCharSkipsStatus | Pop3.cpp:713-723 | the first character of the response lies after the status line and its line feed |
| Replies.MessageTextIsTail | Pop3.cpp:873-890 | the copied message is the tail of the NUL-terminated response after the status line |
| Replies.MessageRoundTrip | Pop3.cpp:839-897 | RETR and TOP read back exactly the text between the status line and the final `"\r\n.\r\n"` |
| Replies.StatScanFinds | Pop3.cpp:1049-1067 | the STAT scan finds the mail count exactly when the reply has a blank, and succeeds exactly when it has two |
| Replies.StatRoundTrip | Pop3.cpp:1049-1067 | a reply `"+OK n m"` yields n and m |
| Replies.ListRoundTrip | Pop3.cpp:934-945 | LIST reads back the sizes of a response with one `k size` per line |
| Replies.UidlRoundTrip | Pop3.cpp:986-1012 | the corrected UIDL scan reads back the ids of a response with one `k id` per line, for any number of lines |
| Replies.UidlAsWrittenAgrees | Pop3.cpp:993-1012 | as written, the UIDL scan gives the same ids when the mailbox is not empty and no id has a dot |
| Replies.UidlEmptyMailbox | Pop3.cpp:993-1012 | an empty mailbox: as written, the scan adds the stale id buffer; the corrected scan adds nothing |
| Replies.UidlDotInId | Pop3.cpp:996-1004 | an id containing a dot: as written, the scan loses it; the corrected scan reads it back |
| Replies.DottedIdRead | Pop3.cpp:993-1012 | the corrected scan reads back the id "a.b" |
| Session.Initial | Pop3.cpp:354-367 | a new connection is disconnected, has no flags set, has no sizes and has the release timeout |
| Session.CommandNumbers | Pop3.cpp:489 | the server reads back the message number that DELE prints, and likewise those of RETR and TOP (lines 661 and 687) |
| Session.LoggedOutcomes | Pop3.cpp:744-791 | a failed read logs every byte it received; a positive reply leaves the log as it was |
| Session.ErrorLogAsWritten | Pop3.cpp:782-791 | as written, a receive error after "+OK" logs only "+O", and after no data it writes before the buffer |
| Session.DisconnectResets | Pop3.cpp:447-476 | Disconnect always closes the socket and clears the connection; a connected session also loses its flags and sends at most QUIT; it returns the verdict on the QUIT response, which is read even when QUIT could not be sent, and fails when not connected |
| Session.ConnectOutcome | Pop3.cpp:375-445 | a successful Connect sent exactly USER and PASS and is connected; one that fails after reaching the host is disconnected and closed; without a socket nothing changes |
| Session.LoginOutcome | Pop3.cpp:407-441 | USER then PASS: on success both were sent; on failure the session is disconnected and closed |
| Session.LoginStepOutcome | Pop3.cpp:407-423 | one login command: sent on success; disconnected and closed on failure |
| Session.ReadCommandKeeps | Pop3.cpp:702-711 | reading a response sends nothing and leaves the flags and the socket handle alone |
| Session.StatisticsOutcome | Pop3.cpp:500-516 | STAT sends at most STAT; on success it was sent, the reply gave both numbers and the count is kept; no flag and no list changes |
| Session.StatisticsEndToEnd | Pop3.cpp:500-516 | when STAT can be sent and the server answers `"+OK n m"` and keeps up, Statistics succeeds with n and m |
| Session.MailCountSends | Pop3.cpp:556-566 | nothing is sent once STAT has succeeded; otherwise STAT is sent and recorded as done when it succeeds |
| Session.ListSendsStatOnce | Pop3.cpp:552-580 | LIST sends STAT first only when STAT has not yet succeeded; on success it sent exactly those commands and both flags are set |
| Session.UidlSendsStatOnce | Pop3.cpp:582-610 | UIDL sends STAT first only when STAT has not yet succeeded; on success it sent exactly those commands and both flags are set |
| Session.LazySizes | Pop3.cpp:518-533 | before LIST has succeeded, GetMessageSize runs LIST once and agrees with LIST followed by a look-up; a second call returns the same size with no I/O |
| Session.LazyIds | Pop3.cpp:535-550 | before UIDL has succeeded, GetMessageID runs UIDL once and agrees with UIDL followed by a look-up; a second call returns the same id with no I/O |
| Session.DeleteOutcome | Pop3.cpp:478-498 | DELE n is sent last, after LIST (and STAT before it when needed) when the sizes are not yet known, whatever LIST's outcome; success means DELE was sent |
| Session.FetchOutcome | Pop3.cpp:650-700 | for a listed message, exactly RETR n or TOP n 0 is sent and the text is what ReadReturnResponse reads with the listed size; an out-of-range number sends nothing and fails |
| Session.SizesAreKept | Pop3.cpp:518-533 | after a successful LIST, a message size comes from the stored list, with nothing sent or read |
| Session.IdsAreKept | Pop3.cpp:535-550 | after a successful UIDL, an id comes from the stored list, with nothing sent or read |
| Session.MultiLineVerdict | Pop3.cpp:824-836 | the status line alone decides the verdict on a multi-line response |
| Session.StatEndToEnd | Pop3.cpp:1021-1073 | when the server sends `"+OK n m"` and keeps up, the read completes and succeeds, yields both numbers and keeps the mail count |
| Session.ListEndToEnd | Pop3.cpp:899-951 | when the server sends a positive LIST response and keeps up, the read completes and succeeds and stores exactly its sizes |
| Session.UidlEndToEnd | Pop3.cpp:953-1019 | when the server sends a positive UIDL response and keeps up, the read completes and succeeds and stores exactly its ids |
| Session.ReturnEndToEnd | Pop3.cpp:839-897 | when the server sends a positive RETR or TOP response and keeps up, the read completes and succeeds and yields exactly the message between the status line and the terminator |
| Connection.Deposit | Pop3.cpp:767-796 | the received bytes land after those already held, followed by a NUL |
| Connection.Grow | Pop3.cpp:798-817 | the new buffer has the new size and holds the received bytes and their NUL |
| Connection.Store | Pop3.cpp:767-817 | what fits is stored with its NUL; the buffer grows by the growth step exactly when no room is left |
| Connection.ReceiveRound | Pop3.cpp:767-821 | a readable round ends in the state that `Reader.Receive` gives, and reports the terminator exactly when it gives `Done` |
| Connection.Round | Pop3.cpp:742-821 | one round of the loop ends in the state and the stop that `Reader.Step` gives |
| Connection.ReadableRound | Pop3.cpp:753-821 | a round within the timeout, readable or idle, ends as `Reader.Step` gives |
| Connection.ReceiveLoop | Pop3.cpp:733-822 | the loop ends with the bytes, the stop reason and the remaining socket that `Reader.Read` gives |
| Connection.GetFirstCharInResponse | Pop3.cpp:713-723 | the index after the first line feed, or of the NUL before it |
| Connection.ScanStat | Pop3.cpp:1049-1067 | the STAT loop gives `Replies.Stat` of the reply, and succeeds exactly when it found the total |
| Connection.ScanSizes | Pop3.cpp:940-944 | the LIST loop gives `Replies.ListSizes` of the buffer |
| Connection.LineEnd | Pop3.cpp:998-1002 | the corrected inner UIDL loop stops at the next line feed |
| Connection.ScanLine | Pop3.cpp:996-1012 | one UIDL line adds its second word, if it has one, and the scan moves past its line feed |
| Connection.ScanIds | Pop3.cpp:994-1012 | the UIDL loops, corrected, give `Replies.UidlList` of the buffer |
| Connection.MessageOf | Pop3.cpp:875-890 | the copied text is `Replies.MessageText` of the buffer |
| Connection.Pop3Connection.constructor | Pop3.cpp:354-367 | the members are those of `Session.Initial` |
| Connection.Pop3Connection.ReadResponse | Pop3.cpp:725-837 | the verdict, the logged response and the remaining socket are those of `Session.AfterRead`; on success the buffer holds the response with its terminator cut off by a NUL |
| Connection.Pop3Connection.Finish | Pop3.cpp:824-836 | after the terminator, a NUL cuts it off and the verdict is the `+OK` test; a reply that is not positive is logged, and so is the data of a failed read |
| Connection.Pop3Connection.ReadCommandResponse | Pop3.cpp:702-711 | ends as `Session.ReadCommand` gives |
| Connection.Pop3Connection.ReadStatResponse | Pop3.cpp:1021-1073 | ends as `Session.ReadStat` gives: an exact "+OK", then the count and the size |
| Connection.Pop3Connection.ReadListResponse | Pop3.cpp:899-951 | ends as `Session.ReadList` gives: on success the sizes are those of the response |
| Connection.Pop3Connection.ReadUIDLResponse | Pop3.cpp:953-1019 | ends as `Session.ReadUidl` gives: on success the ids are those of the response |
| Connection.Pop3Connection.ReadMessage | Pop3.cpp:839-891 | ends as `Session.ReadReturn` gives: on success, the message text |
| Connection.Pop3Connection.ReadReturnResponse | Pop3.cpp:839-897 | ends as `Session.ReadReturn` gives; the message takes the new text only on success |
| Connection.Pop3Connection.Send | Pop3.cpp:306-312 | ends as `Session.SendCommand` gives |
| Connection.Pop3Connection.Disconnect | Pop3.cpp:447-476 | ends as `Session.Disconnect` gives |
| Connection.Pop3Connection.Login | Pop3.cpp:407-441 | ends as `Session.LoginStep` gives |
| Connection.Pop3Connection.Connect | Pop3.cpp:375-445 | ends as `Session.Connect` gives |
| Connection.Pop3Connection.Statistics | Pop3.cpp:500-516 | ends as `Session.Statistics` gives |
| Connection.Pop3Connection.MailCount | Pop3.cpp:556-566 | ends as `Session.MailCount` gives: STAT only when not yet done |
| Connection.Pop3Connection.List | Pop3.cpp:552-580 | ends as `Session.List` gives |
| Connection.Pop3Connection.Uidl | Pop3.cpp:582-610 | ends as `Session.Uidl` gives |
| Connection.Pop3Connection.Command | Pop3.cpp:612-629 | ends as `Session.Command` gives |
| Connection.Pop3Connection.Delete | Pop3.cpp:478-498 | ends as `Session.Delete` gives: LIST first when not yet done, its outcome ignored |
| Connection.Pop3Connection.Reset | Pop3.cpp:612-629 | ends as `Session.Command` gives with RSET |
| Connection.Pop3Connection.Noop | Pop3.cpp:631-648 | ends as `Session.Command` gives with NOOP |
| Connection.Pop3Connection.GetMessageSize | Pop3.cpp:518-533 | ends as `Session.GetMessageSize` gives |
| Connection.Pop3Connection.GetMessageID | Pop3.cpp:535-550 | ends as `Session.GetMessageID` gives |
| Connection.Pop3Connection.Retrieve | Pop3.cpp:650-674 | ends as `Session.Fetch` gives with RETR |
| Connection.Pop3Connection.GetMessageHeader | Pop3.cpp:676-700 | ends as `Session.Fetch` gives with TOP |

## Left out

- Winsock is not modelled: socket creation, DNS lookup, `connect`, `select`, `recv`, `send` and `closesocket`. `Connect` takes the outcomes of creating the socket and reaching the host as parameters. The rest of the socket's behaviour is the script described above.
- `Sleep(250)` is not modelled. Each round carries its own `GetTickCount` reading instead.
- The script can run out of rounds. This gives the stop `OutOfEvents`, which the program cannot reach: a failed read that logs nothing.
- Connection.Grow: copies the received bytes with their NUL. The source uses `strcpy`, which would also drop any bytes after an embedded NUL.
- `sprintf` and `sscanf` into fixed buffers are not modelled, so neither are their overflows. Commands are built as unbounded strings, and ids are read as whole words.
- `T2A`, `TRACE`, `SetLastError` and `VERIFY` are not modelled. Neither are the `ASSERT` checks, such as `m_bConnected` and the range check in `GetMessageSize` and `GetMessageID`.
- Session.GetMessageSize: an out-of-range message number gives `None`. In the source, `GetAt` has undefined behaviour.
- Session.GetMessageID: an out-of-range message number gives `None`, for the same reason.
- Session.ReadList: a buffer size below 1 (a negative mail count) fails without reading. In the source, `new char[]` with such a size has undefined behaviour.
- Session.ReadUidl: a buffer size below 1 fails without reading, for the same reason.
- Session.ReadReturn: `dwSize + 100` is not wrapped to 32 bits.
- Connection.ScanSizes: the loop also stops at the end of the buffer. The source reads on until a dot, and a successful read always leaves one in the buffer.
- Connection.ScanIds: the same extra stop at the end of the buffer.
- The `"+OK"` re-check that ReadListResponse, ReadUIDLResponse and ReadReturnResponse repeat after `ReadResponse` is not modelled. It uses `strnicmp` on the same buffer, so it always agrees with `ReadResponse`'s own verdict. The case-sensitive `strncmp` re-check of ReadStatResponse is modelled (`IsExactPositiveReply`): a reply `"+ok 1 2"` passes `ReadResponse` and then fails there.
- Text.Atoi: the result is an unbounded integer. C's `atoi` returns a 32-bit `int`, whose value on overflow the model does not give. The sizes, counts and message numbers read with it or passed to `%d` are unbounded `int`s for the same reason.
- The debug timeout of 60000 ms is not modelled; only the release timeout of 2000 ms is.
- The message destructor and the freeing of buffers are not modelled.
- `GetFrom` is taken as the value of the From field. Pop3.h, where it and the default growth step of 4096 are declared, is not part of this model.
- The dot-stuffing of RFC 1939 (section 3) is not undone: neither does the source.
- Session.ListEndToEnd and the other end-to-end lemmas assume that the server sends the one response and nothing after it, that it keeps up (`Reader.Prompt`: every round is a delivery within the timeout of the round before, and rounds deliver nothing only once all was delivered), and that the script has a round per byte of the response and one more. Reads that stall, that see the peer close, or whose script is shorter are not covered by them.
- The UIDL id buffer that `sscanf` leaves unwritten starts as a parameter `sid` of the scan as written. In the source its first contents are indeterminate.

## Findings

| source | as written | input that shows it | evidently intended | confidence | as-written member | corrected member |
|---|---|---|---|---|---|---|
| Pop3.cpp:993-1012 | `ReadResponse` strips the terminator with a NUL. For an empty mailbox, the NUL replaces the status line's `"\r"`. The scan then treats the remaining `"\n"` as a line with no id and adds whatever the id buffer holds | a UIDL response `"+OK\r\n.\r\n"` | no id for an empty mailbox | not executed | Replies.UidlEmptyMailbox | Replies.UidlRoundTrip |
| Pop3.cpp:996-1004 | the inner loop also ends a line at a `.`. An id containing a dot, which RFC 1939 allows, is cut there, and the rest of its line adds a stale id | a UIDL response `"+OK\r\n1 a.b\r\n.\r\n"` | the id `a.b` | not executed | Replies.UidlDotInId | Replies.DottedIdRead |
| Pop3.cpp:779-791 | after a receive error, `nReceived += nData` adds the `SOCKET_ERROR` (-1). The NUL then goes one byte early, and into the caller's buffer even when the data sits in an overflow buffer. So the logged response drops its last byte, and with no data the write lands before the buffer | `recv` fails after "+OK" arrived | the whole "+OK" logged | not executed | Session.ErrorLogAsWritten | Session.LoggedOutcomes |
