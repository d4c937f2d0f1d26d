/**
 * The POP3 session of `CPop3Connection` as functions of its state: what
 * every command sends, which response it reads with which buffer, what it
 * keeps from the response, and which flags it sets. The class in module
 * Connection carries out the same operations step by step and is proved
 * to end in the state these functions give.
 */
module Session {
  import opened Text
  import opened Transport
  import opened Reader
  import opened Replies

  /** The buffer size of a one-line command response. */
  const CommandBufferSize: int := 1000
  /** The buffer size of a STAT response. */
  const StatBufferSize: int := 100
  /** The growth step of `ReadResponse` when the caller gives none; the
      declaration holding this default is not part of this model. */
  const DefaultGrowBy: int := 4096
  /** The growth step for RETR and TOP responses. */
  const RetrieveGrowBy: int := 32000
  /** The timeout, in milliseconds, of a release build. */
  const ReleaseTimeout: Tick := 2000

  /** The connection's members: the flags, the mail count from STAT, the
      LIST sizes, the UIDL ids, the timeout, the last response kept for
      error reporting, and the socket. */
  datatype Session = Session(
    connected: bool,
    statRetrieved: bool,
    listRetrieved: bool,
    uidlRetrieved: bool,
    numberOfMails: int,
    msgSizes: seq<int>,
    msgIDs: seq<string>,
    timeout: Tick,
    lastResponse: string,
    net: Net)

  /** A new connection object. */
  function Initial(net: Net): (s: Session)
    ensures !s.connected && !s.statRetrieved && !s.listRetrieved && !s.uidlRetrieved
    ensures s.msgSizes == [] && s.numberOfMails == 0 && s.timeout == ReleaseTimeout
  {
    Session(false, false, false, false, 0, [], [], ReleaseTimeout, "", net)
  }

  // ---------------------------------------------------------------------
  // Commands

  function UserCommand(user: string): string { "USER " + user + CRLF }
  function PassCommand(password: string): string { "PASS " + password + CRLF }
  const QuitCommand: string := "QUIT\r\n"
  const StatCommand: string := "STAT\r\n"
  const ListCommand: string := "LIST\r\n"
  const UidlCommand: string := "UIDL\r\n"
  const RsetCommand: string := "RSET\r\n"
  const NoopCommand: string := "NOOP\r\n"
  function DeleCommand(n: int): string { "DELE " + IntToString(n) + CRLF }
  function RetrCommand(n: int): string { "RETR " + IntToString(n) + CRLF }
  function TopCommand(n: int): string { "TOP " + IntToString(n) + " 0" + CRLF }

  /** The server reads back the message number of DELE, RETR and TOP. */
  lemma CommandNumbers(n: int)
    ensures Atoi(DeleCommand(n)[5..]) == n && Atoi(RetrCommand(n)[5..]) == n
    ensures Atoi(TopCommand(n)[4..]) == n
  {
    NumberAfter("DELE ", n, CRLF);
    NumberAfter("RETR ", n, CRLF);
    assert TopCommand(n) == "TOP " + IntToString(n) + (" 0" + CRLF);
    NumberAfter("TOP ", n, " 0" + CRLF);
  }

  /** The number of a command line `verb n rest`, read back after the verb. */
  lemma NumberAfter(verb: string, n: int, rest: string)
    requires rest == [] || !IsDigit(rest[0])
    ensures Atoi((verb + IntToString(n) + rest)[|verb|..]) == n
  {
    assert (verb + IntToString(n) + rest)[|verb|..] == IntToString(n) + rest;
    AtoiIntToString(n, rest);
  }

  /** `m_Pop.Send`. */
  function SendCommand(s: Session, command: string): (bool, Session)
  {
    var r := Send(s.net, command);
    (r.0, s.(net := r.1))
  }

  // ---------------------------------------------------------------------
  // Reading a response

  /** What `ReadResponse` sees of the socket when called with a buffer of
      `size` bytes. */
  function Response(s: Session, size: int, term: string, growBy: int): Outcome
  {
    Read(size, s.net.waiting, s.net.events, s.timeout, term, growBy)
  }

  /** `m_sLastCommandResponse` after a read that stopped with `got`
      received: the received
      text when the read failed, the reply when it is not positive, and
      the old value otherwise. */
  function Logged(stop: Stop, got: string, term: string, previous: string): string
  {
    if stop == OutOfEvents then previous
    else if stop != Found then CStr(got)
    else if 0 < |term| <= |got| && !IsPositiveReply(Reply(got, term)) then Reply(got, term)
    else previous
  }

  /** The session after a read ending in `o`: the rounds and bytes it
      consumed are gone, and the last response is logged. */
  function AfterRead(s: Session, o: Outcome, term: string): Session
  {
    s.(net := s.net.(events := o.rest, waiting := o.st.waiting),
       lastResponse := Logged(o.stop, o.st.got, term, s.lastResponse))
  }

  /** A read that failed logs every byte it received when none of them is
      a NUL; a read that found the terminator and a positive reply leaves
      the log as it was. */
  lemma LoggedOutcomes(stop: Stop, got: string, term: string, previous: string)
    ensures stop != Found && stop != OutOfEvents && NoNul(got) ==> Logged(stop, got, term, previous) == got
    ensures stop == Found && 0 < |term| <= |got| && IsPositiveReply(Reply(got, term)) ==>
      Logged(stop, got, term, previous) == previous
  {
    if stop != Found && stop != OutOfEvents && NoNul(got) {
      CStrNoNul(got);
    }
  }

  /** The index the receive-error branch of `ReadResponse` writes its NUL
      at, as written: the count after adding the `SOCKET_ERROR` that `recv`
      returned. */
  function ErrorNulIndex(received: nat): int
  {
    received + SocketError
  }

  /** The logged response after a receive error, as written: the NUL goes
      into the caller's buffer of `initialSize` bytes at `ErrorNulIndex`,
      and that buffer is the logged one only while it has not grown; `None`
      when the index lies outside the caller's buffer. */
  function LoggedOnErrorAsWritten(got: string, initialSize: nat, grew: bool): Option<string>
  {
    var k := ErrorNulIndex(|got|);
    if k < 0 || k >= initialSize then None
    else if grew then Some(CStr(got))
    else Some(CStr(got[..k]))
  }

  /** As written, a receive error after "+OK" logs "+O", where `Logged`
      keeps all three bytes; after nothing at all the NUL is written before
      the buffer. */
  lemma ErrorLogAsWritten()
    ensures LoggedOnErrorAsWritten("+OK", CommandBufferSize, false) == Some("+O")
    ensures Logged(ReceiveFailed, "+OK", CRLF, "") == "+OK"
    ensures ErrorNulIndex(0) == -1 && LoggedOnErrorAsWritten("", CommandBufferSize, false).None?
  {
    assert "+OK"[..2] == "+O";
    assert CStr("+O") == "+O";
    assert CStr("+OK") == "+OK";
  }

  /** `ReadCommandResponse`. */
  function ReadCommand(s: Session): (bool, Session)
  {
    var o := Response(s, CommandBufferSize, CRLF, DefaultGrowBy);
    (Succeeded(o, CRLF), AfterRead(s, o, CRLF))
  }

  /** `ReadStatResponse`: the fields it writes (`None` for one it leaves
      alone) and the mail count it keeps. */
  function ReadStat(s: Session): (bool, StatFields, Session)
  {
    var o := Response(s, StatBufferSize, CRLF, DefaultGrowBy);
    var s1 := AfterRead(s, o, CRLF);
    if !Succeeded(o, CRLF) || !IsExactPositiveReply(Reply(o.st.got, CRLF)) then
      (false, StatFields(None, None), s1)
    else
      var f := Stat(Reply(o.st.got, CRLF));
      (f.total.Some?, f, if f.mails.Some? then s1.(numberOfMails := f.mails.value) else s1)
  }

  /** The buffer size LIST and UIDL start with. */
  function ListBufferSize(mails: int): int
  {
    14 * mails + 100
  }

  /** `ReadListResponse`. */
  function ReadList(s: Session, mails: int): (bool, Session)
  {
    var size := ListBufferSize(mails);
    if size < 1 then (false, s)
    else
      var o := Response(s, size, MultiLineEnd, DefaultGrowBy);
      var s1 := AfterRead(s, o, MultiLineEnd);
      if !Succeeded(o, MultiLineEnd) then (false, s1)
      else (true, s1.(msgSizes := ListSizes(Raw(o.st.got, MultiLineEnd))))
  }

  /** `ReadUIDLResponse`, with the corrected line scan. */
  function ReadUidl(s: Session, mails: int): (bool, Session)
  {
    var size := ListBufferSize(mails);
    if size < 1 then (false, s)
    else
      var o := Response(s, size, MultiLineEnd, DefaultGrowBy);
      var s1 := AfterRead(s, o, MultiLineEnd);
      if !Succeeded(o, MultiLineEnd) then (false, s1)
      else (true, s1.(msgIDs := UidlList(Raw(o.st.got, MultiLineEnd))))
  }

  /** `ReadReturnResponse`: the new message text, when there is one. */
  function ReadReturn(s: Session, size: int): (bool, Option<string>, Session)
  {
    var bufSize := size + 100;
    if bufSize < 1 then (false, None, s)
    else
      var o := Response(s, bufSize, MultiLineEnd, RetrieveGrowBy);
      var s1 := AfterRead(s, o, MultiLineEnd);
      if !Succeeded(o, MultiLineEnd) then (false, None, s1)
      else (true, Some(MessageText(Raw(o.st.got, MultiLineEnd))), s1)
  }

  // ---------------------------------------------------------------------
  // The operations

  /** `Disconnect`: QUIT and its response when connected, then the flags
      are cleared; the socket is closed in any case. */
  function Disconnect(s: Session): (bool, Session)
  {
    var r :=
      if s.connected then
        var s1 := SendCommand(s, QuitCommand).1;
        var (ok, s2) := ReadCommand(s1);
        (ok, s2.(connected := false, listRetrieved := false, statRetrieved := false, uidlRetrieved := false))
      else (false, s);
    (r.0, r.1.(net := r.1.net.(open := false)))
  }

  /** Send a command and read its one-line response. */
  function Command(s: Session, command: string): (bool, Session)
  {
    var (sent, s1) := SendCommand(s, command);
    if !sent then (false, s1) else ReadCommand(s1)
  }

  /** Send a command of the login and read its response; on failure the
      connection is dropped. */
  function LoginStep(s: Session, command: string): (bool, Session)
  {
    var (ok, s1) := Command(s, command);
    if ok then (true, s1) else (false, Disconnect(s1).1)
  }

  /** `Connect`: `created` and `reached` are the outcomes of creating the
      socket and connecting it to the host; then the greeting, USER and
      PASS, each of which must be positive. */
  function Connect(s: Session, user: string, password: string, created: bool, reached: bool): (bool, Session)
  {
    if !created then (false, s)
    else
      var s1 := s.(net := s.net.(open := true));
      if !reached then (false, s1)
      else
        var (greeted, s2) := ReadCommand(s1.(connected := true));
        if !greeted then (false, Disconnect(s2).1)
        else Login(s2, user, password)
  }

  /** The USER and PASS steps of `Connect`. */
  function Login(s: Session, user: string, password: string): (bool, Session)
  {
    var (userOk, s1) := LoginStep(s, UserCommand(user));
    if !userOk then (false, s1) else LoginStep(s1, PassCommand(password))
  }

  /** `Statistics`: STAT and its response. */
  function Statistics(s: Session): (bool, StatFields, Session)
  {
    var (sent, s1) := SendCommand(s, StatCommand);
    if !sent then (false, StatFields(None, None), s1) else ReadStat(s1)
  }

  /** The mail count LIST and UIDL size their buffer by: STAT is issued
      first unless it already succeeded. */
  function MailCount(s: Session): (bool, int, Session)
  {
    if s.statRetrieved then (true, s.numberOfMails, s)
    else
      var (ok, f, s1) := Statistics(s);
      var mails := if f.mails.Some? then f.mails.value else s.numberOfMails;
      (ok, mails, if ok then s1.(statRetrieved := true) else s1)
  }

  /** `List`: the mail count, then LIST and its sizes. */
  function List(s: Session): (bool, Session)
  {
    var (counted, mails, s1) := MailCount(s);
    if !counted then (false, s1)
    else
      var (sent, s2) := SendCommand(s1, ListCommand);
      if !sent then (false, s2)
      else
        var (ok, s3) := ReadList(s2, mails);
        (ok, s3.(listRetrieved := ok))
  }

  /** `UIDL`: the mail count, then UIDL and its ids. */
  function Uidl(s: Session): (bool, Session)
  {
    var (counted, mails, s1) := MailCount(s);
    if !counted then (false, s1)
    else
      var (sent, s2) := SendCommand(s1, UidlCommand);
      if !sent then (false, s2)
      else
        var (ok, s3) := ReadUidl(s2, mails);
        (ok, s3.(uidlRetrieved := ok))
  }

  /** `Delete`: LIST first unless done (its outcome is ignored), then
      DELE. */
  function Delete(s: Session, n: int): (bool, Session)
  {
    var s1 := if s.listRetrieved then s else List(s).1;
    Command(s1, DeleCommand(n))
  }

  /** `GetMessageSize`: LIST first unless done; the size of message `n`
      (counted from 1), `None` when `n` is out of range. */
  function GetMessageSize(s: Session, n: int): (bool, Option<int>, Session)
  {
    var (ok, s1) := if s.listRetrieved then (true, s) else List(s);
    (ok, if 0 < n <= |s1.msgSizes| then Some(s1.msgSizes[n - 1]) else None, s1)
  }

  /** `GetMessageID`: UIDL first unless done; the id of message `n`. */
  function GetMessageID(s: Session, n: int): (bool, Option<string>, Session)
  {
    var (ok, s1) := if s.uidlRetrieved then (true, s) else Uidl(s);
    (ok, if 0 < n <= |s1.msgIDs| then Some(s1.msgIDs[n - 1]) else None, s1)
  }

  /** `Retrieve` (`top` false) and `GetMessageHeader` (`top` true): the
      size from LIST, then RETR or TOP and the message text. */
  function Fetch(s: Session, n: int, top: bool): (bool, Option<string>, Session)
  {
    var (ok, size, s1) := GetMessageSize(s, n);
    if !ok || size.None? then (false, None, s1)
    else
      var (sent, s2) := SendCommand(s1, if top then TopCommand(n) else RetrCommand(n));
      if !sent then (false, None, s2) else ReadReturn(s2, size.value)
  }

  // ---------------------------------------------------------------------
  // Properties of the session

  /** `Disconnect` always leaves the socket closed and the session
      disconnected; a connected session also loses its flags; it returns
      the verdict on the QUIT response, read whether or not QUIT could be
      sent, and fails when it was not connected. */
  lemma DisconnectResets(s: Session)
    ensures var (ok, s') := Disconnect(s);
      var quit := SendCommand(s, QuitCommand).1;
      !s'.connected && !s'.net.open &&
      (ok <==> s.connected && Succeeded(Response(quit, CommandBufferSize, CRLF, DefaultGrowBy), CRLF)) &&
      (s.connected ==> ok == ReadCommand(quit).0) &&
      (s.connected ==> !s'.statRetrieved && !s'.listRetrieved && !s'.uidlRetrieved &&
                       s'.net.sent <= s.net.sent + [QuitCommand]) &&
      (!s.connected ==> s' == s.(net := s.net.(open := false)))
  {
  }

  /** A successful login sent exactly USER and PASS and leaves the session
      connected; a login that fails after the socket connected leaves it
      disconnected and closed; without a socket nothing changes. */
  lemma ConnectOutcome(s: Session, user: string, password: string, created: bool, reached: bool)
    ensures var (ok, s') := Connect(s, user, password, created, reached);
      (ok ==> s'.connected && s'.net.open &&
              s'.net.sent == s.net.sent + [UserCommand(user), PassCommand(password)]) &&
      (!ok && created && reached ==> !s'.connected && !s'.net.open) &&
      (!created ==> !ok && s' == s)
  {
    if created && reached {
      var s1 := s.(net := s.net.(open := true), connected := true);
      var (greeted, s2) := ReadCommand(s1);
      ReadCommandKeeps(s1);
      if !greeted {
        DisconnectResets(s2);
      } else {
        LoginOutcome(s2, user, password);
      }
    }
  }

  /** USER then PASS: on success both were sent and the socket stays as it
      was; on failure the session is disconnected and closed. */
  lemma LoginOutcome(s: Session, user: string, password: string)
    ensures var (ok, s') := Login(s, user, password);
      (ok ==> s'.connected == s.connected && s'.net.open == s.net.open &&
              s'.net.sent == s.net.sent + [UserCommand(user), PassCommand(password)]) &&
      (!ok ==> !s'.connected && !s'.net.open)
  {
    LoginStepOutcome(s, UserCommand(user));
    var (userOk, s1) := LoginStep(s, UserCommand(user));
    if userOk {
      LoginStepOutcome(s1, PassCommand(password));
      assert s1.net.sent + [PassCommand(password)] == s.net.sent + [UserCommand(user), PassCommand(password)];
    }
  }

  /** Reading a response sends nothing and leaves the connection flags
      and the socket handle alone. */
  lemma ReadCommandKeeps(s: Session)
    ensures var s' := ReadCommand(s).1;
      s'.net.sent == s.net.sent && s'.connected == s.connected && s'.net.open == s.net.open
  {
  }

  /** One login command: on success it was sent and the socket stays as it
      was; on failure the session is disconnected and closed. */
  lemma LoginStepOutcome(s: Session, command: string)
    ensures var (ok, s') := LoginStep(s, command);
      (ok ==> s'.connected == s.connected && s'.net.open == s.net.open &&
              s'.net.sent == s.net.sent + [command]) &&
      (!ok ==> !s'.connected && !s'.net.open)
  {
    var (ok, s1) := Command(s, command);
    if !ok {
      DisconnectResets(s1);
    }
  }

  /** `Statistics` sends STAT and nothing else; when it succeeds the reply
      gave both numbers and the mail count is kept; it changes no flag. */
  lemma StatisticsOutcome(s: Session)
    ensures var (ok, f, s') := Statistics(s);
      s'.net.sent <= s.net.sent + [StatCommand] &&
      (ok ==> s'.net.sent == s.net.sent + [StatCommand] && f.mails.Some? && f.total.Some? &&
              s'.numberOfMails == f.mails.value) &&
      s'.connected == s.connected && s'.statRetrieved == s.statRetrieved &&
      s'.listRetrieved == s.listRetrieved && s'.uidlRetrieved == s.uidlRetrieved &&
      s'.msgSizes == s.msgSizes && s'.msgIDs == s.msgIDs
  {
    var (sent, s1) := SendCommand(s, StatCommand);
    if sent {
      var o := Response(s1, StatBufferSize, CRLF, DefaultGrowBy);
      if Succeeded(o, CRLF) && IsExactPositiveReply(Reply(o.st.got, CRLF)) {
        StatScanFinds(Reply(o.st.got, CRLF), 0, None);
      }
    }
  }

  /** `Statistics`, end to end: when STAT can be sent and the server answers
      "+OK n m", both numbers come back and n becomes the mail count. */
  lemma StatisticsEndToEnd(s: Session, n: int, m: int)
    requires s.net.sendResults != [] && s.net.sendResults[0]
    requires Delivers(s, "+OK " + IntToString(n) + " " + IntToString(m) + CRLF, CRLF)
    ensures var (ok, f, s') := Statistics(s);
      ok && f == StatFields(Some(n), Some(m)) && s'.numberOfMails == n &&
      s'.net.sent == s.net.sent + [StatCommand]
  {
    var s1 := SendCommand(s, StatCommand).1;
    assert Delivers(s1, "+OK " + IntToString(n) + " " + IntToString(m) + CRLF, CRLF);
    StatEndToEnd(s1, n, m);
  }

  /** LIST issues STAT first exactly when STAT has not yet succeeded: with
      the count known it sends at most LIST; otherwise at most STAT then
      LIST, and both when it succeeds. */
  lemma ListSendsStatOnce(s: Session)
    ensures var (ok, s') := List(s);
      (s.statRetrieved ==> s'.net.sent <= s.net.sent + [ListCommand] &&
                           (ok ==> s'.net.sent == s.net.sent + [ListCommand])) &&
      (!s.statRetrieved ==> s'.net.sent <= s.net.sent + [StatCommand, ListCommand] &&
                            (ok ==> s'.net.sent == s.net.sent + [StatCommand, ListCommand])) &&
      (ok ==> s'.statRetrieved && s'.listRetrieved)
  {
    MailCountSends(s);
    var (counted, mails, s1) := MailCount(s);
    if counted {
      var (sent, s2) := SendCommand(s1, ListCommand);
      if sent {
        assert s2.net.sent == s1.net.sent + [ListCommand];
        assert s.net.sent + [StatCommand] + [ListCommand] == s.net.sent + [StatCommand, ListCommand];
      } else if s.statRetrieved {
        PrefixAppend(s1.net.sent, s.net.sent, ListCommand);
      } else {
        PrefixAppend(s1.net.sent, s.net.sent + [StatCommand], ListCommand);
        assert s.net.sent + [StatCommand] + [ListCommand] == s.net.sent + [StatCommand, ListCommand];
      }
    } else {
      PrefixAppend(s1.net.sent, s.net.sent + [StatCommand], ListCommand);
      assert s.net.sent + [StatCommand] + [ListCommand] == s.net.sent + [StatCommand, ListCommand];
    }
  }

  /** UIDL issues STAT first exactly when STAT has not yet succeeded. */
  lemma UidlSendsStatOnce(s: Session)
    ensures var (ok, s') := Uidl(s);
      (s.statRetrieved ==> s'.net.sent <= s.net.sent + [UidlCommand] &&
                           (ok ==> s'.net.sent == s.net.sent + [UidlCommand])) &&
      (!s.statRetrieved ==> s'.net.sent <= s.net.sent + [StatCommand, UidlCommand] &&
                            (ok ==> s'.net.sent == s.net.sent + [StatCommand, UidlCommand])) &&
      (ok ==> s'.statRetrieved && s'.uidlRetrieved)
  {
    MailCountSends(s);
    var (counted, mails, s1) := MailCount(s);
    if counted {
      var (sent, s2) := SendCommand(s1, UidlCommand);
      if sent {
        assert s2.net.sent == s1.net.sent + [UidlCommand];
        assert s.net.sent + [StatCommand] + [UidlCommand] == s.net.sent + [StatCommand, UidlCommand];
      } else if s.statRetrieved {
        PrefixAppend(s1.net.sent, s.net.sent, UidlCommand);
      } else {
        PrefixAppend(s1.net.sent, s.net.sent + [StatCommand], UidlCommand);
        assert s.net.sent + [StatCommand] + [UidlCommand] == s.net.sent + [StatCommand, UidlCommand];
      }
    } else {
      PrefixAppend(s1.net.sent, s.net.sent + [StatCommand], UidlCommand);
      assert s.net.sent + [StatCommand] + [UidlCommand] == s.net.sent + [StatCommand, UidlCommand];
    }
  }

  /** The mail count sends nothing once STAT has succeeded, and otherwise
      STAT, which it records when it succeeds. */
  lemma MailCountSends(s: Session)
    ensures var (ok, mails, s') := MailCount(s);
      (s.statRetrieved ==> ok && s' == s && mails == s.numberOfMails) &&
      (!s.statRetrieved ==> s'.net.sent <= s.net.sent + [StatCommand] &&
                            (ok ==> s'.net.sent == s.net.sent + [StatCommand] && s'.statRetrieved))
  {
    StatisticsOutcome(s);
  }

  lemma PrefixAppend<T>(a: seq<T>, b: seq<T>, x: T)
    requires a <= b
    ensures a <= b + [x]
  {
    assert (b + [x])[..|a|] == b[..|a|];
  }

  /** Before LIST has succeeded, `GetMessageSize` runs LIST once and agrees
      with a direct LIST followed by a look-up; a second call after that
      LIST succeeded returns the same size with no I/O. */
  lemma LazySizes(s: Session, n: int)
    requires !s.listRetrieved
    ensures var (ok, s1) := List(s);
      var size := if 0 < n <= |s1.msgSizes| then Some(s1.msgSizes[n - 1]) else None;
      GetMessageSize(s, n) == (ok, size, s1) &&
      (ok ==> GetMessageSize(s1, n) == (true, size, s1))
  {
    var (ok, s1) := List(s);
    if ok {
      SizesAreKept(s, n);
    }
  }

  /** Before UIDL has succeeded, `GetMessageID` runs UIDL once and agrees
      with a direct UIDL followed by a look-up; a second call after that
      UIDL succeeded returns the same id with no I/O. */
  lemma LazyIds(s: Session, n: int)
    requires !s.uidlRetrieved
    ensures var (ok, s1) := Uidl(s);
      var id := if 0 < n <= |s1.msgIDs| then Some(s1.msgIDs[n - 1]) else None;
      GetMessageID(s, n) == (ok, id, s1) &&
      (ok ==> GetMessageID(s1, n) == (true, id, s1))
  {
    var (ok, s1) := Uidl(s);
    if ok {
      IdsAreKept(s, n);
    }
  }

  /** `Delete` sends DELE n last: first LIST (with STAT before it) when the
      sizes are not yet known, whatever LIST's outcome; it succeeds only
      when DELE was sent and answered positively. */
  lemma DeleteOutcome(s: Session, n: int)
    ensures var (ok, s') := Delete(s, n);
      var before := if s.listRetrieved then s.net.sent else List(s).1.net.sent;
      (!s.listRetrieved && s.statRetrieved ==> before <= s.net.sent + [ListCommand]) &&
      (!s.listRetrieved && !s.statRetrieved ==> before <= s.net.sent + [StatCommand, ListCommand]) &&
      (s.listRetrieved ==> before == s.net.sent) &&
      s'.net.sent <= before + [DeleCommand(n)] &&
      (ok ==> s'.net.sent == before + [DeleCommand(n)])
  {
    if !s.listRetrieved {
      ListSendsStatOnce(s);
    }
  }

  /** `Retrieve` and `GetMessageHeader` of a listed message: exactly RETR n
      or TOP n 0 is sent, with nothing before it, and the text is what
      `ReadReturnResponse` reads with the listed size; a message number out
      of range sends nothing and fails. */
  lemma FetchOutcome(s: Session, n: int, top: bool)
    requires s.listRetrieved
    ensures var command := if top then TopCommand(n) else RetrCommand(n);
      var (ok, text, s') := Fetch(s, n, top);
      (!(0 < n <= |s.msgSizes|) ==> !ok && text.None? && s' == s) &&
      (0 < n <= |s.msgSizes| ==>
         s'.net.sent <= s.net.sent + [command] &&
         (ok ==> s'.net.sent == s.net.sent + [command] && text.Some?) &&
         (SendCommand(s, command).0 ==>
            (ok, text, s') == ReadReturn(SendCommand(s, command).1, s.msgSizes[n - 1])))
  {
  }

  /** After a successful LIST, the sizes are not fetched again: the size
      of a message comes from the stored list, nothing is sent or read. */
  lemma SizesAreKept(s: Session, n: int)
    requires List(s).0
    ensures var s' := List(s).1;
      s'.listRetrieved && s'.statRetrieved &&
      GetMessageSize(s', n) == (true, if 0 < n <= |s'.msgSizes| then Some(s'.msgSizes[n - 1]) else None, s')
  {
  }

  /** After a successful UIDL, the ids are not fetched again. */
  lemma IdsAreKept(s: Session, n: int)
    requires Uidl(s).0
    ensures var s' := Uidl(s).1;
      s'.uidlRetrieved && s'.statRetrieved &&
      GetMessageID(s', n) == (true, if 0 < n <= |s'.msgIDs| then Some(s'.msgIDs[n - 1]) else None, s')
  {
  }

  /** The server's next bytes are the response `resp` and nothing more: it
      ends with the terminator, holds it nowhere before and has no NUL.
      The server keeps up (`Reader.Prompt`), and the script has a round
      for every byte of the response and one more. */
  predicate Delivers(s: Session, resp: string, term: string)
  {
    0 < |term| <= |resp| && resp[|resp| - |term|..] == term && NoNul(resp) &&
    (forall i :: 0 <= i < |resp| - |term| ==> !OccursAt(resp, term, i)) &&
    s.net.waiting + Data(s.net.events) == resp &&
    Prompt(FirstTick(s.net.events), s.net.events, s.timeout) && |s.net.events| > |resp|
  }

  /** A reply that starts like a positive status line is positive. */
  lemma PositivePrefix(status: string, reply: string)
    requires IsPositiveReply(status) && status <= reply
    ensures IsPositiveReply(reply)
  {
    assert reply[..|status|] == status;
    assert reply[0] == status[0] && reply[1] == status[1] && reply[2] == status[2];
  }

  /** The status line of a multi-line response decides its verdict. */
  lemma MultiLineVerdict(status: string, lines: seq<string>)
    requires OneLine(status) && IsPositiveReply(status)
    ensures var got := MultiLine(status, lines);
      |got| >= |MultiLineEnd| && IsPositiveReply(Reply(got, MultiLineEnd))
  {
    var got := MultiLine(status, lines);
    RawMultiLine(status, lines);
    var c := if lines == [] then '\0' else '\r';
    assert NoNul(status);
    assert Raw(got, MultiLineEnd) == status + ([c] + "\n" + RawTail(lines));
    CStrKeepsPrefix(status, [c] + "\n" + RawTail(lines));
    PositivePrefix(status, Reply(got, MultiLineEnd));
  }

  /** STAT, end to end: a reply "+OK n m" yields both numbers and keeps
      the mail count. */
  lemma StatEndToEnd(s: Session, n: int, m: int)
    requires Delivers(s, "+OK " + IntToString(n) + " " + IntToString(m) + CRLF, CRLF)
    ensures var (ok, f, s') := ReadStat(s);
      ok && f == StatFields(Some(n), Some(m)) && s'.numberOfMails == n
  {
    var r := "+OK " + IntToString(n) + " " + IntToString(m);
    var o := Response(s, StatBufferSize, CRLF, DefaultGrowBy);
    WholeResponseRead(StatBufferSize, s.net.waiting, s.net.events, s.timeout, CRLF, DefaultGrowBy, r + CRLF);
    NoNulParts(r, CRLF);
    ReplyOf(r, CRLF);
    assert Reply(o.st.got, CRLF) == r;
    assert r[..3] == "+OK";
    assert Succeeded(o, CRLF) && IsExactPositiveReply(r);
    StatRoundTrip(n, m, []);
    assert r + [] == r;
    assert Stat(r) == StatFields(Some(n), Some(m));
  }

  /** LIST, end to end: a positive response "k size" per line yields the
      sizes. */
  lemma ListEndToEnd(s: Session, mails: int, status: string, sizes: seq<int>)
    requires ListBufferSize(mails) >= 1 && OneLine(status) && IsPositiveReply(status)
    requires Delivers(s, MultiLine(status, Numbered(1, SizeTexts(sizes))), MultiLineEnd)
    ensures ReadList(s, mails).0 && ReadList(s, mails).1.msgSizes == sizes
  {
    var resp := MultiLine(status, Numbered(1, SizeTexts(sizes)));
    var o := Response(s, ListBufferSize(mails), MultiLineEnd, DefaultGrowBy);
    WholeResponseRead(ListBufferSize(mails), s.net.waiting, s.net.events, s.timeout, MultiLineEnd, DefaultGrowBy, resp);
    assert o.st.got == resp;
    MultiLineVerdict(status, Numbered(1, SizeTexts(sizes)));
    assert Succeeded(o, MultiLineEnd);
    ListRoundTrip(status, sizes);
    assert ListSizes(Raw(o.st.got, MultiLineEnd)) == sizes;
  }

  /** UIDL, end to end: a positive response "k id" per line yields the
      ids. */
  lemma UidlEndToEnd(s: Session, mails: int, status: string, ids: seq<string>)
    requires ListBufferSize(mails) >= 1 && OneLine(status) && IsPositiveReply(status) && AllWords(ids)
    requires Delivers(s, MultiLine(status, Numbered(1, ids)), MultiLineEnd)
    ensures ReadUidl(s, mails).0 && ReadUidl(s, mails).1.msgIDs == ids
  {
    var resp := MultiLine(status, Numbered(1, ids));
    WholeResponseRead(ListBufferSize(mails), s.net.waiting, s.net.events, s.timeout, MultiLineEnd, DefaultGrowBy, resp);
    MultiLineVerdict(status, Numbered(1, ids));
    UidlRoundTrip(status, ids);
  }

  /** RETR and TOP, end to end: a positive response yields the text
      between the status line and the final line break. */
  lemma ReturnEndToEnd(s: Session, size: int, status: string, msg: string)
    requires size + 100 >= 1 && OneLine(status) && IsPositiveReply(status)
    requires Delivers(s, status + CRLF + msg + MultiLineEnd, MultiLineEnd)
    ensures ReadReturn(s, size).0 && ReadReturn(s, size).1 == Some(msg)
  {
    var resp := status + CRLF + msg + MultiLineEnd;
    WholeResponseRead(size + 100, s.net.waiting, s.net.events, s.timeout, MultiLineEnd, RetrieveGrowBy, resp);
    assert NoNul(msg) by {
      forall i | 0 <= i < |msg| ensures msg[i] != '\0' {
        assert msg[i] == resp[|status| + 2 + i];
      }
    }
    MessageRoundTrip(status, msg);
    assert status <= status + CRLF + msg;
    PositivePrefix(status, Reply(resp, MultiLineEnd));
  }
}
