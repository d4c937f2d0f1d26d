/**
 * `CPop3Connection` as an object: its members are fields, and every
 * operation changes them step by step as the source does, with the
 * response read into `char` buffers that grow as data arrives. Each method
 * is proved to end in the state, and with the result, that the function of
 * the same name in module Session gives.
 */
module Connection {
  import opened Text
  import opened Transport
  import opened Reader
  import opened Replies
  import Session
  import Message

  // ---------------------------------------------------------------------
  // Buffer helpers of ReadResponse

  /** `recv` copying `data` to `buffer + received`, and the NUL written
      after the data. */
  method Deposit(buffer: array<char>, received: nat, data: string)
    requires received + |data| < buffer.Length
    modifies buffer
    ensures buffer[..received + |data| + 1] == old(buffer[..received]) + data + ['\0']
  {
    var i := 0;
    while i < |data|
      invariant 0 <= i <= |data|
      invariant buffer[..received + i] == old(buffer[..received]) + data[..i]
    {
      buffer[received + i] := data[i];
      assert data[..i + 1] == data[..i] + [data[i]];
      i := i + 1;
    }
    assert data[..|data|] == data;
    buffer[received + |data|] := '\0';
  }

  /** A new buffer of `newSize` bytes holding the `count` received bytes and
      their NUL. */
  method Grow(buffer: array<char>, count: nat, newSize: int) returns (bigger: array<char>)
    requires count < buffer.Length <= newSize
    ensures fresh(bigger) && bigger.Length == newSize
    ensures bigger[..count + 1] == buffer[..count + 1]
  {
    bigger := new char[newSize];
    var i := 0;
    while i <= count
      invariant 0 <= i <= count + 1
      invariant bigger[..i] == buffer[..i]
    {
      bigger[i] := buffer[i];
      i := i + 1;
    }
  }

  /** The receive of one readable round: the bytes that fit are stored
      after the received ones, with a NUL after them, in a buffer grown by
      `growBy` when no room is left. */
  method Store(buffer: array<char>, st: ReadState, waiting: string, growBy: int)
    returns (recv: array<char>, count: nat, newSize: int)
    requires buffer.Length == st.size && |st.got| < st.size && buffer[..|st.got|] == st.got && growBy >= 1
    modifies buffer
    ensures recv == buffer || fresh(recv)
    ensures count == |st.got| + Taken(st, waiting) && count < newSize == recv.Length
    ensures newSize == if Room(st) - Taken(st, waiting) == 0 then st.size + growBy else st.size
    ensures recv[..count + 1] == st.got + waiting[..Taken(st, waiting)] + ['\0']
  {
    var received := |st.got|;
    var size := st.size;
    var room := if size - received - 1 < 0 then 0 else size - received - 1;
    var n := if room < |waiting| then room else |waiting|;
    Deposit(buffer, received, waiting[..n]);
    count := received + n;
    recv, newSize := buffer, size;
    if room - n == 0 {
      newSize := size + growBy;
      recv := Grow(buffer, count, newSize);
    }
  }

  /** One readable round of `ReadResponse`: receive what fits of `waiting`,
      restart the idle clock on data, NUL-terminate, grow the buffer when
      it is full and search for the terminator. `pending` is what waited
      before the round's delivery. */
  method ReceiveRound(buffer: array<char>, received: nat, ghost got: string, size: int, start: Tick,
                      pending: string, waiting: string, now: Tick, term: string, growBy: int)
    returns (recv: array<char>, count: nat, newSize: int, newStart: Tick, rest: string, found: bool)
    requires buffer.Length == size && received < size && got == buffer[..received] && growBy >= 1
    modifies buffer
    ensures recv == buffer || fresh(recv)
    ensures recv.Length == newSize && count < newSize && recv[count] == '\0'
    ensures var r := Receive(ReadState(got, size, start, pending), waiting, now, term, growBy);
      r.st == ReadState(recv[..count], newSize, newStart, rest) && found == r.Done?
  {
    var st := ReadState(buffer[..received], size, start, pending);
    ghost var r := Receive(st, waiting, now, term, growBy);
    recv, count, newSize := Store(buffer, st, waiting, growBy);
    var n := count - received;
    newStart := if n != 0 then now else start;
    rest := waiting[n..];
    ghost var data := st.got + waiting[..n];
    assert recv[..count] == data;
    assert r.st == ReadState(data, newSize, newStart, rest);
    CStrNulEnded(data);
    found := Find(CStr(recv[..count + 1]), term) >= 0;
    assert found == HasTerminator(data, term);
  }

  /** One round of the loop of `ReadResponse`: the timeout check, the
      readability check and, when readable, the receive; `stop` says why the
      loop ends after this round, if it does. */
  method Round(buffer: array<char>, received: nat, ghost got: string, size: int, start: Tick, waiting: string,
               ev: Event, timeout: Tick, term: string, growBy: int)
    returns (recv: array<char>, count: nat, newSize: int, newStart: Tick, rest: string, stop: Option<Stop>)
    requires buffer.Length == size && received < size && got == buffer[..received] && growBy >= 1
    modifies buffer
    ensures recv == buffer || fresh(recv)
    ensures recv.Length == newSize && count < newSize
    ensures var r := Step(ReadState(got, size, start, waiting), ev, timeout, term, growBy);
      r.st == ReadState(recv[..count], newSize, newStart, rest) &&
      (r.Done? <==> stop.Some?) && (r.Done? ==> stop.value == r.stop)
    ensures stop == Some(Found) ==> recv[count] == '\0' && |term| <= count
  {
    if Elapsed(ev.now, start) > timeout {
      return buffer, received, size, start, waiting, Some(TimedOut);
    } else if ev.kind.SelectFails? {
      return buffer, received, size, start, waiting, Some(SelectFailed);
    } else if ev.kind.RecvFails? {
      return buffer, received, size, start, waiting, Some(ReceiveFailed);
    }
    recv, count, newSize, newStart, rest, stop :=
      ReadableRound(buffer, received, got, size, start, waiting, ev, timeout, term, growBy);
  }

  /** A round of `ReadResponse` within the timeout whose socket is readable
      or idle: readable when the peer closed or bytes are waiting. */
  method ReadableRound(buffer: array<char>, received: nat, ghost got: string, size: int, start: Tick, waiting: string,
                       ev: Event, timeout: Tick, term: string, growBy: int)
    returns (recv: array<char>, count: nat, newSize: int, newStart: Tick, rest: string, stop: Option<Stop>)
    requires buffer.Length == size && received < size && got == buffer[..received] && growBy >= 1
    requires Elapsed(ev.now, start) <= timeout && (ev.kind.Closed? || ev.kind.Deliver?)
    modifies buffer
    ensures recv == buffer || fresh(recv)
    ensures recv.Length == newSize && count < newSize
    ensures var r := Step(ReadState(got, size, start, waiting), ev, timeout, term, growBy);
      r.st == ReadState(recv[..count], newSize, newStart, rest) &&
      (r.Done? <==> stop.Some?) && (r.Done? ==> stop.value == r.stop)
    ensures stop == Some(Found) ==> recv[count] == '\0' && |term| <= count
  {
    var w := waiting + Bytes(ev);
    StepReadable(ReadState(got, size, start, waiting), ev, timeout, term, growBy);
    if !ev.kind.Closed? && w == [] {
      return buffer, received, size, start, waiting, None;
    }
    var found;
    recv, count, newSize, newStart, rest, found :=
      ReceiveRound(buffer, received, got, size, start, waiting, w, ev.now, term, growBy);
    stop := None;
    if found {
      FoundFits(recv[..count], term);
      stop := Some(Found);
    }
  }

  /** The loop of `ReadResponse`: round after round until the
      terminator is found, the timeout passes or the socket fails. It
      returns the buffer in use, the number of bytes received, why the loop
      stopped and what is left of the socket. */
  method ReceiveLoop(buffer: array<char>, events: seq<Event>, waiting: string, timeout: Tick, term: string, growBy: int)
    returns (recv: array<char>, received: nat, stop: Stop, restEvents: seq<Event>, restWaiting: string)
    requires buffer.Length >= 1 && growBy >= 1
    modifies buffer
    ensures recv == buffer || fresh(recv)
    ensures received < recv.Length && (stop == Found ==> recv[received] == '\0' && |term| <= received)
    ensures var o := Read(buffer.Length, waiting, events, timeout, term, growBy);
      o.stop == stop && o.st.got == recv[..received] && o.st.waiting == restWaiting && o.rest == restEvents
  {
    ghost var o := Read(buffer.Length, waiting, events, timeout, term, growBy);
    recv := buffer;
    var size := buffer.Length;
    received := 0;
    var start := FirstTick(events);
    restEvents, restWaiting := events, waiting;
    var stopped: Option<Stop> := None;
    while stopped.None?
      invariant recv == buffer || fresh(recv)
      invariant recv.Length == size && received < size
      invariant stopped.None? ==>
        ReadLoop(ReadState(recv[..received], size, start, restWaiting), restEvents, timeout, term, growBy) == o
      invariant stopped.Some? ==> o == Outcome(stopped.value, ReadState(recv[..received], size, start, restWaiting), restEvents)
      invariant stopped == Some(Found) ==> recv[received] == '\0' && |term| <= received
      decreases |restEvents|, if stopped.Some? then 0 else 1
    {
      if restEvents == [] {
        // the scripted rounds are used up
        stopped := Some(OutOfEvents);
      } else {
        var ev := restEvents[0];
        ReadLoopUnfold(ReadState(recv[..received], size, start, restWaiting), restEvents, timeout, term, growBy);
        recv, received, size, start, restWaiting, stopped :=
          Round(recv, received, recv[..received], size, start, restWaiting, ev, timeout, term, growBy);
        restEvents := restEvents[1..];
      }
    }
    stop := stopped.value;
  }

  // ---------------------------------------------------------------------
  // Scans of a response buffer holding `received` bytes and a NUL

  /** `GetFirstCharInResponse` on the first `limit` bytes of `data`: the
      index after the first line feed, or of the NUL before it. */
  method GetFirstCharInResponse(data: array<char>, limit: nat) returns (k: nat)
    requires limit <= data.Length
    ensures k == FirstChar(data[..limit])
  {
    ghost var s := data[..limit];
    k := 0;
    while k < limit && data[k] != '\n' && data[k] != '\0'
      invariant k <= limit
      invariant LineStop(s, k) == LineStop(s, 0)
      decreases limit - k
    {
      k := k + 1;
    }
    if k < limit && data[k] != '\0' {
      k := k + 1;
    }
  }

  /** The loop of `ReadStatResponse`: along the reply up to its NUL, the
      number after the first blank is the mail count, the number after the
      second the total size, which ends the scan with success. */
  method ScanStat(recv: array<char>, received: nat) returns (ok: bool, fields: StatFields)
    requires received < recv.Length && recv[received] == '\0'
    ensures fields == Stat(CStr(recv[..received + 1])) && ok == fields.total.Some?
  {
    var reply := CStr(recv[..received + 1]);
    CStrEndsBefore(recv[..received + 1]);
    CStrHasNoNul(recv[..received + 1]);
    fields := StatFields(None, None);
    var p := 0;
    while recv[p] != '\0'
      invariant 0 <= p <= |reply|
      invariant fields.total.None? && StatScan(reply, p, fields.mails) == Stat(reply)
      decreases |reply| - p
    {
      if recv[p] == '\t' || recv[p] == ' ' {
        // atoi reads the reply from this blank on
        var n := Atoi(reply[p..]);
        if fields.mails.None? {
          fields := StatFields(Some(n), None);
        } else {
          fields := StatFields(fields.mails, Some(n));
          return true, fields;
        }
      }
      p := p + 1;
    }
    ok := false;
  }

  /** The loop of `ReadListResponse`: from the first line after the status
      line up to the first dot, one size for every space or tab. */
  method ScanSizes(recv: array<char>, received: nat) returns (sizes: seq<int>)
    requires received < recv.Length
    ensures sizes == ListSizes(recv[..received + 1])
  {
    ghost var raw := recv[..received + 1];
    sizes := [];
    var p := GetFirstCharInResponse(recv, received + 1);
    while p < received + 1 && recv[p] != '.'
      invariant p <= received + 1
      invariant sizes + ListScan(raw, p) == ListSizes(raw)
      decreases received + 1 - p
    {
      if recv[p] == '\t' || recv[p] == ' ' {
        assert recv[p..received + 1] == raw[p..];
        sizes := sizes + [Atoi(recv[p..received + 1])];
      }
      p := p + 1;
    }
  }

  /** The inner loop of `ReadUIDLResponse`, corrected: the line feed that
      ends the line starting at `begin`. */
  method LineEnd(recv: array<char>, limit: nat, begin: nat) returns (p: nat)
    requires begin <= limit <= recv.Length
    ensures p == NextLineFeed(recv[..limit], begin)
  {
    ghost var raw := recv[..limit];
    p := begin;
    while p < limit && recv[p] != '\n'
      invariant begin <= p <= limit
      invariant NextLineFeed(raw, p) == NextLineFeed(raw, begin)
      decreases limit - p
    {
      p := p + 1;
    }
  }

  /** Concatenation regrouped. */
  lemma Regroup<T>(a: seq<T>, b: seq<T>, c: seq<T>)
    ensures a + (b + c) == (a + b) + c
  {
  }

  /** One line of `ReadUIDLResponse`'s scan, corrected: the line starting
      at `begin` is cut at its line feed and gives its second word as an id,
      if it has one; `next` is where the following line starts, or the end
      when no line feed is left. */
  method ScanLine(recv: array<char>, limit: nat, begin: nat, ghost raw: string) returns (id: seq<string>, next: nat)
    requires begin < limit <= recv.Length && recv[begin] != '.' && raw == recv[..limit]
    ensures begin < next <= limit
    ensures UidlIds(raw, begin) == id + UidlIds(raw, next)
  {
    var p := LineEnd(recv, limit, begin);
    if p == limit {
      return [], limit;
    }
    assert raw[begin] == recv[begin];
    assert recv[begin..p] == raw[begin..p];
    UidlIdsStep(raw, begin, p);
    id := LineIds(recv[begin..p]);
    next := p + 1;
  }

  /** The loops of `ReadUIDLResponse`, with the corrected line scan: every
      line up to the first one starting with a dot gives its id. */
  method ScanIds(recv: array<char>, received: nat) returns (ids: seq<string>)
    requires received < recv.Length
    ensures ids == UidlList(recv[..received + 1])
  {
    ghost var raw := recv[..received + 1];
    ids := [];
    var p := GetFirstCharInResponse(recv, received + 1);
    while p < received + 1 && recv[p] != '.'
      invariant p <= received + 1
      invariant ids + UidlIds(raw, p) == UidlList(raw)
      decreases received + 1 - p
    {
      var id, next := ScanLine(recv, received + 1, p, raw);
      Regroup(ids, id, UidlIds(raw, next));
      ids := ids + id;
      p := next;
    }
  }

  /** The message text `ReadReturnResponse` copies: from the first
      character after the status line to the NUL. */
  method MessageOf(recv: array<char>, received: nat) returns (text: string)
    requires received < recv.Length && recv[received] == '\0'
    ensures text == MessageText(recv[..received + 1])
  {
    ghost var raw := recv[..received + 1];
    var first := GetFirstCharInResponse(recv, received + 1);
    CStrEndsBefore(raw);
    MessageTextIsTail(raw);
    // strlen(sMessageBuf) - (pszFirst - sMessageBuf) bytes from pszFirst
    var length := |CStr(recv[..received + 1])| - first;
    text := recv[first..first + length];
  }

  // ---------------------------------------------------------------------
  // The connection

  class Pop3Connection {
    var connected: bool
    var statRetrieved: bool
    var listRetrieved: bool
    var uidlRetrieved: bool
    var numberOfMails: int
    var msgSizes: seq<int>
    var msgIDs: seq<string>
    var timeout: Tick
    var lastCommandResponse: string
    /** The socket `m_Pop`. */
    var net: Net

    /** The members as a value. */
    function State(): Session.Session
      reads this
    {
      Session.Session(connected, statRetrieved, listRetrieved, uidlRetrieved, numberOfMails,
                      msgSizes, msgIDs, timeout, lastCommandResponse, net)
    }

    constructor (socket: Net)
      ensures State() == Session.Initial(socket)
    {
      connected, statRetrieved, listRetrieved, uidlRetrieved := false, false, false, false;
      numberOfMails := 0;
      msgSizes, msgIDs := [], [];
      timeout := Session.ReleaseTimeout;
      lastCommandResponse := "";
      net := socket;
    }

    /** `ReadResponse` into `buffer`: the loop until the terminator comes,
        the timeout passes or the socket fails. It returns the buffer that
        holds the response (`buffer` or the last overflow buffer) and the
        number of bytes received. */
    method ReadResponse(buffer: array<char>, term: string, growBy: int)
      returns (ok: bool, recv: array<char>, received: nat)
      requires buffer.Length >= 1 && |term| > 0 && growBy >= 1
      modifies this, buffer
      ensures recv == buffer || fresh(recv)
      ensures var o := Session.Response(old(State()), buffer.Length, term, growBy);
        ok == Succeeded(o, term) && State() == Session.AfterRead(old(State()), o, term) &&
        received == |o.st.got| && received < recv.Length &&
        (o.stop == Found ==> |term| <= received && recv[..received + 1] == Raw(o.st.got, term) && recv[received] == '\0')
    {
      var stop, events, waiting;
      recv, received, stop, events, waiting := ReceiveLoop(buffer, net.events, net.waiting, timeout, term, growBy);
      net := net.(events := events, waiting := waiting);
      ok := Finish(recv, received, stop, term);
    }

    /** The end of `ReadResponse`: after the terminator, the NUL that cuts
        it off and the verdict, with a reply that is not positive kept; after
        a failure, the NUL after the data and the data kept. */
    method Finish(recv: array<char>, received: nat, stop: Stop, term: string) returns (ok: bool)
      requires received < recv.Length && 0 < |term|
      requires stop == Found ==> |term| <= received && recv[received] == '\0'
      modifies this, recv
      ensures stop == Found ==> recv[..received + 1] == Raw(old(recv[..received]), term) && recv[received] == '\0'
      ensures ok == (stop == Found && IsPositiveReply(Reply(old(recv[..received]), term)))
      ensures State() == old(State()).(lastResponse :=
        Session.Logged(stop, old(recv[..received]), term, old(lastCommandResponse)))
    {
      ghost var got := recv[..received];
      if stop == Found {
        assert recv[..received + 1] == got + ['\0'];
        recv[received - |term|] := '\0';
        assert recv[..received + 1] == Raw(got, term);
        ok := IsPositiveReply(CStr(recv[..received + 1]));
        if !ok {
          lastCommandResponse := CStr(recv[..received + 1]);
        }
      } else {
        ok := false;
        if stop != OutOfEvents {
          recv[received] := '\0';
          assert recv[..received + 1] == got + ['\0'];
          CStrNulEnded(got);
          lastCommandResponse := CStr(recv[..received + 1]);
        }
      }
    }

    // -------------------------------------------------------------------
    // The response parsers

    /** `ReadCommandResponse`: a one-line response into 1000 bytes. */
    method ReadCommandResponse() returns (ok: bool)
      modifies this
      ensures (ok, State()) == Session.ReadCommand(old(State()))
    {
      var buffer := new char[Session.CommandBufferSize];
      var recv, received;
      ok, recv, received := ReadResponse(buffer, CRLF, Session.DefaultGrowBy);
    }

    /** `ReadStatResponse`: a one-line response into 100 bytes, which must
        start with "+OK" exactly; then the mail count and total size. */
    method ReadStatResponse() returns (ok: bool, fields: StatFields)
      modifies this
      ensures (ok, fields, State()) == Session.ReadStat(old(State()))
    {
      var buffer := new char[Session.StatBufferSize];
      var read, recv, received := ReadResponse(buffer, CRLF, Session.DefaultGrowBy);
      if !read || !IsExactPositiveReply(CStr(recv[..received + 1])) {
        return false, StatFields(None, None);
      }
      ok, fields := ScanStat(recv, received);
      if fields.mails.Some? {
        numberOfMails := fields.mails.value;
      }
    }

    /** `ReadListResponse`: a buffer of `14 * mails + 100` bytes, then the
        sizes of its lines. */
    method ReadListResponse(mails: int) returns (ok: bool)
      modifies this
      ensures (ok, State()) == Session.ReadList(old(State()), mails)
    {
      var size := Session.ListBufferSize(mails);
      if size < 1 {
        return false;
      }
      var buffer := new char[size];
      var recv, received;
      ok, recv, received := ReadResponse(buffer, MultiLineEnd, Session.DefaultGrowBy);
      // the "+OK" check repeated after the read has the outcome of the one in ReadResponse
      if ok {
        msgSizes := ScanSizes(recv, received);
      }
    }

    /** `ReadUIDLResponse`: a buffer of `14 * mails + 100` bytes, then the
        ids of its lines. */
    method ReadUIDLResponse(mails: int) returns (ok: bool)
      modifies this
      ensures (ok, State()) == Session.ReadUidl(old(State()), mails)
    {
      var size := Session.ListBufferSize(mails);
      if size < 1 {
        return false;
      }
      var buffer := new char[size];
      var recv, received;
      ok, recv, received := ReadResponse(buffer, MultiLineEnd, Session.DefaultGrowBy);
      if ok {
        msgIDs := ScanIds(recv, received);
      }
    }

    /** `ReadReturnResponse`: a buffer of `size + 100` bytes growing by
        32000, and on success the text after the status line becomes the
        message. */
    method ReadReturnResponse(message: Message.Pop3Message, size: int) returns (ok: bool)
      modifies this, message
      ensures var (r, text, s) := Session.ReadReturn(old(State()), size);
        ok == r && State() == s && message.text == (if text.Some? then text.value else old(message.text))
    {
      var text;
      ok, text := ReadMessage(size);
      if text.Some? {
        message.text := text.value;
      }
    }

    /** The read and the copy of `ReadReturnResponse`, before the text is
        handed to the message. */
    method ReadMessage(size: int) returns (ok: bool, text: Option<string>)
      modifies this
      ensures (ok, text, State()) == Session.ReadReturn(old(State()), size)
    {
      var bufSize := size + 100;
      if bufSize < 1 {
        return false, None;
      }
      var buffer := new char[bufSize];
      var recv, received;
      ok, recv, received := ReadResponse(buffer, MultiLineEnd, Session.RetrieveGrowBy);
      text := None;
      if ok {
        var copied := MessageOf(recv, received);
        text := Some(copied);
      }
    }

    // -------------------------------------------------------------------
    // The commands

    /** `m_Pop.Send`. */
    method Send(command: string) returns (sent: bool)
      modifies this
      ensures (sent, State()) == Session.SendCommand(old(State()), command)
    {
      var r := Transport.Send(net, command);
      sent, net := r.0, r.1;
    }

    /** `Disconnect`. */
    method Disconnect() returns (ok: bool)
      modifies this
      ensures (ok, State()) == Session.Disconnect(old(State()))
    {
      ok := false;
      if connected {
        var sent := Send(Session.QuitCommand);
        ok := ReadCommandResponse();
        connected, listRetrieved, statRetrieved, uidlRetrieved := false, false, false, false;
      }
      net := net.(open := false);
    }

    /** One login command and its response; on failure, `Disconnect`. */
    method Login(command: string) returns (ok: bool)
      modifies this
      ensures (ok, State()) == Session.LoginStep(old(State()), command)
    {
      ok := Send(command);
      if ok {
        ok := ReadCommandResponse();
      }
      if !ok {
        var closed := Disconnect();
      }
    }

    /** `Connect`: `created` and `reached` are the outcomes of creating the
        socket and connecting it to the host. */
    method Connect(user: string, password: string, created: bool, reached: bool) returns (ok: bool)
      modifies this
      ensures (ok, State()) == Session.Connect(old(State()), user, password, created, reached)
    {
      if !created {
        return false;
      }
      net := net.(open := true);
      if !reached {
        return false;
      }
      connected := true;
      var greeted := ReadCommandResponse();
      if !greeted {
        var closed := Disconnect();
        return false;
      }
      ok := Login(Session.UserCommand(user));
      if ok {
        ok := Login(Session.PassCommand(password));
      }
    }

    /** `Statistics`. */
    method Statistics() returns (ok: bool, fields: StatFields)
      modifies this
      ensures (ok, fields, State()) == Session.Statistics(old(State()))
    {
      var sent := Send(Session.StatCommand);
      if !sent {
        return false, StatFields(None, None);
      }
      ok, fields := ReadStatResponse();
    }

    /** The mail count `List` and `UIDL` size their buffer by: STAT first
        unless it already succeeded, keeping the old count when STAT left
        it out. */
    method MailCount() returns (ok: bool, mails: int)
      modifies this
      ensures (ok, mails, State()) == Session.MailCount(old(State()))
    {
      mails := numberOfMails;
      if statRetrieved {
        return true, mails;
      }
      var fields;
      ok, fields := Statistics();
      if ok {
        statRetrieved := true;
      }
      if fields.mails.Some? {
        mails := fields.mails.value;
      }
    }

    /** `List`. */
    method List() returns (ok: bool)
      modifies this
      ensures (ok, State()) == Session.List(old(State()))
    {
      var counted, mails := MailCount();
      if !counted {
        return false;
      }
      var sent := Send(Session.ListCommand);
      if !sent {
        return false;
      }
      listRetrieved := ReadListResponse(mails);
      ok := listRetrieved;
    }

    /** `UIDL`. */
    method Uidl() returns (ok: bool)
      modifies this
      ensures (ok, State()) == Session.Uidl(old(State()))
    {
      var counted, mails := MailCount();
      if !counted {
        return false;
      }
      var sent := Send(Session.UidlCommand);
      if !sent {
        return false;
      }
      uidlRetrieved := ReadUIDLResponse(mails);
      ok := uidlRetrieved;
    }

    /** Send a command and read its one-line response. */
    method Command(command: string) returns (ok: bool)
      modifies this
      ensures (ok, State()) == Session.Command(old(State()), command)
    {
      ok := Send(command);
      if ok {
        ok := ReadCommandResponse();
      }
    }

    /** `Delete`. */
    method Delete(n: int) returns (ok: bool)
      modifies this
      ensures (ok, State()) == Session.Delete(old(State()), n)
    {
      if !listRetrieved {
        var listed := List();
      }
      ok := Command(Session.DeleCommand(n));
    }

    /** `Reset`. */
    method Reset() returns (ok: bool)
      modifies this
      ensures (ok, State()) == Session.Command(old(State()), Session.RsetCommand)
    {
      ok := Command(Session.RsetCommand);
    }

    /** `Noop`. */
    method Noop() returns (ok: bool)
      modifies this
      ensures (ok, State()) == Session.Command(old(State()), Session.NoopCommand)
    {
      ok := Command(Session.NoopCommand);
    }

    /** `GetMessageSize`. */
    method GetMessageSize(n: int) returns (ok: bool, size: Option<int>)
      modifies this
      ensures (ok, size, State()) == Session.GetMessageSize(old(State()), n)
    {
      ok := true;
      if !listRetrieved {
        ok := List();
      }
      size := if 0 < n <= |msgSizes| then Some(msgSizes[n - 1]) else None;
    }

    /** `GetMessageID`. */
    method GetMessageID(n: int) returns (ok: bool, id: Option<string>)
      modifies this
      ensures (ok, id, State()) == Session.GetMessageID(old(State()), n)
    {
      ok := true;
      if !uidlRetrieved {
        ok := Uidl();
      }
      id := if 0 < n <= |msgIDs| then Some(msgIDs[n - 1]) else None;
    }

    /** `Retrieve`: RETR, with the buffer sized from LIST. */
    method Retrieve(n: int, message: Message.Pop3Message) returns (ok: bool)
      modifies this, message
      ensures var (r, text, s) := Session.Fetch(old(State()), n, false);
        ok == r && State() == s && message.text == (if text.Some? then text.value else old(message.text))
    {
      var sized, size := GetMessageSize(n);
      if !sized || size.None? {
        return false;
      }
      var sent := Send(Session.RetrCommand(n));
      if !sent {
        return false;
      }
      ok := ReadReturnResponse(message, size.value);
    }

    /** `GetMessageHeader`: TOP with no body lines. */
    method GetMessageHeader(n: int, message: Message.Pop3Message) returns (ok: bool)
      modifies this, message
      ensures var (r, text, s) := Session.Fetch(old(State()), n, true);
        ok == r && State() == s && message.text == (if text.Some? then text.value else old(message.text))
    {
      var sized, size := GetMessageSize(n);
      if !sized || size.None? {
        return false;
      }
      var sent := Send(Session.TopCommand(n));
      if !sent {
        return false;
      }
      ok := ReadReturnResponse(message, size.value);
    }
  }
}
