/**
 * What `CPop3Connection::ReadResponse` computes, as functions of the
 * scripted socket: the receive loop round by round, when it stops, what
 * the buffer then holds, and the properties of the loop (the buffer never
 * overflows, nothing received is lost, the terminator is found exactly when
 * the received text contains it, the timeout is an idle timeout).
 */
module Reader {
  import opened Text
  import opened Transport

  /** Why the receive loop stopped. `OutOfEvents` only means that the
      script ran out before the loop ended. */
  datatype Stop = Found | TimedOut | SelectFailed | ReceiveFailed | OutOfEvents

  /** The loop's variables: the bytes received (`nReceived` of them in the
      buffer), the buffer size `nBufSize`, the tick of the last data
      `dwStartTicks`, and the bytes waiting in the socket. */
  datatype ReadState = ReadState(got: string, size: int, start: Tick, waiting: string)

  datatype StepResult = Next(st: ReadState) | Done(stop: Stop, st: ReadState)

  /** Where the loop ended, with which variables, and the rounds left. */
  datatype Outcome = Outcome(stop: Stop, st: ReadState, rest: seq<Event>)

  /** No NUL character. */
  predicate NoNul(s: string)
  {
    forall i :: 0 <= i < |s| ==> s[i] != '\0'
  }

  /** The C string a `char` buffer holds: everything before the first NUL. */
  function CStr(s: string): (r: string)
    ensures |r| <= |s| && r == s[..|r|]
    ensures |r| < |s| ==> s[|r|] == '\0'
  {
    if s == [] || s[0] == '\0' then [] else [s[0]] + CStr(s[1..])
  }

  /** `strstr(buffer, terminator) != NULL`. */
  predicate HasTerminator(got: string, term: string)
  {
    Find(CStr(got), term) >= 0
  }

  /** `nBufSize - nReceived - 1`, clamped at 0: room left beside the NUL. */
  function Room(st: ReadState): nat
  {
    if st.size - |st.got| - 1 < 0 then 0 else st.size - |st.got| - 1
  }

  /** The number of bytes a `recv` of `Room` bytes takes from `waiting`. */
  function Taken(st: ReadState, waiting: string): (n: nat)
    ensures n <= Room(st) && n <= |waiting|
    ensures n == Room(st) || n == |waiting|
  {
    if Room(st) < |waiting| then Room(st) else |waiting|
  }

  /** The buffer holds the received bytes and a NUL after them. */
  predicate Fits(st: ReadState)
  {
    |st.got| < st.size
  }

  /** A readable round: receive up to `Room` bytes of `waiting`, reset the
      idle clock when something came, grow the buffer by `growBy` when the
      room is used up, and search the whole received text for `term`. */
  function Receive(st: ReadState, waiting: string, now: Tick, term: string, growBy: int): StepResult
  {
    var room := Room(st);
    var n := Taken(st, waiting);
    var got := st.got + waiting[..n];
    var st' := ReadState(got, if room - n == 0 then st.size + growBy else st.size,
                         if n != 0 then now else st.start, waiting[n..]);
    if HasTerminator(got, term) then Done(Found, st') else Next(st')
  }

  /** One round of the loop: the timeout check, the readability check and,
      when readable, the receive. */
  function Step(st: ReadState, ev: Event, timeout: Tick, term: string, growBy: int): StepResult
  {
    if Elapsed(ev.now, st.start) > timeout then Done(TimedOut, st)
    else match ev.kind
      case SelectFails => Done(SelectFailed, st)
      case RecvFails => Done(ReceiveFailed, st)
      case Closed => Receive(st, st.waiting, ev.now, term, growBy)
      case Deliver(data) =>
        if st.waiting + data == [] then Next(st)
        else Receive(st, st.waiting + data, ev.now, term, growBy)
  }

  /** A round within the timeout whose socket is readable or idle. */
  lemma StepReadable(st: ReadState, ev: Event, timeout: Tick, term: string, growBy: int)
    requires Elapsed(ev.now, st.start) <= timeout && (ev.kind.Closed? || ev.kind.Deliver?)
    ensures var w := st.waiting + Bytes(ev);
      Step(st, ev, timeout, term, growBy) ==
        if ev.kind.Closed? || w != [] then Receive(st, w, ev.now, term, growBy) else Next(st)
  {
    if ev.kind.Closed? {
      assert st.waiting + Bytes(ev) == st.waiting;
    }
  }

  /** The loop, round after round, until it stops. */
  function ReadLoop(st: ReadState, events: seq<Event>, timeout: Tick, term: string, growBy: int): Outcome
    decreases |events|
  {
    if events == [] then Outcome(OutOfEvents, st, [])
    else match Step(st, events[0], timeout, term, growBy)
      case Done(stop, st') => Outcome(stop, st', events[1..])
      case Next(st') => ReadLoop(st', events[1..], timeout, term, growBy)
  }

  /** One round of the loop taken off the front. */
  lemma ReadLoopUnfold(st: ReadState, events: seq<Event>, timeout: Tick, term: string, growBy: int)
    requires events != []
    ensures var r := Step(st, events[0], timeout, term, growBy);
      ReadLoop(st, events, timeout, term, growBy) ==
        if r.Done? then Outcome(r.stop, r.st, events[1..]) else ReadLoop(r.st, events[1..], timeout, term, growBy)
  {
  }

  /** The tick read when the call starts: the first round's reading (the two
      readings are taken as the same instant). */
  function FirstTick(events: seq<Event>): Tick
  {
    if events == [] then 0 else events[0].now
  }

  /** `ReadResponse` into a buffer of `size` bytes. */
  function Read(size: int, waiting: string, events: seq<Event>, timeout: Tick, term: string, growBy: int): Outcome
  {
    ReadLoop(ReadState([], size, FirstTick(events), waiting), events, timeout, term, growBy)
  }

  /** The buffer after the terminator is stripped: a NUL written where the
      terminator would start if it ended the data, and the NUL after the
      data that every round writes. */
  function Raw(got: string, term: string): (raw: string)
    requires 0 < |term| <= |got|
    ensures |raw| == |got| + 1
  {
    got[|got| - |term| := '\0'] + ['\0']
  }

  /** The response text the buffer then holds as a C string. */
  function Reply(got: string, term: string): string
    requires 0 < |term| <= |got|
  {
    CStr(Raw(got, term))
  }

  /** `ReadResponse`'s verdict: the terminator came, and the reply starts
      with "+OK" in any case. */
  predicate Succeeded(o: Outcome, term: string)
  {
    o.stop == Found && 0 < |term| <= |o.st.got| && IsPositiveReply(Reply(o.st.got, term))
  }

  // ---------------------------------------------------------------------
  // Properties of one round

  /** The buffer never overflows: at most `nBufSize - 1` bytes are held. */
  lemma StepFits(st: ReadState, ev: Event, timeout: Tick, term: string, growBy: int)
    requires Fits(st) && growBy >= 1
    ensures Fits(Step(st, ev, timeout, term, growBy).st)
  {
  }

  /** The buffer grows only when the receive filled it, and then by
      `growBy`; what was received stays at the front. */
  lemma StepGrows(st: ReadState, ev: Event, timeout: Tick, term: string, growBy: int)
    requires Fits(st)
    ensures var st' := Step(st, ev, timeout, term, growBy).st;
      st.got <= st'.got &&
      (st'.size == st.size || (st'.size == st.size + growBy && |st'.got| == st.size - 1))
  {
  }

  /** A receive that uses up the room grows the buffer by `growBy`, one
      that leaves room keeps its size, and either way the next round has
      room to receive into. */
  lemma ReceiveGrows(st: ReadState, w: string, now: Tick, term: string, growBy: int)
    requires Fits(st) && growBy >= 1
    ensures var st' := Receive(st, w, now, term, growBy).st;
      |st'.got| <= st.size - 1 &&
      (|st'.got| == st.size - 1 ==> st'.size == st.size + growBy) &&
      (|st'.got| < st.size - 1 ==> st'.size == st.size) &&
      Room(st') > 0
  {
  }

  /** The timeout fires exactly when more than `timeout` ticks have passed
      since the last data, and then nothing else happens in that round. */
  lemma StepTimesOut(st: ReadState, ev: Event, timeout: Tick, term: string, growBy: int)
    ensures var r := Step(st, ev, timeout, term, growBy);
      (r.Done? && r.stop == TimedOut) <==> Elapsed(ev.now, st.start) > timeout
    ensures var r := Step(st, ev, timeout, term, growBy);
      r.Done? && r.stop == TimedOut ==> r.st == st
  {
  }

  /** Data restarts the idle clock; a round without data leaves it. */
  lemma StepClock(st: ReadState, ev: Event, timeout: Tick, term: string, growBy: int)
    requires Fits(st)
    ensures var st' := Step(st, ev, timeout, term, growBy).st;
      (|st'.got| > |st.got| ==> st'.start == ev.now) &&
      (|st'.got| == |st.got| ==> st'.start == st.start)
  {
  }

  /** A failed readability check or receive ends the loop with the data
      received so far. */
  lemma StepFailures(st: ReadState, ev: Event, timeout: Tick, term: string, growBy: int)
    requires Elapsed(ev.now, st.start) <= timeout && (ev.kind.SelectFails? || ev.kind.RecvFails?)
    ensures Step(st, ev, timeout, term, growBy) ==
      Done(if ev.kind.SelectFails? then SelectFailed else ReceiveFailed, st)
  {
  }

  /** A receive moves bytes from the socket to the buffer, in order. */
  lemma ReceiveKeepsBytes(st: ReadState, w: string, now: Tick, term: string, growBy: int)
    ensures var r := Receive(st, w, now, term, growBy);
      r.st.got + r.st.waiting == st.got + w && st.got <= r.st.got
  {
    var n := Taken(st, w);
    assert w[..n] + w[n..] == w;
    assert st.got + w[..n] + w[n..] == st.got + w;
  }

  /** No byte is lost or reordered: received and waiting bytes together are
      at most the bytes that were waiting plus those the round delivered,
      and all of them unless the loop stopped before receiving. */
  lemma StepKeepsBytes(st: ReadState, ev: Event, timeout: Tick, term: string, growBy: int)
    ensures var r := Step(st, ev, timeout, term, growBy);
      r.st.got + r.st.waiting <= st.got + st.waiting + Bytes(ev) &&
      st.got <= r.st.got &&
      (r.Next? ==> r.st.got + r.st.waiting == st.got + st.waiting + Bytes(ev))
  {
    if Elapsed(ev.now, st.start) <= timeout {
      match ev.kind
      case Closed => ReceiveKeepsBytes(st, st.waiting, ev.now, term, growBy);
      case Deliver(data) =>
        if st.waiting + data != [] {
          ReceiveKeepsBytes(st, st.waiting + data, ev.now, term, growBy);
          assert st.got + (st.waiting + data) == st.got + st.waiting + data;
        }
      case _ =>
    }
  }

  // ---------------------------------------------------------------------
  // Properties of the whole loop

  /** The buffer never overflows, however often it grows. */
  lemma {:induction false} ReadLoopFits(st: ReadState, events: seq<Event>, timeout: Tick, term: string, growBy: int)
    requires Fits(st) && growBy >= 1
    ensures Fits(ReadLoop(st, events, timeout, term, growBy).st)
    decreases |events|
  {
    if events != [] {
      StepFits(st, events[0], timeout, term, growBy);
      var r := Step(st, events[0], timeout, term, growBy);
      if r.Next? {
        ReadLoopFits(r.st, events[1..], timeout, term, growBy);
      }
    }
  }

  /** The received bytes are the start of the stream of bytes, in order:
      what was waiting, then what the rounds delivered. */
  lemma {:induction false} ReadLoopKeepsBytes(st: ReadState, events: seq<Event>, timeout: Tick, term: string, growBy: int)
    ensures var o := ReadLoop(st, events, timeout, term, growBy);
      st.got <= o.st.got && o.st.got + o.st.waiting <= st.got + st.waiting + Data(events)
    decreases |events|
  {
    if events != [] {
      var ev := events[0];
      StepKeepsBytes(st, ev, timeout, term, growBy);
      var r := Step(st, ev, timeout, term, growBy);
      var o := ReadLoop(st, events, timeout, term, growBy);
      var x := st.got + st.waiting;
      assert x + Data(events) == (x + Bytes(ev)) + Data(events[1..]);
      if r.Next? {
        ReadLoopKeepsBytes(r.st, events[1..], timeout, term, growBy);
        assert o == ReadLoop(r.st, events[1..], timeout, term, growBy);
      } else {
        assert o.st == r.st;
        PrefixExtend(r.st.got + r.st.waiting, x + Bytes(ev), Data(events[1..]));
      }
    }
  }

  lemma PrefixExtend(a: string, b: string, c: string)
    requires a <= b
    ensures a <= b + c
  {
    assert (b + c)[..|a|] == b[..|a|];
  }

  /** When the loop starts without the terminator, it reports `Found`
      exactly when the received text contains the terminator. */
  lemma {:induction false} ReadLoopFound(st: ReadState, events: seq<Event>, timeout: Tick, term: string, growBy: int)
    requires !HasTerminator(st.got, term)
    ensures var o := ReadLoop(st, events, timeout, term, growBy);
      o.stop == Found <==> HasTerminator(o.st.got, term)
    decreases |events|
  {
    if events != [] {
      var r := Step(st, events[0], timeout, term, growBy);
      if r.Next? {
        ReadLoopFound(r.st, events[1..], timeout, term, growBy);
      }
    }
  }

  /** Each round comes at most `timeout` ticks after the previous one (the
      first after `start`) and delivers bytes. */
  predicate Steady(start: Tick, events: seq<Event>, timeout: Tick)
    decreases |events|
  {
    events == [] ||
    (events[0].kind.Deliver? && events[0].kind.data != [] &&
     Elapsed(events[0].now, start) <= timeout && Steady(events[0].now, events[1..], timeout))
  }

  /** The timeout is an idle timeout: a stream that keeps delivering within
      the timeout never times out, however long it lasts in total. */
  lemma {:induction false} SteadyStreamNeverTimesOut(st: ReadState, events: seq<Event>, timeout: Tick, term: string, growBy: int)
    requires Room(st) > 0 && growBy >= 1 && Steady(st.start, events, timeout)
    ensures ReadLoop(st, events, timeout, term, growBy).stop != TimedOut
    decreases |events|
  {
    if events != [] {
      var r := Step(st, events[0], timeout, term, growBy);
      assert r.st.start == events[0].now && Room(r.st) > 0;
      if r.Next? {
        SteadyStreamNeverTimesOut(r.st, events[1..], timeout, term, growBy);
      }
    }
  }

  /** The server keeps up: every round is a delivery, of nothing only once
      everything has been delivered, and comes at most `timeout` ticks
      after the round before it (the first after `start`). */
  predicate Prompt(start: Tick, events: seq<Event>, timeout: Tick)
    decreases |events|
  {
    events == [] ||
    (events[0].kind.Deliver? && Elapsed(events[0].now, start) <= timeout &&
     (events[0].kind.data == [] ==> Data(events[1..]) == []) &&
     Prompt(events[0].now, events[1..], timeout))
  }

  /** A stream holding the terminator is read until the terminator when
      the server keeps up and there is a round for every byte still to be
      received: while bytes remain, each round receives at least one of
      them, since a receive always leaves room for the next. */
  lemma {:induction false} PromptLoopFinds(st: ReadState, events: seq<Event>, timeout: Tick, term: string,
                                           growBy: int, stream: string)
    requires Fits(st) && Room(st) > 0 && growBy >= 1
    requires st.got + st.waiting + Data(events) == stream && HasTerminator(stream, term)
    requires !HasTerminator(st.got, term)
    requires Prompt(st.start, events, timeout) && |events| >= |stream| - |st.got|
    ensures ReadLoop(st, events, timeout, term, growBy).stop == Found
    decreases |events|
  {
    StillToCome(st.got, st.waiting + Data(events), stream, term);
    var ev := events[0];
    assert Data(events) == Bytes(ev) + Data(events[1..]);
    var r := Step(st, ev, timeout, term, growBy);
    PromptRound(st, ev, Data(events[1..]), timeout, term, growBy, stream);
    if r.Next? {
      PromptLoopFinds(r.st, events[1..], timeout, term, growBy, stream);
    }
  }

  /** A received text without the terminator is not yet all of a stream
      that holds it. */
  lemma StillToCome(got: string, rest: string, stream: string, term: string)
    requires got + rest == stream && HasTerminator(stream, term) && !HasTerminator(got, term)
    ensures rest != []
  {
    assert rest == [] ==> got == stream;
  }

  /** One round of a server that keeps up, while bytes remain: it receives
      at least one byte, restarts the clock and leaves room for the next
      round; it ends the loop only by finding the terminator. */
  lemma PromptRound(st: ReadState, ev: Event, later: string, timeout: Tick, term: string,
                    growBy: int, stream: string)
    requires Fits(st) && Room(st) > 0 && growBy >= 1
    requires ev.kind.Deliver? && Elapsed(ev.now, st.start) <= timeout
    requires ev.kind.data == [] ==> later == []
    requires st.got + st.waiting + (Bytes(ev) + later) == stream && st.waiting + Bytes(ev) + later != []
    ensures var r := Step(st, ev, timeout, term, growBy);
      Fits(r.st) && Room(r.st) > 0 && r.st.start == ev.now && |r.st.got| > |st.got| &&
      (r.Done? ==> r.stop == Found) &&
      (r.Next? ==> r.st.got + r.st.waiting + later == stream && !HasTerminator(r.st.got, term))
  {
    var w := st.waiting + ev.kind.data;
    assert w != [];
    assert Step(st, ev, timeout, term, growBy) == Receive(st, w, ev.now, term, growBy);
    ReceiveKeepsBytes(st, w, ev.now, term, growBy);
    ReceiveGrows(st, w, ev.now, term, growBy);
    assert st.got + w + later == stream;
  }

  /** `ReadResponse` finds the terminator of the stream, however small its
      first buffer, when the server keeps up and the read has a round for
      every byte of the stream and one more (a one-byte buffer receives
      nothing in its first round, only grows). */
  lemma PromptReadFinds(size: int, waiting: string, events: seq<Event>, timeout: Tick, term: string, growBy: int)
    requires size >= 1 && growBy >= 1 && |term| > 0
    requires HasTerminator(waiting + Data(events), term)
    requires Prompt(FirstTick(events), events, timeout) && |events| > |waiting + Data(events)|
    ensures Read(size, waiting, events, timeout, term, growBy).stop == Found
  {
    var stream := waiting + Data(events);
    var st := ReadState([], size, FirstTick(events), waiting);
    assert !HasTerminator([], term);
    assert st.got + st.waiting + Data(events) == stream;
    if Room(st) > 0 {
      PromptLoopFinds(st, events, timeout, term, growBy, stream);
    } else {
      var ev := events[0];
      var d := ev.kind.data;
      assert Data(events) == d + Data(events[1..]);
      var w := waiting + d;
      assert w != [] by {
        if d == [] {
          assert stream == waiting;
          assert CStr([]) == [];
        }
      }
      var r := Receive(st, w, ev.now, term, growBy);
      assert Step(st, ev, timeout, term, growBy) == r;
      assert r == Next(ReadState([], size + growBy, ev.now, w));
      assert w + Data(events[1..]) == stream;
      PromptLoopFinds(r.st, events[1..], timeout, term, growBy, stream);
    }
  }

  /** A NUL-free stream that holds the terminator at `k` holds it for
      `strstr`. */
  lemma TerminatorIn(stream: string, term: string, k: int)
    requires NoNul(stream) && OccursAt(stream, term, k)
    ensures HasTerminator(stream, term)
  {
    CStrNoNul(stream);
    FindFirst(stream, term);
  }

  /** The terminator, once found, lies within the received bytes. */
  lemma FoundFits(got: string, term: string)
    requires HasTerminator(got, term)
    ensures |term| <= |got|
  {
  }

  /** A response longer than the initial buffer is captured whole: when
      the stream is a NUL-free text `r` followed by the terminator, which
      does not occur earlier, and the server keeps up, the read finds the
      terminator with exactly that text received and `r` as the reply. */
  lemma LargeResponseCaptured(size: int, waiting: string, events: seq<Event>, timeout: Tick, term: string,
                              growBy: int, r: string)
    requires size >= 1 && growBy >= 1 && |term| > 0 && waiting + Data(events) == r + term
    requires NoNul(r + term)
    requires forall i :: 0 <= i < |r| ==> !OccursAt(r + term, term, i)
    requires Prompt(FirstTick(events), events, timeout) && |events| > |r + term|
    ensures var o := Read(size, waiting, events, timeout, term, growBy);
      o.stop == Found && o.st.got == r + term && Reply(o.st.got, term) == r
  {
    assert (r + term)[|r|..|r| + |term|] == term;
    TerminatorIn(r + term, term, |r|);
    PromptReadFinds(size, waiting, events, timeout, term, growBy);
    CapturedWhole(size, waiting, events, timeout, term, growBy, r);
    NoNulParts(r, term);
    ReplyOf(r, term);
  }

  /** The received bytes of `LargeResponseCaptured`. */
  lemma CapturedWhole(size: int, waiting: string, events: seq<Event>, timeout: Tick, term: string,
                      growBy: int, r: string)
    requires |term| > 0 && waiting + Data(events) == r + term
    requires NoNul(r + term)
    requires forall i :: 0 <= i < |r| ==> !OccursAt(r + term, term, i)
    requires Read(size, waiting, events, timeout, term, growBy).stop == Found
    ensures Read(size, waiting, events, timeout, term, growBy).st.got == r + term
  {
    var st := ReadState([], size, FirstTick(events), waiting);
    var o := Read(size, waiting, events, timeout, term, growBy);
    ReadLoopKeepsBytes(st, events, timeout, term, growBy);
    ReadLoopFound(st, events, timeout, term, growBy);
    assert st.got + st.waiting == waiting;
    assert o == ReadLoop(st, events, timeout, term, growBy);
    assert o.st.got + o.st.waiting <= r + term;
    PrefixOfPrefix(o.st.got, o.st.waiting, r + term);
    WholeTermReceived(r, term, o.st.got);
  }

  lemma PrefixOfPrefix(a: string, b: string, s: string)
    requires a + b <= s
    ensures a <= s
  {
    assert (a + b)[..|a|] == a;
  }

  /** A prefix of `r + term` that contains the terminator, which does not
      occur before the end, is all of `r + term`. */
  lemma WholeTermReceived(r: string, term: string, got: string)
    requires |term| > 0 && got <= r + term && NoNul(r + term)
    requires forall i :: 0 <= i < |r| ==> !OccursAt(r + term, term, i)
    requires HasTerminator(got, term)
    ensures got == r + term
  {
    var s := r + term;
    assert NoNul(got) by {
      forall i | 0 <= i < |got| ensures got[i] != '\0' {
        assert got[i] == s[i];
      }
    }
    CStrNoNul(got);
    var k := Find(got, term);
    FindFirst(got, term);
    assert OccursAt(s, term, k) by {
      assert got[k..k + |term|] == s[k..k + |term|];
    }
    assert k == |r|;
  }

  lemma {:induction false} CStrNoNul(s: string)
    requires NoNul(s)
    ensures CStr(s) == s
  {
    if s != [] {
      assert NoNul(s[1..]) by {
        forall i | 0 <= i < |s| - 1 ensures s[1..][i] != '\0' {
          assert s[1..][i] == s[i + 1];
        }
      }
      CStrNoNul(s[1..]);
    }
  }

  /** Stripping the terminator from `r + term` leaves `r` as the reply. */
  lemma ReplyOf(r: string, term: string)
    requires NoNul(r) && |term| > 0
    ensures Reply(r + term, term) == r
  {
    var raw := Raw(r + term, term);
    assert raw[..|r|] == r;
    assert raw[|r|] == '\0';
    CStrStops(raw, |r|);
  }

  /** `CStr` stops at the first NUL. */
  lemma {:induction false} CStrStops(s: string, k: nat)
    requires k < |s| && s[k] == '\0' && NoNul(s[..k])
    ensures CStr(s) == s[..k]
  {
    if k > 0 {
      var u := s[..k][1..];
      assert s[0] == s[..k][0];
      assert s[1..][..k - 1] == u;
      assert NoNul(u) by {
        forall i | 0 <= i < |u| ensures u[i] != '\0' {
          assert u[i] == s[..k][i + 1];
        }
      }
      CStrStops(s[1..], k - 1);
    }
  }

  lemma NoNulParts(a: string, b: string)
    requires NoNul(a + b)
    ensures NoNul(a)
  {
    forall i | 0 <= i < |a| ensures a[i] != '\0' {
      assert a[i] == (a + b)[i];
    }
  }

  /** A response that ends with the terminator, holds it nowhere before
      and has no NUL is found and received whole when it is all the server
      sends and the server keeps up. */
  lemma WholeResponseRead(size: int, waiting: string, events: seq<Event>, timeout: Tick, term: string,
                          growBy: int, resp: string)
    requires size >= 1 && growBy >= 1
    requires 0 < |term| <= |resp| && resp[|resp| - |term|..] == term && NoNul(resp)
    requires forall i :: 0 <= i < |resp| - |term| ==> !OccursAt(resp, term, i)
    requires waiting + Data(events) == resp
    requires Prompt(FirstTick(events), events, timeout) && |events| > |resp|
    ensures var o := Read(size, waiting, events, timeout, term, growBy);
      o.stop == Found && o.st.got == resp
  {
    var r := resp[..|resp| - |term|];
    assert r + term == resp;
    LargeResponseCaptured(size, waiting, events, timeout, term, growBy, r);
  }

  /** The text before the first NUL survives in the C string. */
  lemma {:induction false} CStrKeepsPrefix(p: string, rest: string)
    requires NoNul(p)
    ensures p <= CStr(p + rest)
  {
    if p != [] {
      assert (p + rest)[1..] == p[1..] + rest;
      assert NoNul(p[1..]) by {
        forall i | 0 <= i < |p| - 1 ensures p[1..][i] != '\0' {
          assert p[1..][i] == p[i + 1];
        }
      }
      CStrKeepsPrefix(p[1..], rest);
    }
  }

  /** A NUL after the text ends the C string there. */
  lemma {:induction false} CStrNulEnded(got: string)
    ensures CStr(got + ['\0']) == CStr(got)
  {
    if got != [] && got[0] != '\0' {
      assert (got + ['\0'])[1..] == got[1..] + ['\0'];
      CStrNulEnded(got[1..]);
    }
  }

  /** A buffer whose last byte is a NUL holds a C string shorter than
      itself. */
  lemma {:induction false} CStrEndsBefore(s: string)
    requires |s| > 0 && s[|s| - 1] == '\0'
    ensures |CStr(s)| < |s|
  {
    if s[0] != '\0' {
      CStrEndsBefore(s[1..]);
    }
  }

  /** A C string holds no NUL. */
  lemma {:induction false} CStrHasNoNul(s: string)
    ensures NoNul(CStr(s))
  {
    if s != [] && s[0] != '\0' {
      CStrHasNoNul(s[1..]);
    }
  }
}
