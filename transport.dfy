/**
 * The connection's view of its socket and of the clock. The Winsock calls
 * are not modelled; instead the peer's behaviour is a script the caller
 * supplies: what each round of the read loop sees (with the reading of
 * `GetTickCount` for that round), and whether each `send` succeeds.
 */
module Transport {
  /** `GetTickCount` returns a 32-bit `DWORD`. */
  const TickModulus: int := 0x1_0000_0000

  type Tick = t: int | 0 <= t < TickModulus

  /** `recv` returns `SOCKET_ERROR` on failure. */
  const SocketError: int := -1

  /** `GetTickCount() - dwStartTicks` in unsigned 32-bit arithmetic: the
      number of ticks that takes `start` to `now`, wrapping past 2^32. */
  function Elapsed(now: Tick, start: Tick): (d: Tick)
    ensures (start + d) % TickModulus == now
    ensures start <= now ==> d == now - start
  {
    if start <= now then now - start else now - start + TickModulus
  }

  /** What the socket does in one round of the read loop, after the
      timeout check. */
  datatype Kind =
    | SelectFails            // `IsReadible` fails: `select` reports an error
    | Deliver(data: string)  // `data` arrives (possibly nothing); readable when bytes wait
    | Closed                 // the peer closed: readable, `recv` takes what waits, 0 bytes when none
    | RecvFails              // readable, but `recv` returns SOCKET_ERROR

  /** One round: the clock reading of the round and what the socket does. */
  datatype Event = Event(now: Tick, kind: Kind)

  /** The socket: the rounds still to come, the bytes that have arrived and
      not been received, the outcome of each coming `send`, the commands sent
      so far and whether the socket handle is open. */
  datatype Net = Net(events: seq<Event>, waiting: string, sendResults: seq<bool>, sent: seq<string>, open: bool)

  /** The bytes a round delivers. */
  function Bytes(ev: Event): string
  {
    if ev.kind.Deliver? then ev.kind.data else []
  }

  /** All the bytes the scripted rounds deliver, in order. */
  function Data(events: seq<Event>): string
  {
    if events == [] then [] else Bytes(events[0]) + Data(events[1..])
  }

  /** `CPop3Socket::Send`: the next scripted outcome, failure once the
      script is used up; a command that was sent is logged. */
  function Send(net: Net, command: string): (r: (bool, Net))
    ensures r.0 ==> r.1.sent == net.sent + [command]
    ensures !r.0 ==> r.1.sent == net.sent
    ensures r.1.events == net.events && r.1.waiting == net.waiting && r.1.open == net.open
    ensures |r.1.sendResults| == if net.sendResults == [] then 0 else |net.sendResults| - 1
  {
    if net.sendResults == [] then (false, net)
    else
      var ok := net.sendResults[0];
      (ok, net.(sendResults := net.sendResults[1..], sent := if ok then net.sent + [command] else net.sent))
  }
}
