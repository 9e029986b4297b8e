/**
 * The recorder's status link to the watchdog: a TCP socket opened by
 * `initializeStatus`, closed by `shutdownStatus`, over which `setState`
 * sends one two-byte message per state change without waiting.
 *
 * The socket calls are given as their outcomes; the model records the bytes
 * the socket accepted and the descriptors closed.
 */
module Status {
  import opened States
  import opened Wrappers

  const Newline: bv8 := 10

  /** The message for a state: its number, then a newline. */
  function Message(s: DashcamState): (m: seq<bv8>)
    ensures |m| == 2 && m[1] == Newline
    ensures FromValue(m[0] as int) == Some(s)
  {
    ValueRoundTrip(s);
    [Value(s) as bv8, Newline]
  }

  /** Distinct states give distinct messages. */
  lemma MessageInjective(s: DashcamState, t: DashcamState)
    requires Message(s) == Message(t)
    ensures s == t
  {
    assert FromValue(Message(s)[0] as int) == Some(s);
  }

  /** What a non-blocking `send` answers: the number of bytes taken, "would block", or another error. */
  datatype SendResult = Accepted(count: nat) | WouldBlock | SendFailed

  /** The bytes that reach the socket when `setState` runs with descriptor `handle`. */
  function Sent(handle: int, s: DashcamState, result: SendResult): (r: seq<bv8>)
    ensures r <= Message(s)
    ensures handle < 0 ==> r == []
    ensures handle >= 0 && result.Accepted? && result.count >= 2 ==> r == Message(s)
  {
    if handle < 0 then []
    else match result
      case Accepted(count) => Message(s)[..if count < 2 then count else 2]
      case WouldBlock => []
      case SendFailed => []
  }

  /** The descriptor and the list of descriptors closed so far. */
  datatype Link = Link(handle: int, closed: seq<int>)

  /** `shutdownStatus` on a link. */
  function Shutdown(l: Link): (r: Link)
    ensures r.handle < 0
    ensures l.handle >= 0 ==> r == Link(-1, l.closed + [l.handle])
    ensures l.handle < 0 ==> r == l
  {
    if l.handle >= 0 then Link(-1, l.closed + [l.handle]) else l
  }

  /** Shutting down twice is shutting down once. */
  lemma ShutdownIdempotent(l: Link)
    ensures Shutdown(Shutdown(l)) == Shutdown(l)
  {
  }

  class StatusLink {
    /** The socket descriptor; negative when there is none. */
    var socketHandle: int
    /** The bytes the socket accepted, in order. */
    var wire: seq<bv8>
    /** The descriptors closed, in order. */
    var closed: seq<int>
    /** The number of failures written to the error log by `setState`. */
    var errorsLogged: nat

    /** The link before `initializeStatus` (src/status.cpp:9). */
    constructor ()
      ensures socketHandle == -1 && wire == [] && closed == [] && errorsLogged == 0
    {
      socketHandle := -1;
      wire := [];
      closed := [];
      errorsLogged := 0;
    }

    /**
     * `initializeStatus` (src/status.cpp:11-30): `socketResult` is what
     * `socket` returns, `connected` whether `connect` succeeds. A failed
     * connect still leaves the opened descriptor in place.
     */
    method Initialize(socketResult: int, connected: bool) returns (ok: bool)
      modifies this
      ensures socketHandle == socketResult
      ensures ok <==> socketResult >= 0 && connected
      ensures wire == old(wire) && closed == old(closed) && errorsLogged == old(errorsLogged)
    {
      socketHandle := socketResult;
      if socketHandle < 0 {
        return false;
      }
      if !connected {
        return false;
      }
      return true;
    }

    /** `shutdownStatus` (src/status.cpp:32-37). */
    method ShutdownStatus()
      modifies this
      ensures Link(socketHandle, closed) == Shutdown(Link(old(socketHandle), old(closed)))
      ensures wire == old(wire) && errorsLogged == old(errorsLogged)
    {
      if socketHandle >= 0 {
        closed := closed + [socketHandle];
        socketHandle := -1;
      }
    }

    /**
     * `setState` (src/status.cpp:39-53): fills a two-byte buffer and offers
     * it to the socket. "Would block" is ignored, other failures are only
     * logged, and the descriptor never changes.
     */
    method SetState(state: DashcamState, result: SendResult)
      modifies this
      ensures socketHandle == old(socketHandle) && closed == old(closed)
      ensures wire == old(wire) + Sent(socketHandle, state, result)
      ensures errorsLogged == old(errorsLogged) + if socketHandle >= 0 && result == SendFailed then 1 else 0
    {
      if socketHandle >= 0 {
        var buffer := new bv8[2];
        buffer[0] := Value(state) as bv8;
        buffer[1] := Newline;
        match result {
          case Accepted(count) =>
            wire := wire + buffer[..if count < 2 then count else 2];
          case WouldBlock =>
          case SendFailed =>
            errorsLogged := errorsLogged + 1;
        }
      }
    }
  }
}
