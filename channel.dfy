/**
 * Sequential model of the blocking queue `Channel<T>` of src/channel.h.
 *
 * The queue is a class whose `buffer` field is the std::queue, front first.
 * The mutex and condition variables are not modelled: a call that would wait
 * for another thread becomes a precondition (`Push` needs room, `Pop` needs an
 * element). Beside the class, `Apply` and `Replay` describe what a sequence of
 * calls does, and the lemmas about them state FIFO order and the size bound.
 */
module Channels {
  import opened Wrappers

  class Channel<T> {
    /** The capacity given to the constructor; 0 means unbounded. */
    var maxQueueSize: nat
    /** The queued elements, front (next to be popped) first. */
    var buffer: seq<T>

    /** The channel never holds more than a positive capacity. */
    ghost predicate Valid()
      reads this
    {
      maxQueueSize > 0 ==> |buffer| <= maxQueueSize
    }

    /** What `push` waits for before it inserts: no bound, or fewer elements than the bound. */
    predicate HasRoom()
      reads this
    {
      maxQueueSize == 0 || |buffer| < maxQueueSize
    }

    constructor (maxSize: nat)
      ensures Valid()
      ensures maxQueueSize == maxSize && buffer == []
    {
      maxQueueSize := maxSize;
      buffer := [];
    }

    /** Inserts `element` at the back once there is room. */
    method Push(element: T)
      requires Valid() && HasRoom()
      modifies this
      ensures Valid()
      ensures maxQueueSize == old(maxQueueSize)
      ensures buffer == old(buffer) + [element]
    {
      buffer := buffer + [element];
    }

    /** Removes and returns the front element once there is one. */
    method Pop() returns (result: T)
      requires Valid() && buffer != []
      modifies this
      ensures Valid()
      ensures maxQueueSize == old(maxQueueSize)
      ensures result == old(buffer)[0] && buffer == old(buffer)[1..]
    {
      result := buffer[0];
      buffer := buffer[1..];
    }

    /** Removes and returns the front element if there is one; otherwise returns None and changes nothing. */
    method TryPop() returns (result: Option<T>)
      requires Valid()
      modifies this
      ensures Valid()
      ensures maxQueueSize == old(maxQueueSize)
      ensures old(buffer) == [] ==> result == None && buffer == old(buffer)
      ensures old(buffer) != [] ==> result == Some(old(buffer)[0]) && buffer == old(buffer)[1..]
    {
      result := None;
      if buffer != [] {
        result := Some(buffer[0]);
        buffer := buffer[1..];
      }
    }
  }

  /** A call on a channel. */
  datatype Op<T> = PushOp(element: T) | PopOp | TryPopOp

  /** The buffer after some calls and the elements those calls returned, in order. */
  datatype Effect<T> = Effect(buffer: seq<T>, delivered: seq<T>)

  /**
   * One call on a channel of capacity `cap` holding `buf`, or None when the call
   * would wait for another thread (a full bounded buffer for push, an empty one for pop).
   */
  function Apply<T>(cap: nat, buf: seq<T>, op: Op<T>): (r: Option<Effect<T>>)
    ensures r.Some? ==> r.value.delivered + r.value.buffer == buf + (if op.PushOp? then [op.element] else [])
    ensures r.None? <==> (op.PushOp? && cap > 0 && |buf| >= cap) || (op.PopOp? && buf == [])
  {
    match op
    case PushOp(x) => if cap == 0 || |buf| < cap then Some(Effect(buf + [x], [])) else None
    case PopOp => if buf != [] then Some(Effect(buf[1..], [buf[0]])) else None
    case TryPopOp => if buf != [] then Some(Effect(buf[1..], [buf[0]])) else Some(Effect(buf, []))
  }

  /** The calls `ops` made one after the other, or None if one of them would wait forever. */
  function Replay<T>(cap: nat, buf: seq<T>, ops: seq<Op<T>>): (r: Option<Effect<T>>)
    ensures r.Some? ==> |r.value.delivered| <= |ops|
    decreases |ops|
  {
    if ops == [] then Some(Effect(buf, []))
    else
      var first := Apply(cap, buf, ops[0]);
      if first.None? then None
      else
        var rest := Replay(cap, first.value.buffer, ops[1..]);
        if rest.None? then None
        else Some(Effect(rest.value.buffer, first.value.delivered + rest.value.delivered))
  }

  /** The elements pushed by `ops`, in call order. */
  function Pushed<T>(ops: seq<Op<T>>): seq<T>
  {
    if ops == [] then []
    else (if ops[0].PushOp? then [ops[0].element] else []) + Pushed(ops[1..])
  }

  /** FIFO: what comes out, followed by what is still queued, is what was queued plus what was pushed, in order. */
  lemma {:induction false} ReplayIsFifo<T>(cap: nat, buf: seq<T>, ops: seq<Op<T>>)
    requires Replay(cap, buf, ops).Some?
    ensures Replay(cap, buf, ops).value.delivered + Replay(cap, buf, ops).value.buffer == buf + Pushed(ops)
    decreases |ops|
  {
    if ops != [] {
      var e := Apply(cap, buf, ops[0]).value;
      ReplayIsFifo(cap, e.buffer, ops[1..]);
      var rest := Replay(cap, e.buffer, ops[1..]).value;
      var pushed := if ops[0].PushOp? then [ops[0].element] else [];
      assert Replay(cap, buf, ops).value == Effect(rest.buffer, e.delivered + rest.delivered);
      assert Pushed(ops) == pushed + Pushed(ops[1..]);
      calc {
        e.delivered + rest.delivered + rest.buffer;
        e.delivered + (e.buffer + Pushed(ops[1..]));
        (e.delivered + e.buffer) + Pushed(ops[1..]);
        buf + pushed + Pushed(ops[1..]);
      }
    }
  }

  /** A channel with a positive capacity never holds more than that capacity, whatever calls complete. */
  lemma {:induction false} ReplayRespectsCapacity<T>(cap: nat, buf: seq<T>, ops: seq<Op<T>>)
    requires cap > 0 && |buf| <= cap
    requires Replay(cap, buf, ops).Some?
    ensures |Replay(cap, buf, ops).value.buffer| <= cap
    decreases |ops|
  {
    if ops != [] {
      var e := Apply(cap, buf, ops[0]).value;
      ReplayRespectsCapacity(cap, e.buffer, ops[1..]);
    }
  }

  /** With capacity 0 pushes never wait: any run of pushes completes and queues everything in order. */
  lemma {:induction false} UnboundedPushesNeverWait<T>(buf: seq<T>, ops: seq<Op<T>>)
    requires forall i :: 0 <= i < |ops| ==> ops[i].PushOp?
    ensures Replay(0, buf, ops) == Some(Effect(buf + Pushed(ops), []))
    decreases |ops|
  {
    if ops != [] {
      var x := ops[0].element;
      assert forall i :: 0 <= i < |ops[1..]| ==> ops[1..][i].PushOp? by {
        forall i | 0 <= i < |ops[1..]| ensures ops[1..][i].PushOp? {
          assert ops[1..][i] == ops[i + 1];
        }
      }
      assert Apply(0, buf, ops[0]) == Some(Effect(buf + [x], []));
      UnboundedPushesNeverWait(buf + [x], ops[1..]);
      var none: seq<T> := [];
      assert none + none == none;
      assert Replay(0, buf, ops) == Some(Effect(buf + [x] + Pushed(ops[1..]), none));
      assert Pushed(ops) == [x] + Pushed(ops[1..]);
      assert buf + [x] + Pushed(ops[1..]) == buf + Pushed(ops);
    } else {
      assert buf + Pushed(ops) == buf;
    }
  }

  /** Replay of a non-empty call sequence is its first call followed by the replay of the rest. */
  lemma ReplayStep<T>(cap: nat, buf: seq<T>, ops: seq<Op<T>>)
    requires ops != [] && Replay(cap, buf, ops).Some?
    ensures Apply(cap, buf, ops[0]).Some?
    ensures Replay(cap, Apply(cap, buf, ops[0]).value.buffer, ops[1..]).Some?
    ensures Replay(cap, buf, ops).value
      == Effect(Replay(cap, Apply(cap, buf, ops[0]).value.buffer, ops[1..]).value.buffer,
                Apply(cap, buf, ops[0]).value.delivered + Replay(cap, Apply(cap, buf, ops[0]).value.buffer, ops[1..]).value.delivered)
  {
  }

  /** Performs one call on `ch`; it does what `Apply` says. */
  method Perform<T>(ch: Channel<T>, op: Op<T>) returns (out: seq<T>)
    requires ch.Valid() && Apply(ch.maxQueueSize, ch.buffer, op).Some?
    modifies ch
    ensures ch.Valid() && ch.maxQueueSize == old(ch.maxQueueSize)
    ensures Apply(ch.maxQueueSize, old(ch.buffer), op) == Some(Effect(ch.buffer, out))
  {
    match op {
      case PushOp(x) =>
        ch.Push(x);
        out := [];
      case PopOp =>
        var y := ch.Pop();
        out := [y];
      case TryPopOp =>
        var y := ch.TryPop();
        out := if y.Some? then [y.value] else [];
    }
  }

  /**
   * Runs `ops` on a fresh `Channel` object of capacity `cap`: the object returns
   * exactly what the call-sequence model says and ends with the same buffer.
   */
  method RunOnChannel<T>(cap: nat, ops: seq<Op<T>>) returns (delivered: seq<T>, final: seq<T>)
    requires Replay(cap, [], ops).Some?
    ensures Replay(cap, [], ops) == Some(Effect(final, delivered))
    ensures delivered + final == Pushed(ops)
  {
    var ch := new Channel<T>(cap);
    ghost var total := Replay(cap, [], ops).value;
    delivered := [];
    var i := 0;
    while i < |ops|
      decreases |ops| - i
      invariant 0 <= i <= |ops|
      invariant ch.Valid() && ch.maxQueueSize == cap
      invariant Replay(cap, ch.buffer, ops[i..]).Some?
      invariant total == Effect(Replay(cap, ch.buffer, ops[i..]).value.buffer,
                                delivered + Replay(cap, ch.buffer, ops[i..]).value.delivered)
    {
      ghost var buf := ch.buffer;
      ReplayStep(cap, buf, ops[i..]);
      assert ops[i..][0] == ops[i] && ops[i..][1..] == ops[i + 1..];
      var out := Perform(ch, ops[i]);
      ghost var rest := Replay(cap, ch.buffer, ops[i + 1..]).value;
      assert delivered + (out + rest.delivered) == delivered + out + rest.delivered;
      delivered := delivered + out;
      i := i + 1;
    }
    assert ops[i..] == [] && delivered + [] == delivered;
    final := ch.buffer;
    ReplayIsFifo(cap, [], ops);
  }
}
