/**
 * The watchdog service: it listens for the recorder's status messages,
 * queues the states they name, and shows the latest one on an RGB light
 * whose pins are active-low.
 *
 * Sockets, threads and the GPIO library are not modelled: a received chunk
 * of text is an input, and the light is the triple of pin levels.
 */
module Watchdog {
  import opened States
  import opened Text
  import opened Wrappers
  import Status

  datatype Colour = Off | Red | Green | Blue | Yellow | White

  datatype Level = Low | High

  datatype Primary = RedPin | GreenPin | BluePin

  datatype Pins = Pins(red: Level, green: Level, blue: Level)

  /** The primaries a colour is mixed from. */
  function Primaries(c: Colour): set<Primary>
  {
    match c
    case Off => {}
    case Red => {RedPin}
    case Green => {GreenPin}
    case Blue => {BluePin}
    case Yellow => {RedPin, GreenPin}
    case White => {RedPin, GreenPin, BluePin}
  }

  /** The level of one pin. */
  function Pin(p: Pins, primary: Primary): Level
  {
    match primary
    case RedPin => p.red
    case GreenPin => p.green
    case BluePin => p.blue
  }

  /** `setLight` (watchdog/watchdog.py:28-52): a pin is driven low exactly when the colour uses its primary. */
  function SetLight(c: Colour): (p: Pins)
    ensures forall primary :: Pin(p, primary) == Low <==> primary in Primaries(c)
  {
    match c
    case Off => Pins(High, High, High)
    case Red => Pins(Low, High, High)
    case Green => Pins(High, Low, High)
    case Blue => Pins(High, High, Low)
    case Yellow => Pins(Low, Low, High)
    case White => Pins(Low, Low, Low)
  }

  /** Different colours drive the pins differently. */
  lemma SetLightInjective(c: Colour, d: Colour)
    requires SetLight(c) == SetLight(d)
    ensures c == d
  {
    assert Primaries(c) == Primaries(d) by {
      forall primary ensures primary in Primaries(c) <==> primary in Primaries(d) {
        assert Pin(SetLight(c), primary) == Pin(SetLight(d), primary);
      }
    }
  }

  /** The colour `processMessage` shows for a state (watchdog/watchdog.py:90-109). */
  function StateColour(s: DashcamState): (c: Colour)
    ensures c == Off <==> s == Recording
    ensures c == Red <==> s == Dead || s == Error
    ensures c == Blue <==> s == Starting || s == Uploading
    ensures c == Yellow <==> s == FallingBehind
    ensures c == Green <==> s == Converting
  {
    match s
    case Dead => Red
    case Error => Red
    case Starting => Blue
    case Recording => Off
    case FallingBehind => Yellow
    case Converting => Green
    case Uploading => Blue
  }

  /** A Python value: the enum's values are integers, while received pieces are strings. */
  datatype PyValue = PyInt(i: int) | PyStr(s: string)

  /** `DashcamState(v)`: the member whose value equals `v`, or a `ValueError`. */
  function Lookup(v: PyValue): (r: Option<DashcamState>)
    ensures r.Some? <==> v.PyInt? && 0 <= v.i <= 6
    ensures r.Some? ==> v == PyInt(Value(r.value))
  {
    match v
    case PyInt(i) => FromValue(i)
    case PyStr(_) => None
  }

  /** The runner's conversion of a received piece, `DashcamState(message)` (watchdog/watchdog.py:79). */
  function EnumCall(piece: string): (r: Option<DashcamState>)
    ensures r == None
  {
    Lookup(PyStr(piece))
  }

  /**
   * The states a received chunk adds to the queue (watchdog/watchdog.py:71-88),
   * for a conversion `convert` of the pieces between newlines: they are
   * converted in turn; the first failed conversion raises, which queues DEAD
   * and drops the connection.
   */
  function ChunkStates(pieces: seq<string>, convert: string -> Option<DashcamState>): (r: seq<DashcamState>)
    ensures |r| <= |pieces|
  {
    if pieces == [] then []
    else match convert(pieces[0])
      case Some(s) => [s] + ChunkStates(pieces[1..], convert)
      case None => [Dead]
  }

  /** Whether the connection survives the chunk. */
  predicate ChunkAccepted(pieces: seq<string>, convert: string -> Option<DashcamState>)
  {
    forall i :: 0 <= i < |pieces| ==> convert(pieces[i]).Some?
  }

  /**
   * Whatever arrives, the runner as written queues exactly DEAD and drops
   * the connection: the lookup compares a string with integer values, so
   * the first piece already fails.
   */
  lemma EveryChunkQueuesDead(chunk: string)
    ensures ChunkStates(Split(chunk, '\n'), EnumCall) == [Dead]
    ensures !ChunkAccepted(Split(chunk, '\n'), EnumCall)
  {
    var pieces := Split(chunk, '\n');
    assert EnumCall(pieces[0]) == None;
  }

  /**
   * How a chunk is evidently meant to be read: each non-empty piece is one
   * character whose code is the state's number, as the recorder sends it.
   */
  function DecodeIntended(pieces: seq<string>): (r: seq<DashcamState>)
    ensures |r| <= |pieces|
  {
    if pieces == [] then []
    else if pieces[0] == [] then DecodeIntended(pieces[1..])
    else match (if |pieces[0]| == 1 then FromValue(pieces[0][0] as int) else None)
      case Some(s) => [s] + DecodeIntended(pieces[1..])
      case None => [Dead]
  }

  /** The intended conversion of one non-empty piece: a single character whose code is a state's number. */
  function IntendedPiece(piece: string): (r: Option<DashcamState>)
    ensures r.Some? <==> |piece| == 1 && 0 <= piece[0] as int <= 6
    ensures r.Some? ==> Value(r.value) == piece[0] as int
  {
    if |piece| == 1 then FromValue(piece[0] as int) else None
  }

  /** The pieces that are not empty, in order. */
  function NonEmpty(pieces: seq<string>): (r: seq<string>)
    ensures |r| <= |pieces|
    ensures forall i :: 0 <= i < |r| ==> r[i] != []
  {
    if pieces == [] then []
    else if pieces[0] == [] then NonEmpty(pieces[1..])
    else [pieces[0]] + NonEmpty(pieces[1..])
  }

  /**
   * The intended reading is the runner's chunk loop with the intended
   * conversion, once the empty pieces are dropped.
   */
  lemma {:induction false} DecodeIntendedIsChunkStates(pieces: seq<string>)
    ensures DecodeIntended(pieces) == ChunkStates(NonEmpty(pieces), IntendedPiece)
    decreases |pieces|
  {
    if pieces != [] {
      DecodeIntendedIsChunkStates(pieces[1..]);
      if pieces[0] != [] {
        assert NonEmpty(pieces)[1..] == NonEmpty(pieces[1..]);
      }
    }
  }

  /** The text of the recorder's messages for `states`, as the runner decodes it. */
  function WireText(states: seq<DashcamState>): (r: string)
    ensures |r| == 2 * |states|
  {
    if states == [] then [] else [Value(states[0]) as char, '\n'] + WireText(states[1..])
  }

  lemma {:induction false} WireTextMatchesMessages(s: DashcamState)
    ensures WireText([s]) == [Status.Message(s)[0] as int as char, Status.Message(s)[1] as int as char]
  {
    assert [s][1..] == [];
  }

  lemma {:induction false} SplitWireText(states: seq<DashcamState>)
    ensures Split(WireText(states), '\n') == Singletons(states) + [[]]
  {
    if states != [] {
      var c := Value(states[0]) as char;
      SplitWireText(states[1..]);
      assert WireText(states) == [c] + ['\n'] + WireText(states[1..]);
      SplitAround([c], WireText(states[1..]), '\n');
      SplitWithoutSeparator([c], '\n');
    }
  }

  function Singletons(states: seq<DashcamState>): seq<string>
  {
    if states == [] then [] else [[Value(states[0]) as char]] + Singletons(states[1..])
  }

  lemma {:induction false} DecodeSingletons(states: seq<DashcamState>)
    ensures DecodeIntended(Singletons(states) + [[]]) == states
  {
    if states != [] {
      var pieces := Singletons(states) + [[]];
      assert pieces[1..] == Singletons(states[1..]) + [[]];
      ValueRoundTrip(states[0]);
      DecodeSingletons(states[1..]);
    } else {
      var pieces: seq<string> := [[]];
      assert pieces[1..] == [];
    }
  }

  /** Read as intended, a chunk carrying the recorder's messages yields exactly their states, in order. */
  lemma {:induction false} DecodeWireText(states: seq<DashcamState>)
    ensures DecodeIntended(Split(WireText(states), '\n')) == states
  {
    SplitWireText(states);
    DecodeSingletons(states);
  }

  /** The queue shared by the runner and the main loop, and the light. */
  class Light {
    var queue: seq<DashcamState>
    var pins: Pins

    /** Start-up (watchdog/watchdog.py:123-125): the light is red and nothing is queued. */
    constructor ()
      ensures queue == [] && pins == SetLight(Red)
    {
      queue := [];
      pins := SetLight(Red);
    }

    /**
     * The runner's handling of one received chunk (watchdog/watchdog.py:71-88):
     * the states of the pieces are appended until a conversion raises, which
     * appends DEAD and ends the connection. The runner's conversion is
     * `EnumCall`.
     */
    method ReceiveChunk(chunk: string, convert: string -> Option<DashcamState>) returns (connected: bool)
      modifies this
      ensures queue == old(queue) + ChunkStates(Split(chunk, '\n'), convert)
      ensures connected == ChunkAccepted(Split(chunk, '\n'), convert)
      ensures pins == old(pins)
    {
      var messages := Split(chunk, '\n');
      var i := 0;
      while i < |messages|
        invariant 0 <= i <= |messages|
        invariant forall j :: 0 <= j < i ==> convert(messages[j]).Some?
        invariant old(queue) + ChunkStates(messages, convert) == queue + ChunkStates(messages[i..], convert)
        invariant pins == old(pins)
      {
        assert messages[i..][1..] == messages[i + 1..];
        match convert(messages[i]) {
          case Some(s) =>
            queue := queue + [s];
          case None =>
            queue := queue + [Dead];
            return false;
        }
        i := i + 1;
      }
      assert messages[i..] == [];
      return true;
    }

    /** A connection that fails in `recv` (watchdog/watchdog.py:83-88) queues DEAD. */
    method ConnectionLost()
      modifies this
      ensures queue == old(queue) + [Dead] && pins == old(pins)
    {
      queue := queue + [Dead];
    }

    /**
     * One pass of the main loop (watchdog/watchdog.py:132-143), once the
     * queue is non-empty: every pending state is taken, the queue is left
     * empty, and only the last state is shown.
     */
    method TakeBatch() returns (messages: seq<DashcamState>)
      requires queue != []
      modifies this
      ensures messages == old(queue) && queue == []
      ensures pins == SetLight(StateColour(messages[|messages| - 1]))
    {
      messages := queue;
      queue := [];
      pins := SetLight(StateColour(messages[|messages| - 1]));
    }
  }
}
