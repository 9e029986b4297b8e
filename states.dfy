/**
 * The dashcam's states, as both the recorder and the watchdog number them.
 */
module States {
  import opened Wrappers

  datatype DashcamState = Dead | Error | Starting | Recording | FallingBehind | Converting | Uploading

  /** The state's number on the wire. */
  function Value(s: DashcamState): (v: nat)
    ensures v <= 6
  {
    match s
    case Dead => 0
    case Error => 1
    case Starting => 2
    case Recording => 3
    case FallingBehind => 4
    case Converting => 5
    case Uploading => 6
  }

  /** The state numbered `v`, if there is one: the inverse of `Value`. */
  function FromValue(v: int): (r: Option<DashcamState>)
    ensures r.Some? <==> 0 <= v <= 6
    ensures r.Some? ==> Value(r.value) == v
  {
    if v == 0 then Some(Dead)
    else if v == 1 then Some(Error)
    else if v == 2 then Some(Starting)
    else if v == 3 then Some(Recording)
    else if v == 4 then Some(FallingBehind)
    else if v == 5 then Some(Converting)
    else if v == 6 then Some(Uploading)
    else None
  }

  /** Numbering is one-to-one: a state is recovered from its number. */
  lemma ValueRoundTrip(s: DashcamState)
    ensures FromValue(Value(s)) == Some(s)
  {
  }
}
