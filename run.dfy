/**
 * The recording loop: `processFrame`, which hands one demuxed packet to the
 * decoder, re-encodes what comes out and writes the encoded packets to the
 * current file, and `run`, which repeats that for every packet read and
 * rotates the output file (and rebuilds the encoder) once the file's byte
 * budget is spent.
 *
 * The codec library is not modelled: the decoder and the encoder are scripts
 * of the replies they give, consumed in order.
 */
module Recording {
  import opened DiskStorage

  /** What `avcodec_receive_frame` answers; `Frame` carries whether the encoder then accepts that frame. */
  datatype DecodeReply = Frame(accepted: bool) | DecoderAgain | DecoderEof | DecoderError

  /** What `avcodec_receive_packet` answers. */
  datatype PacketReply = Packet(size: nat) | EncoderAgain | EncoderEof | EncoderError

  /** The replies the decoder and the encoder have still to give. A script that has run out answers "again". */
  datatype Codec = Codec(frames: seq<DecodeReply>, packets: seq<PacketReply>)

  /** The result of one `processFrame` call: the bytes it reports, or the process exits. */
  datatype Outcome = Wrote(bytes: nat) | Fatal

  /** The result of a call together with the packet sizes written and the replies left over. */
  datatype Step = Step(outcome: Outcome, written: seq<nat>, rest: Codec)

  /** Sign of the last library call's status; errors other than "try again"/"end of stream" leave at once. */
  datatype Status = Ok | Again

  function Sum(xs: seq<nat>): nat
  {
    if xs == [] then 0 else xs[0] + Sum(xs[1..])
  }

  lemma {:induction false} SumAppend(xs: seq<nat>, x: nat)
    ensures Sum(xs + [x]) == Sum(xs) + x
  {
    if xs != [] {
      assert (xs + [x])[1..] == xs[1..] + [x];
      SumAppend(xs[1..], x);
    }
  }

  function NextFrame(c: Codec): (r: (DecodeReply, Codec))
    ensures r.1.packets == c.packets
    ensures c.frames == [] ==> r == (DecoderAgain, c)
    ensures c.frames != [] ==> r == (c.frames[0], Codec(c.frames[1..], c.packets))
  {
    if c.frames == [] then (DecoderAgain, c) else (c.frames[0], Codec(c.frames[1..], c.packets))
  }

  function NextPacket(c: Codec): (r: (PacketReply, Codec))
    ensures r.1.frames == c.frames
    ensures c.packets == [] ==> r == (EncoderAgain, c)
    ensures c.packets != [] ==> r == (c.packets[0], Codec(c.frames, c.packets[1..]))
  {
    if c.packets == [] then (EncoderAgain, c) else (c.packets[0], Codec(c.frames, c.packets[1..]))
  }

  /** The sizes of the packets the encoder hands out before it first answers something other than a packet. */
  function LeadingPackets(packets: seq<PacketReply>): seq<nat>
  {
    if packets == [] || !packets[0].Packet? then [] else [packets[0].size] + LeadingPackets(packets[1..])
  }

  /** The replies left once the leading packets and the reply that ends them are taken. */
  function AfterDrain(packets: seq<PacketReply>): (r: seq<PacketReply>)
    ensures |r| <= |packets|
  {
    if packets == [] then []
    else if packets[0].Packet? then AfterDrain(packets[1..])
    else packets[1..]
  }

  /** Whether the packet drain ends on an encoder error rather than "again"/"end of stream". */
  predicate DrainFails(packets: seq<PacketReply>)
  {
    packets != [] && (packets[0].EncoderError? || (packets[0].Packet? && DrainFails(packets[1..])))
  }

  /**
   * One `processFrame` call as the code behaves: after the encoder's packets
   * for the first decoded frame are drained, the status is negative, so the
   * outer loop ends too and at most one frame is taken from the decoder.
   */
  function ProcessOnce(sendAccepted: bool, codec: Codec): (r: Step)
    ensures r.outcome.Wrote? ==> r.outcome.bytes == Sum(r.written)
  {
    if !sendAccepted then Step(Wrote(0), [], codec)
    else
      var (reply, c) := NextFrame(codec);
      match reply
      case DecoderAgain => Step(Wrote(0), [], c)
      case DecoderEof => Step(Wrote(0), [], c)
      case DecoderError => Step(Fatal, [], c)
      case Frame(accepted) =>
        if !accepted then Step(Wrote(0), [], c)
        else
          var sizes := LeadingPackets(c.packets);
          var rest := Codec(c.frames, AfterDrain(c.packets));
          if DrainFails(c.packets) then Step(Fatal, sizes, rest) else Step(Wrote(Sum(sizes)), sizes, rest)
  }

  /**
   * What one call does: nothing when the packet is refused; otherwise it
   * takes at most the first frame, writes the leading packets, and exits
   * exactly on a decoding error or an encoder error while draining; a frame
   * the encoder refuses is skipped.
   */
  lemma ProcessOnceCases(sendAccepted: bool, codec: Codec)
    ensures var r := ProcessOnce(sendAccepted, codec);
      && (!sendAccepted ==> r == Step(Wrote(0), [], codec))
      && (r.rest.frames == codec.frames || (codec.frames != [] && r.rest.frames == codec.frames[1..]))
      && (r.written == [] || r.written == LeadingPackets(codec.packets))
      && (r.outcome == Fatal <==>
           sendAccepted && codec.frames != [] &&
           (codec.frames[0] == DecoderError || (codec.frames[0] == Frame(true) && DrainFails(codec.packets))))
      && (sendAccepted && codec.frames != [] && codec.frames[0] == Frame(false) ==>
           r == Step(Wrote(0), [], Codec(codec.frames[1..], codec.packets)))
  {
  }

  /** `processFrame` (src/run.cpp:25-65), with `exit(1)` as the `Fatal` outcome. */
  method ProcessFrame(sendAccepted: bool, codec: Codec) returns (outcome: Outcome, written: seq<nat>, rest: Codec)
    ensures Step(outcome, written, rest) == ProcessOnce(sendAccepted, codec)
    ensures outcome.Wrote? ==> outcome.bytes == Sum(written)
  {
    if !sendAccepted {
      return Wrote(0), [], codec;
    }
    var bytesWritten := 0;
    written := [];
    rest := codec;
    var ret := Ok;
    while ret == Ok
      invariant ret == Ok ==> written == [] && rest == codec
      invariant ret != Ok ==> Step(Wrote(bytesWritten), written, rest) == ProcessOnce(sendAccepted, codec)
      invariant bytesWritten == Sum(written)
      decreases ret == Ok
    {
      var reply;
      reply, rest := NextFrame(rest).0, NextFrame(rest).1;
      match reply {
        case DecoderAgain =>
          return Wrote(bytesWritten), written, rest;
        case DecoderEof =>
          return Wrote(bytesWritten), written, rest;
        case DecoderError =>
          return Fatal, written, rest;
        case Frame(accepted) =>
          if !accepted {
            return Wrote(bytesWritten), written, rest;
          }
          ghost var drained := rest;
          while ret == Ok
            invariant rest.frames == drained.frames
            invariant bytesWritten == Sum(written)
            invariant ret == Ok ==> written + LeadingPackets(rest.packets) == LeadingPackets(drained.packets)
            invariant ret == Ok ==> AfterDrain(rest.packets) == AfterDrain(drained.packets)
            invariant ret == Ok ==> DrainFails(rest.packets) == DrainFails(drained.packets)
            invariant ret != Ok ==> written == LeadingPackets(drained.packets)
            invariant ret != Ok ==> rest.packets == AfterDrain(drained.packets) && !DrainFails(drained.packets)
            decreases |rest.packets|, ret == Ok
          {
            var packet;
            packet, rest := NextPacket(rest).0, NextPacket(rest).1;
            match packet {
              case EncoderAgain =>
                ret := Again;
                assert written + [] == written;
              case EncoderEof =>
                ret := Again;
                assert written + [] == written;
              case EncoderError =>
                return Fatal, written, rest;
              case Packet(size) =>
                SumAppend(written, size);
                written := written + [size];
                bytesWritten := bytesWritten + size;
            }
          }
      }
    }
    outcome := Wrote(bytesWritten);
  }

  /** Without an encoder error, the bytes written are exactly the sizes the encoder handed out, in order. */
  lemma {:induction false} DrainWritesPacketSizes(packets: seq<PacketReply>)
    requires forall i :: 0 <= i < |packets| ==> packets[i] != EncoderError
    ensures !DrainFails(packets)
    ensures forall i :: 0 <= i < |AfterDrain(packets)| ==> AfterDrain(packets)[i] != EncoderError
    ensures |LeadingPackets(packets)| <= |packets|
    ensures forall i :: 0 <= i < |LeadingPackets(packets)| ==> packets[i] == Packet(LeadingPackets(packets)[i])
  {
    if packets != [] && packets[0].Packet? {
      DrainWritesPacketSizes(packets[1..]);
      var l := LeadingPackets(packets);
      forall i | 0 <= i < |l| ensures packets[i] == Packet(l[i]) {
        if i > 0 {
          assert l[i] == LeadingPackets(packets[1..])[i - 1];
        }
      }
    }
  }

  /**
   * `processFrame` as its loops are evidently meant to work: after a frame's
   * packets are drained, decoding resumes, so every frame the decoder holds
   * is re-encoded before the call returns.
   */
  function ProcessAll(sendAccepted: bool, codec: Codec): (r: Step)
    ensures r.outcome.Wrote? ==> r.outcome.bytes == Sum(r.written)
  {
    if !sendAccepted then Step(Wrote(0), [], codec) else DrainFrames(codec, [])
  }

  function DrainFrames(codec: Codec, written: seq<nat>): (r: Step)
    ensures r.outcome.Wrote? ==> r.outcome.bytes == Sum(r.written)
    decreases |codec.frames|
  {
    var (reply, c) := NextFrame(codec);
    match reply
    case DecoderAgain => Step(Wrote(Sum(written)), written, c)
    case DecoderEof => Step(Wrote(Sum(written)), written, c)
    case DecoderError => Step(Fatal, written, c)
    case Frame(accepted) =>
      if !accepted then Step(Wrote(Sum(written)), written, c)
      else
        var rest := Codec(c.frames, AfterDrain(c.packets));
        if DrainFails(c.packets) then Step(Fatal, written + LeadingPackets(c.packets), rest)
        else DrainFrames(rest, written + LeadingPackets(c.packets))
  }

  /** The corrected drain takes every frame the decoder holds, as long as the encoder accepts them and does not fail. */
  lemma {:induction false} DrainFramesTakesEveryFrame(codec: Codec, written: seq<nat>)
    requires forall i :: 0 <= i < |codec.frames| ==> codec.frames[i] == Frame(true)
    requires forall i :: 0 <= i < |codec.packets| ==> codec.packets[i] != EncoderError
    ensures DrainFrames(codec, written).outcome.Wrote?
    ensures DrainFrames(codec, written).rest.frames == []
    ensures |DrainFrames(codec, written).written| >= |written|
    decreases |codec.frames|
  {
    if codec.frames != [] {
      DrainWritesPacketSizes(codec.packets);
      var rest := Codec(codec.frames[1..], AfterDrain(codec.packets));
      DrainFramesTakesEveryFrame(rest, written + LeadingPackets(codec.packets));
    }
  }

  /**
   * Two frames buffered in the decoder: the code as written re-encodes only
   * the first and reports its 10 bytes, leaving the second frame behind; the
   * corrected drain re-encodes both and reports 30.
   */
  lemma SecondFrameLeftBehind()
    ensures var codec := Codec([Frame(true), Frame(true)], [Packet(10), EncoderAgain, Packet(20)]);
      && ProcessOnce(true, codec) == Step(Wrote(10), [10], Codec([Frame(true)], [Packet(20)]))
      && ProcessAll(true, codec) == Step(Wrote(30), [10, 20], Codec([], []))
  {
    var codec := Codec([Frame(true), Frame(true)], [Packet(10), EncoderAgain, Packet(20)]);
    assert codec.packets[1..] == [EncoderAgain, Packet(20)];
    assert LeadingPackets(codec.packets) == [10] by {
      assert LeadingPackets(codec.packets[1..]) == [];
    }
    assert !DrainFails(codec.packets);
    assert AfterDrain(codec.packets) == [Packet(20)];
    assert Sum([10]) == 10 by { assert [10][1..] == []; }
    var second := Codec([Frame(true)], [Packet(20)]);
    assert [Packet(20)][1..] == [];
    assert LeadingPackets(second.packets) == [20];
    assert !DrainFails(second.packets);
    assert AfterDrain(second.packets) == [];
    assert [10] + [20] == [10, 20];
    assert Sum([10, 20]) == 30 by { assert [10, 20][1..] == [20]; assert [20][1..] == []; }
    assert DrainFrames(Codec([], []), [10, 20]) == Step(Wrote(30), [10, 20], Codec([], []));
    assert DrainFrames(second, [10]) == Step(Wrote(30), [10, 20], Codec([], []));
  }

  /** How `run` ends: it returns 0 after the final flush, returns 1 on a setup or storage failure, or the process exits in `processFrame`. */
  datatype RunEnd = Completed(flushed: nat) | Failed | Aborted

  function Flatten(files: seq<seq<nat>>): seq<nat>
  {
    if files == [] then [] else Flatten(files[..|files| - 1]) + files[|files| - 1]
  }

  /** The bytes each call reports, in order; a fatal call reports none. */
  function Bytes(calls: seq<Outcome>): seq<nat>
  {
    if calls == [] then []
    else Bytes(calls[..|calls| - 1]) + (if calls[|calls| - 1].Wrote? then [calls[|calls| - 1].bytes] else [])
  }

  /** The byte budget left in a file once `written` bytes went into it: `spaceRemaining` never goes below zero. */
  function Budget(written: nat): nat
  {
    if written >= MaxFileSize then 0 else MaxFileSize - written
  }

  /** Charging `b` more bytes leaves the budget `before - min(b, before)`. */
  lemma BudgetStep(written: nat, b: nat)
    ensures var before := Budget(written);
      Budget(written + b) == before - if b < before then b else before
  {
  }

  /** Every file but the last was closed only once its budget was spent. */
  ghost predicate ClosedWhenFull(files: seq<seq<nat>>)
  {
    forall j :: 0 <= j < |files| - 1 ==> Sum(files[j]) >= MaxFileSize
  }

  /** Each file was still under budget before its last `processFrame` call: a file overshoots by at most one call. */
  ghost predicate OvershootByOneCall(files: seq<seq<nat>>)
  {
    forall j :: 0 <= j < |files| && files[j] != [] ==> Sum(files[j][..|files[j]| - 1]) < MaxFileSize
  }

  /** The current file with one more call's bytes. */
  function AddToLast(files: seq<seq<nat>>, b: nat): (r: seq<seq<nat>>)
    requires files != []
    ensures |r| == |files| && r[..|r| - 1] == files[..|files| - 1]
    ensures r[|r| - 1] == files[|files| - 1] + [b]
  {
    files[..|files| - 1] + [files[|files| - 1] + [b]]
  }

  lemma FlattenAddToLast(files: seq<seq<nat>>, calls: seq<Outcome>, b: nat)
    requires files != [] && Flatten(files) == Bytes(calls)
    ensures Flatten(AddToLast(files, b)) == Bytes(calls + [Wrote(b)])
  {
    assert (calls + [Wrote(b)])[..|calls|] == calls;
  }

  lemma BoundsAddToLast(files: seq<seq<nat>>, b: nat)
    requires files != [] && ClosedWhenFull(files) && OvershootByOneCall(files)
    requires Sum(files[|files| - 1]) < MaxFileSize
    ensures ClosedWhenFull(AddToLast(files, b)) && OvershootByOneCall(AddToLast(files, b))
    ensures Sum(AddToLast(files, b)[|files| - 1]) == Sum(files[|files| - 1]) + b
  {
    var last := files[|files| - 1];
    var next := AddToLast(files, b);
    SumAppend(last, b);
    assert (last + [b])[..|last|] == last;
    forall j | 0 <= j < |next| - 1 ensures next[j] == files[j] {
      assert next[j] == next[..|next| - 1][j];
    }
  }

  /** The bookkeeping when a fresh file is opened after the current one is full. */
  lemma OpenFile(files: seq<seq<nat>>)
    requires files != [] && ClosedWhenFull(files) && OvershootByOneCall(files)
    requires Sum(files[|files| - 1]) >= MaxFileSize
    ensures Flatten(files + [[]]) == Flatten(files)
    ensures ClosedWhenFull(files + [[]]) && OvershootByOneCall(files + [[]])
  {
    var next := files + [[]];
    assert next[..|files|] == files;
    assert Flatten(files) + [] == Flatten(files);
    forall j | 0 <= j < |next| - 1 ensures Sum(next[j]) >= MaxFileSize {
      assert next[j] == files[j];
    }
    forall j | 0 <= j < |next| && next[j] != [] ensures Sum(next[j][..|next[j]| - 1]) < MaxFileSize {
      assert next[j] == files[j];
    }
  }

  /**
   * What the recording loop keeps true: the first `handled` calls all returned,
   * their bytes went into the files in order, files were rotated only when full,
   * and no file overshoots by more than one call.
   */
  ghost predicate Recorded(files: seq<seq<nat>>, calls: seq<Outcome>, handled: nat)
  {
    && handled <= |calls|
    && (forall i :: 0 <= i < handled ==> calls[i].Wrote?)
    && Flatten(files) == Bytes(calls[..handled])
    && ClosedWhenFull(files)
    && OvershootByOneCall(files)
  }

  /** One more call's bytes go into the current file, which was not yet full. */
  lemma RecordCall(files: seq<seq<nat>>, calls: seq<Outcome>, handled: nat, b: nat)
    requires files != [] && Recorded(files, calls, handled)
    requires handled < |calls| && calls[handled] == Wrote(b)
    requires Sum(files[|files| - 1]) < MaxFileSize
    ensures Recorded(AddToLast(files, b), calls, handled + 1)
    ensures Sum(AddToLast(files, b)[|files| - 1]) == Sum(files[|files| - 1]) + b
  {
    FlattenAddToLast(files, calls[..handled], b);
    BoundsAddToLast(files, b);
    assert calls[..handled + 1] == calls[..handled] + [Wrote(b)];
  }

  /** A full file is followed by a fresh, empty one. */
  lemma RecordRotation(files: seq<seq<nat>>, calls: seq<Outcome>, handled: nat)
    requires files != [] && Recorded(files, calls, handled)
    requires Sum(files[|files| - 1]) >= MaxFileSize
    ensures Recorded(files + [[]], calls, handled)
  {
    OpenFile(files);
  }

  /**
   * `run` (src/run.cpp:67-153). The codec setups and the frame allocation are
   * given as their outcomes. Storage requests succeed until the first one
   * that fails: the first `storageGrants` requests open a file, the next one
   * fails. Likewise the first `rebuildsOk` encoder rebuilds succeed. `calls`
   * holds what `processFrame` returns for each packet read, `flush` what the
   * final flush returns. The result lists, per file, the bytes of every call
   * written into it, and how many packets were handled.
   */
  method Run(decoderReady: bool, encoderReady: bool, storageGrants: nat, frameAllocated: bool,
             calls: seq<Outcome>, rebuildsOk: nat, flush: Outcome)
    returns (end: RunEnd, files: seq<seq<nat>>, handled: nat)
    ensures Recorded(files, calls, handled)
    ensures files != [] <==> decoderReady && encoderReady && storageGrants > 0
    ensures |files| <= storageGrants && (end != Failed ==> |files| <= rebuildsOk + 1)
    ensures end.Completed? ==> handled == |calls| && flush == Wrote(end.flushed)
    ensures end == Aborted ==> (handled < |calls| && calls[handled] == Fatal) || (handled == |calls| && flush == Fatal)
    ensures !(decoderReady && encoderReady && storageGrants > 0 && frameAllocated) ==>
      end == Failed && handled == 0 && (files == [] || files == [[]])
    ensures end == Failed && files != [] && frameAllocated ==>
      handled < |calls| &&
      ((|files| == storageGrants && Sum(files[|files| - 1]) >= MaxFileSize) ||
       (|files| == rebuildsOk + 2 && files[|files| - 1] == []))
  {
    files := [];
    handled := 0;
    if !decoderReady || !encoderReady {
      return Failed, files, handled;
    }
    if storageGrants == 0 {
      return Failed, files, handled;
    }
    if !frameAllocated {
      return Failed, [[]], handled;
    }
    end, files, handled := Record(storageGrants, calls, rebuildsOk, flush);
  }

  /**
   * The packet loop and the final flush of `run` (src/run.cpp:96-133), once
   * the first file is open with a full budget.
   */
  method Record(storageGrants: nat, calls: seq<Outcome>, rebuildsOk: nat, flush: Outcome)
    returns (end: RunEnd, files: seq<seq<nat>>, handled: nat)
    requires storageGrants > 0
    ensures Recorded(files, calls, handled) && files != []
    ensures |files| <= storageGrants && (end != Failed ==> |files| <= rebuildsOk + 1)
    ensures end.Completed? ==> handled == |calls| && flush == Wrote(end.flushed)
    ensures end == Aborted ==> (handled < |calls| && calls[handled] == Fatal) || (handled == |calls| && flush == Fatal)
    ensures end == Failed ==>
      handled < |calls| &&
      ((|files| == storageGrants && Sum(files[|files| - 1]) >= MaxFileSize) ||
       (|files| == rebuildsOk + 2 && files[|files| - 1] == []))
  {
    files := [[]];
    handled := 0;
    var spaceRemaining := MaxFileSize;
    while handled < |calls|
      invariant files != [] && Recorded(files, calls, handled)
      invariant spaceRemaining == Budget(Sum(files[|files| - 1]))
      invariant |files| <= storageGrants && |files| <= rebuildsOk + 1
    {
      if spaceRemaining == 0 {
        if |files| == storageGrants {
          assert Sum(files[|files| - 1]) >= MaxFileSize;
          return Failed, files, handled;
        }
        RecordRotation(files, calls, handled);
        files := files + [[]];
        spaceRemaining := MaxFileSize;
        if |files| - 1 > rebuildsOk {
          return Failed, files, handled;
        }
      }
      match calls[handled] {
        case Fatal =>
          return Aborted, files, handled;
        case Wrote(bytes) =>
          RecordCall(files, calls, handled, bytes);
          BudgetStep(Sum(files[|files| - 1]), bytes);
          files := AddToLast(files, bytes);
          spaceRemaining := spaceRemaining - if bytes < spaceRemaining then bytes else spaceRemaining;
          handled := handled + 1;
      }
    }
    match flush {
      case Fatal =>
        return Aborted, files, handled;
      case Wrote(bytes) =>
        return Completed(bytes), files, handled;
    }
  }
}
