/**
 * Codec setup: choosing the input's video stream and configuring the
 * decoder for it, and configuring the H.264 encoder for a frame rate.
 * The codec library's lookups, allocations and `avcodec_open2` are given
 * as their outcomes.
 */
module Video {
  import opened Wrappers

  datatype MediaType = VideoMedia | AudioMedia | OtherMedia

  datatype CodecId = RawVideo | OtherCodec(id: nat)

  datatype Stream = Stream(kind: MediaType, codec: CodecId)

  /** A context's pixel format; a freshly allocated context has none set. */
  datatype PixelFormat = Unset | Yuyv422 | Yuv420p

  datatype DecoderContext = DecoderContext(stream: nat, codec: CodecId, pixelFormat: PixelFormat)

  datatype Rational = Rational(num: int, den: int)

  datatype EncoderContext = EncoderContext(
    width: nat, height: nat, bitRate: nat,
    timeBase: Rational, frameRate: Rational,
    pixelFormat: PixelFormat, gopSize: nat, maxBFrames: nat,
    preset: string, tune: string)

  predicate IsVideo(s: Stream)
  {
    s.kind == VideoMedia
  }

  /** The number of video streams. */
  function CountVideo(streams: seq<Stream>): nat
  {
    if streams == [] then 0
    else CountVideo(streams[..|streams| - 1]) + if IsVideo(streams[|streams| - 1]) then 1 else 0
  }

  /** There is no video stream exactly when none is counted. */
  lemma {:induction false} CountVideoZero(streams: seq<Stream>)
    ensures CountVideo(streams) == 0 <==> forall i :: 0 <= i < |streams| ==> !IsVideo(streams[i])
  {
    if streams != [] {
      var init := streams[..|streams| - 1];
      CountVideoZero(init);
      assert forall i :: 0 <= i < |init| ==> init[i] == streams[i];
    }
  }

  /** The stream search of `setupDecoder` (src/video.cpp:42-51). */
  method SelectVideoStream(streams: seq<Stream>) returns (streamId: int, streamCount: nat)
    ensures streamCount == CountVideo(streams)
    ensures streamId < 0 <==> forall i :: 0 <= i < |streams| ==> !IsVideo(streams[i])
    ensures streamId < 0 ==> streamId == -1
    ensures streamId >= 0 ==> streamId < |streams| && IsVideo(streams[streamId])
    ensures streamId >= 0 ==> forall i :: 0 <= i < streamId ==> !IsVideo(streams[i])
    ensures streamId < 0 <==> streamCount == 0
  {
    streamId := -1;
    streamCount := 0;
    for i := 0 to |streams|
      invariant streamCount == CountVideo(streams[..i])
      invariant streamId < 0 <==> forall j :: 0 <= j < i ==> !IsVideo(streams[j])
      invariant streamId < 0 ==> streamId == -1
      invariant streamId >= 0 ==> streamId < i && IsVideo(streams[streamId])
      invariant streamId >= 0 ==> forall j :: 0 <= j < streamId ==> !IsVideo(streams[j])
    {
      assert streams[..i + 1][..i] == streams[..i];
      if IsVideo(streams[i]) {
        if streamId < 0 {
          streamId := i;
        }
        streamCount := streamCount + 1;
      }
    }
    assert streams[..|streams|] == streams;
    CountVideoZero(streams);
  }

  /**
   * `setupDecoder` (src/video.cpp:40-88): a context for the first video
   * stream's codec, returned only when every step succeeds. A raw-video
   * context is set to YUYV 4:2:2; any other keeps the pixel format it had.
   */
  method SetupDecoder(streams: seq<Stream>, decoderFound: bool, contextAllocated: bool, codecOpened: bool)
    returns (decoder: Option<DecoderContext>)
    ensures decoder.Some? <==>
      (exists i :: 0 <= i < |streams| && IsVideo(streams[i])) && decoderFound && contextAllocated && codecOpened
    ensures decoder.Some? ==>
      var d := decoder.value;
      && d.stream < |streams| && IsVideo(streams[d.stream])
      && (forall i :: 0 <= i < d.stream ==> !IsVideo(streams[i]))
      && d.codec == streams[d.stream].codec
      && (d.pixelFormat == Yuyv422 <==> d.codec == RawVideo)
      && (d.pixelFormat != Yuyv422 ==> d.pixelFormat == Unset)
  {
    var streamId, streamCount := SelectVideoStream(streams);
    if streamId < 0 {
      return None;
    }
    if !decoderFound {
      return None;
    }
    if !contextAllocated {
      return None;
    }
    var dec := DecoderContext(streamId, streams[streamId].codec, Unset);
    if dec.codec == RawVideo {
      dec := dec.(pixelFormat := Yuyv422);
    }
    if !codecOpened {
      return None;
    }
    decoder := Some(dec);
  }

  function Reciprocal(r: Rational): Rational
  {
    Rational(r.den, r.num)
  }

  /**
   * `setupEncoder` (src/video.cpp:90-128): a 1920x1080 H.264 context at
   * 350000 bit/s, whose time base is one frame period, returned only when
   * the encoder is found, allocated and opened.
   */
  function SetupEncoder(frameRate: int, encoderFound: bool, contextAllocated: bool, codecOpened: bool): (e: Option<EncoderContext>)
    ensures e.Some? <==> encoderFound && contextAllocated && codecOpened
    ensures e.Some? ==>
      && e.value.width == 1920 && e.value.height == 1080 && e.value.bitRate == 350000
      && e.value.frameRate == Rational(frameRate, 1)
      && e.value.timeBase == Reciprocal(e.value.frameRate)
      && e.value.pixelFormat == Yuv420p
      && e.value.gopSize == 10 && e.value.maxBFrames == 1
  {
    if !encoderFound || !contextAllocated then None
    else
      var enc := EncoderContext(1920, 1080, 350000, Rational(1, frameRate), Rational(frameRate, 1),
                                Yuv420p, 10, 1, "veryfast", "zerolatency");
      if !codecOpened then None else Some(enc)
  }
}
