/** The configuration logic of CamEncoder's H.264 video encoder wrapper
    (av_video): frame-rate truncation and snapping, the GOP heuristic, the
    option dictionary and rate control the constructor sets up, the frame push
    with its source-row addressing, and the classification of packet pulls.
    FFmpeg itself (codec lookup, nearest-rate search, frame allocation, the
    scaler, send and receive) enters as parameters. */
module AvVideo {
  import opened Wrappers
  import opened Bytes
  import opened IcoPixels
  import opened Arith

  /** AVRational: numerator and denominator, 32-bit signed in FFmpeg. */
  datatype Rational = Rational(num: int, den: int)

  const Int32Max: int := 0x7FFF_FFFF

  predicate IsInt32(x: int) { -0x8000_0000 <= x <= Int32Max }

  // ---------------------------------------------------------------------------
  // truncate_fps

  /** Both components are non-negative 32-bit values: the domain on which the
      halving loop of truncate_fps ends (a negative component shifts down to -1
      and keeps its high bits for ever). */
  predicate NonNegative32(fps: Rational)
  {
    0 <= fps.num <= Int32Max && 0 <= fps.den <= Int32Max
  }

  /** Both components fit in 16 bits. */
  predicate Fits16(fps: Rational)
  {
    0 <= fps.num <= 0xFFFF && 0 <= fps.den <= 0xFFFF
  }

  /** x & ~0xFFFF is non-zero: for a non-negative x, some bit above the low 16
      is set exactly when x / 0x10000 is non-zero. */
  function HighBits(x: int): (b: bool)
    requires 0 <= x <= Int32Max
    ensures b <==> x > 0xFFFF
  {
    x / 0x10000 != 0
  }

  /** One round of the loop: both components shifted right by one. */
  function Half(fps: Rational): (h: Rational)
    requires NonNegative32(fps)
    ensures NonNegative32(h)
  {
    Rational(fps.num / 2, fps.den / 2)
  }

  /** fps with both components shifted right k times, which divides each by
      2^k. */
  function Shifted(fps: Rational, k: nat): (s: Rational)
    requires NonNegative32(fps)
    ensures NonNegative32(s)
    ensures s == Rational(fps.num / Pow2(k), fps.den / Pow2(k))
    decreases k
  {
    if k == 0 then fps
    else
      DivHalf(fps.num, Pow2(k - 1));
      DivHalf(fps.den, Pow2(k - 1));
      Shifted(Half(fps), k - 1)
  }

  /** What truncate_fps returns: fps halved until both components fit. */
  function Truncated(fps: Rational): (r: Rational)
    requires NonNegative32(fps)
    ensures Fits16(r)
    decreases fps.num + fps.den
  {
    if Fits16(fps) then fps else Truncated(Half(fps))
  }

  /** truncate_fps: shift both components right until neither has a bit above
      the low 16. */
  method TruncateFps(fps: Rational) returns (r: Rational)
    requires NonNegative32(fps)
    ensures r == Truncated(fps)
    ensures Fits16(r) && (Fits16(fps) ==> r == fps)
  {
    r := fps;
    while HighBits(r.num) || HighBits(r.den)
      invariant NonNegative32(r) && Truncated(r) == Truncated(fps)
      decreases r.num + r.den
    {
      r := Rational(r.num / 2, r.den / 2);
    }
  }

  /** truncate_fps shifts both components by the same count k, the least one
      that makes both fit. */
  lemma {:induction false} TruncatedIsLeastShift(fps: Rational) returns (k: nat)
    requires NonNegative32(fps)
    ensures Truncated(fps) == Shifted(fps, k) && Fits16(Shifted(fps, k))
    ensures forall j :: 0 <= j < k ==> !Fits16(Shifted(fps, j))
    decreases fps.num + fps.den
  {
    if Fits16(fps) {
      k := 0;
    } else {
      var k1 := TruncatedIsLeastShift(Half(fps));
      k := k1 + 1;
      forall j | 0 <= j < k
        ensures !Fits16(Shifted(fps, j))
      {
        if j > 0 {
          assert Shifted(fps, j) == Shifted(Half(fps), j - 1);
        }
      }
    }
  }

  /** k shifts are a division by 2^k. */
  function Pow2(k: nat): (p: nat)
    ensures p >= 1
  {
    if k == 0 then 1 else 2 * Pow2(k - 1)
  }

  lemma DivHalf(x: nat, m: nat)
    requires m >= 1
    ensures (x / 2) / m == x / (2 * m)
  {
    var q, r := x / (2 * m), x % (2 * m);
    assert x == (2 * m) * q + r && 0 <= r < 2 * m;
    assert x == (q * m + r / 2) * 2 + r % 2;
    RowMajor(q * m + r / 2, r % 2, 2);
    RowMajor(q, r / 2, m);
  }

  // ---------------------------------------------------------------------------
  // The codec context and set_fps

  /** AV_CODEC_FLAG_QSCALE and AV_CODEC_FLAG_GLOBAL_HEADER. */
  const FlagQscale: bv32 := 1 << 1
  const FlagGlobalHeader: bv32 := 1 << 22

  datatype PixelFormat = Yuv420p | Bgr24 | OtherFormat(id: int)

  /** The AVCodecContext fields the wrapper sets, as one value. */
  datatype ContextFields = ContextFields(timeBase: Rational, framerate: Rational, gopSize: int,
                                         bitRate: int, flags: bv32, width: int, height: int,
                                         pixFmt: PixelFormat)

  /** AVCodecContext, reduced to the fields the wrapper writes. */
  class CodecContext {
    var timeBase: Rational
    var framerate: Rational
    var gopSize: int
    var bitRate: int
    var flags: bv32
    var width: int
    var height: int
    var pixFmt: PixelFormat

    function Fields(): ContextFields
      reads this
    {
      ContextFields(timeBase, framerate, gopSize, bitRate, flags, width, height, pixFmt)
    }

    /** avcodec_alloc_context3: a context holding the library's defaults. */
    constructor(defaults: ContextFields)
      ensures Fields() == defaults
    {
      timeBase, framerate, gopSize := defaults.timeBase, defaults.framerate, defaults.gopSize;
      bitRate, flags := defaults.bitRate, defaults.flags;
      width, height, pixFmt := defaults.width, defaults.height, defaults.pixFmt;
    }
  }

  /** set_fps: time_base {den, num} and framerate {num, den}, so that the
      encoder runs at a constant frame rate whose tick is one frame. */
  method SetFps(context: CodecContext, fps: Rational)
    modifies context
    ensures context.Fields() == old(context.Fields()).(timeBase := Rational(fps.den, fps.num), framerate := fps)
    ensures context.timeBase.num * context.framerate.num == context.timeBase.den * context.framerate.den
  {
    context.timeBase := Rational(fps.den, fps.num);
    context.framerate := Rational(fps.num, fps.den);
  }

  // ---------------------------------------------------------------------------
  // calculate_gop_size

  function Abs(x: int): nat { if x < 0 then -x else x }

  /** C++ integer division: the quotient truncated toward zero. */
  function CDiv(a: int, b: int): (q: int)
    requires b != 0
    ensures 0 <= a && 0 < b ==> q == a / b
    ensures Abs(q) * Abs(b) <= Abs(a) < (Abs(q) + 1) * Abs(b)
    ensures q > 0 ==> (a > 0 <==> b > 0)
    ensures q < 0 ==> (a > 0 <==> b < 0)
  {
    var m := Abs(a) / Abs(b);
    if (a >= 0) == (b > 0) then m else -m
  }

  /** static_cast<int> of a double: truncation toward zero. */
  function TruncReal(x: real): int
  {
    if x >= 0.0 then x.Floor else -((-x).Floor)
  }

  /** calculate_gop_size: ((num / den) + 0.5) * 10.0 in double precision, cast
      to int. The division is an integer division, done before the 0.5 is
      added, so the result is ten times the truncated rate plus five. */
  function GopSize(fps: Rational): (g: int)
    requires fps.den != 0 && IsInt32(10 * CDiv(fps.num, fps.den) + 5)
    ensures g == 10 * CDiv(fps.num, fps.den) + 5
    ensures g % 10 == 5
  {
    var q := CDiv(fps.num, fps.den);
    var gob: real := ((q as real) + 0.5) * 10.0;
    assert gob == (10 * q + 5) as real;
    TruncReal(gob)
  }

  /** 30/1 gives 305, 25/1 gives 255, and 24000/1001 gives 235: 23.976 is cut
      to 23 before the half is added. */
  lemma GopSizeExamples()
    ensures GopSize(Rational(30, 1)) == 305 && GopSize(Rational(25, 1)) == 255
    ensures GopSize(Rational(24000, 1001)) == 235
  {}

  /** The GOP grows with the rate: a rate at least one frame per second higher
      gets a GOP at least ten frames longer. */
  lemma GopSizeMonotone(a: Rational, b: Rational)
    requires a.den > 0 && b.den > 0 && a.num >= 0 && b.num >= 0
    requires a.num / a.den < b.num / b.den <= 1000
    ensures GopSize(a) + 10 <= GopSize(b)
  {}

  // ---------------------------------------------------------------------------
  // The option dictionary: apply_preset, apply_tune, apply_profile

  /** An av_dict value: set from a name, or from an integer (crf). */
  datatype DictValue = Text(s: string) | Number(n: int)

  /** av_dict, the options handed to avcodec_open2. */
  class AvDict {
    var entries: map<string, DictValue>

    constructor()
      ensures entries == map[]
    {
      entries := map[];
    }

    /** av_opts[key] = value. */
    method Set(key: string, value: DictValue)
      modifies this
      ensures entries == old(entries)[key := value]
    {
      entries := entries[key := value];
    }
  }

  /** The name tables of the preset, tune and profile enumerations, and the
      index of the `medium` preset. They live in a header that is not part of
      this model, so they are parameters. */
  datatype NameTables = NameTables(presets: seq<string>, tunes: seq<string>, profiles: seq<string>, medium: nat)

  /** The index apply_preset looks up: the preset asked for, or `medium`. */
  function PresetIndex(preset: Option<nat>, tables: NameTables): nat
  {
    if preset.Some? then preset.value else tables.medium
  }

  /** apply_preset: "preset" is always set, to the requested or the default
      preset's name; an index outside the table throws (false here) and leaves
      the dictionary as it was. */
  method ApplyPreset(opts: AvDict, preset: Option<nat>, tables: NameTables) returns (ok: bool)
    modifies opts
    ensures ok <==> PresetIndex(preset, tables) < |tables.presets|
    ensures opts.entries == if ok then old(opts.entries)["preset" := Text(tables.presets[PresetIndex(preset, tables)])]
                            else old(opts.entries)
  {
    var idx := if preset.Some? then preset.value else tables.medium;
    if idx >= |tables.presets| {
      return false;
    }
    opts.Set("preset", Text(tables.presets[idx]));
    ok := true;
  }

  /** apply_tune and apply_profile: nothing without a value; otherwise `key`
      is set to the value's name, or the lookup throws (false). */
  method ApplyOptional(opts: AvDict, key: string, value: Option<nat>, names: seq<string>) returns (ok: bool)
    modifies opts
    ensures ok <==> value.None? || value.value < |names|
    ensures opts.entries == if value.Some? && ok then old(opts.entries)[key := Text(names[value.value])]
                            else old(opts.entries)
  {
    if value.None? {
      return true;
    }
    var idx := value.value;
    if idx >= |names| {
      return false;
    }
    opts.Set(key, Text(names[idx]));
    ok := true;
  }

  method ApplyTune(opts: AvDict, tune: Option<nat>, tables: NameTables) returns (ok: bool)
    modifies opts
    ensures ok <==> tune.None? || tune.value < |tables.tunes|
    ensures opts.entries == if tune.Some? && ok then old(opts.entries)["tune" := Text(tables.tunes[tune.value])]
                            else old(opts.entries)
  {
    ok := ApplyOptional(opts, "tune", tune, tables.tunes);
  }

  method ApplyProfile(opts: AvDict, profile: Option<nat>, tables: NameTables) returns (ok: bool)
    modifies opts
    ensures ok <==> profile.None? || profile.value < |tables.profiles|
    ensures opts.entries == if profile.Some? && ok then old(opts.entries)["profile" := Text(tables.profiles[profile.value])]
                            else old(opts.entries)
  {
    ok := ApplyOptional(opts, "profile", profile, tables.profiles);
  }

  // ---------------------------------------------------------------------------
  // The constructor

  datatype CodecId = H264 | OtherCodec(id: int)

  datatype CodecType = H264Encoder

  /** An AVCodec: the frame rates it is limited to, when it lists any. */
  datatype VideoCodec = VideoCodec(supportedFramerates: Option<seq<Rational>>)

  function FirstIndex(q: Rational, l: seq<Rational>): nat { 0 }

  /** av_find_nearest_q_idx: some index into a non-empty list of rates (which
      one, on ties, is the library's business). */
  type NearestQ = f: (Rational, seq<Rational>) -> nat | forall q, l :: |l| > 0 ==> f(q, l) < |l|
    witness FirstIndex

  /** av_video_meta: the rate as given, the size, rate control and the
      encoder's named options. */
  datatype Meta = Meta(fps: Rational, width: int, height: int, quality: Option<int>, bitrate: Option<int>,
                       preset: Option<nat>, tune: Option<nat>, profile: Option<nat>)

  /** What create_video_frame gets from FFmpeg: no frame at all from
      av_frame_alloc, or the return code of av_frame_get_buffer. */
  datatype FrameAlloc = NoFrame | FrameBuffer(ret: int)

  /** The answers of the FFmpeg calls the constructor makes. */
  datatype Library = Library(encoder: Option<VideoCodec>, nearest: NearestQ, defaults: ContextFields,
                             frame: FrameAlloc, scalerOk: bool)

  /** The constructor's assert: quality or bitrate is given. */
  predicate RateControlSet(meta: Meta)
  {
    meta.quality.Some? || meta.bitrate.Some?
  }

  /** A codec that limits the rates lists at least one. */
  predicate CodecWf(codec: VideoCodec)
  {
    codec.supportedFramerates.Some? ==> |codec.supportedFramerates.value| > 0
  }

  /** The rate handed to set_fps: meta.fps with its components swapped, or the
      nearest of the codec's rates when it lists some. */
  function WorkingFps(meta: Meta, codec: VideoCodec, nearest: NearestQ): (r: Rational)
    requires CodecWf(codec)
  {
    var fps := Rational(meta.fps.den, meta.fps.num);
    match codec.supportedFramerates
    case None => fps
    case Some(l) => l[nearest(fps, l)]
  }

  /** The frame-rate fields after set_fps and the GOP. */
  function RateFields(c: ContextFields, meta: Meta, codec: VideoCodec, nearest: NearestQ): ContextFields
    requires CodecWf(codec) && meta.fps.den != 0 && IsInt32(10 * CDiv(meta.fps.num, meta.fps.den) + 5)
  {
    var fps := WorkingFps(meta, codec, nearest);
    c.(timeBase := Rational(fps.den, fps.num), framerate := fps, gopSize := GopSize(meta.fps))
  }

  /** The rate-control fields: the bitrate in bits per second when one is
      given, the constant-quantizer flag otherwise. */
  function RateControlFields(c: ContextFields, meta: Meta): ContextFields
  {
    if meta.bitrate.Some? then c.(bitRate := 1000 * meta.bitrate.value)
    else c.(flags := c.flags | FlagQscale)
  }

  /** The fields set last: frame size, YUV420P and a global header. */
  function FinalFields(c: ContextFields, meta: Meta): ContextFields
  {
    c.(width := meta.width, height := meta.height, pixFmt := Yuv420p, flags := c.flags | FlagGlobalHeader)
  }

  /** The context the constructor leaves: the working rate via set_fps, the
      GOP from meta.fps, the average bitrate in bits per second when a
      bitrate is given and the constant-quantizer flag otherwise, the frame
      size, YUV420P and a global header. */
  function ContextFor(meta: Meta, codec: VideoCodec, nearest: NearestQ, defaults: ContextFields): (c: ContextFields)
    requires CodecWf(codec) && meta.fps.den != 0 && IsInt32(10 * CDiv(meta.fps.num, meta.fps.den) + 5)
  {
    FinalFields(RateControlFields(RateFields(defaults, meta, codec, nearest), meta), meta)
  }

  /** The named options are all in the tables. */
  predicate NamesKnown(meta: Meta, tables: NameTables)
  {
    && PresetIndex(meta.preset, tables) < |tables.presets|
    && (meta.tune.Some? ==> meta.tune.value < |tables.tunes|)
    && (meta.profile.Some? ==> meta.profile.value < |tables.profiles|)
  }

  /** av_opts_ after the constructor: preset, tune and profile by name, and
      crf when there is no bitrate. */
  function OptionsFor(meta: Meta, tables: NameTables): (m: map<string, DictValue>)
    requires RateControlSet(meta) && NamesKnown(meta, tables)
  {
    var m0 := map["preset" := Text(tables.presets[PresetIndex(meta.preset, tables)])];
    var m1 := if meta.tune.Some? then m0["tune" := Text(tables.tunes[meta.tune.value])] else m0;
    var m2 := if meta.profile.Some? then m1["profile" := Text(tables.profiles[meta.profile.value])] else m1;
    if meta.bitrate.Some? then m2 else m2["crf" := Number(meta.quality.value)]
  }

  /** Rate control with a bitrate: it wins over any quality, sets bit_rate
      in bits per second and leaves the constant-quantizer flag as it was; a
      global header is asked for. */
  lemma BitrateWins(meta: Meta, codec: VideoCodec, nearest: NearestQ, defaults: ContextFields)
    requires CodecWf(codec) && meta.fps.den != 0 && IsInt32(10 * CDiv(meta.fps.num, meta.fps.den) + 5)
    requires meta.bitrate.Some?
    ensures var c := ContextFor(meta, codec, nearest, defaults);
      && c.bitRate == 1000 * meta.bitrate.value
      && c.flags & FlagQscale == defaults.flags & FlagQscale
      && c.flags & FlagGlobalHeader != 0
  {
    hide GopSize, WorkingFps;
    var c := ContextFor(meta, codec, nearest, defaults);
    assert c.flags == defaults.flags | FlagGlobalHeader;
    FlagsKept(defaults.flags);
  }

  /** Rate control without a bitrate: bit_rate keeps its default and the
      constant-quantizer flag is set (the quality goes to crf, see
      OptionKeys); a global header is asked for. */
  lemma QualityMode(meta: Meta, codec: VideoCodec, nearest: NearestQ, defaults: ContextFields)
    requires CodecWf(codec) && meta.fps.den != 0 && IsInt32(10 * CDiv(meta.fps.num, meta.fps.den) + 5)
    requires meta.bitrate.None?
    ensures var c := ContextFor(meta, codec, nearest, defaults);
      && c.bitRate == defaults.bitRate
      && c.flags & FlagQscale != 0
      && c.flags & FlagGlobalHeader != 0
  {
    hide GopSize, WorkingFps;
    var c := ContextFor(meta, codec, nearest, defaults);
    assert c.flags == (defaults.flags | FlagQscale) | FlagGlobalHeader;
    FlagsSet(defaults.flags);
  }

  lemma FlagsKept(f: bv32)
    ensures (f | FlagGlobalHeader) & FlagQscale == f & FlagQscale
    ensures (f | FlagGlobalHeader) & FlagGlobalHeader != 0
  {}

  lemma FlagsSet(f: bv32)
    ensures ((f | FlagQscale) | FlagGlobalHeader) & FlagQscale != 0
    ensures ((f | FlagQscale) | FlagGlobalHeader) & FlagGlobalHeader != 0
  {}

  /** The dictionary holds exactly preset, the tune and profile that were
      given, and crf, holding the quality, without a bitrate; preset names the default when none was
      asked for. */
  lemma OptionKeys(meta: Meta, tables: NameTables)
    requires RateControlSet(meta) && NamesKnown(meta, tables)
    ensures var m := OptionsFor(meta, tables);
      && m.Keys == {"preset"} + (if meta.tune.Some? then {"tune"} else {})
                  + (if meta.profile.Some? then {"profile"} else {})
                  + (if meta.bitrate.None? then {"crf"} else {})
      && m["preset"] == Text(tables.presets[if meta.preset.Some? then meta.preset.value else tables.medium])
      && (meta.tune.Some? ==> m["tune"] == Text(tables.tunes[meta.tune.value]))
      && (meta.profile.Some? ==> m["profile"] == Text(tables.profiles[meta.profile.value]))
      && (meta.bitrate.None? ==> m["crf"] == Number(meta.quality.value))
  {}

  /** The frame rates: time_base is the reciprocal of framerate; without a
      list of supported rates framerate is meta.fps upside down while the GOP
      is computed from meta.fps itself; with a list, framerate is one of the
      listed rates. */
  lemma FrameRates(meta: Meta, codec: VideoCodec, nearest: NearestQ, defaults: ContextFields)
    requires CodecWf(codec) && meta.fps.den != 0 && IsInt32(10 * CDiv(meta.fps.num, meta.fps.den) + 5)
    ensures var c := ContextFor(meta, codec, nearest, defaults);
      && c.timeBase == Rational(c.framerate.den, c.framerate.num)
      && c.gopSize == GopSize(meta.fps)
      && (codec.supportedFramerates.None? ==>
            c.framerate == Rational(meta.fps.den, meta.fps.num) && c.timeBase == meta.fps)
      && (codec.supportedFramerates.Some? ==> c.framerate in codec.supportedFramerates.value)
  {}

  // ---------------------------------------------------------------------------
  // The frame and the encoder object

  /** AV_NOPTS_VALUE: the timestamp of a frame nobody has stamped yet. */
  const NoPts: int := -0x8000_0000_0000_0000

  /** AVFrame: its format and size, its timestamp and its picture bytes. */
  class VideoFrame {
    var format: PixelFormat
    var width: int
    var height: int
    var pts: int
    var data: seq<byte>

    constructor(format: PixelFormat, width: int, height: int)
      ensures this.format == format && this.width == width && this.height == height
      ensures pts == NoPts && data == []
    {
      this.format, this.width, this.height := format, width, height;
      pts, data := NoPts, [];
    }
  }

  /** create_video_frame: no frame when av_frame_alloc has none, a failure
      when the buffer cannot be allocated, else a fresh frame of the given
      format and size. */
  method CreateVideoFrame(format: PixelFormat, width: int, height: int, alloc: FrameAlloc)
    returns (r: Result<VideoFrame?, string>)
    ensures alloc.NoFrame? ==> r == Ok(null)
    ensures alloc.FrameBuffer? ==> (r.Ok? <==> alloc.ret >= 0)
    ensures alloc.FrameBuffer? && r.Ok? ==>
      && r.value != null && fresh(r.value)
      && r.value.format == format && r.value.width == width && r.value.height == height
  {
    match alloc
    case NoFrame =>
      return Ok(null);
    case FrameBuffer(ret) =>
      var frame := new VideoFrame(format, width, height);
      if ret < 0 {
        return Err("Could not allocate frame data.");
      }
      return Ok(frame);
  }

  /** av_video: the codec it drives, its context, its option dictionary and
      the frame it fills for every push. */
  class VideoEncoder {
    const codecType: CodecType
    const codec: VideoCodec
    const context: CodecContext
    const opts: AvDict
    const frame: VideoFrame?

    constructor(codec: VideoCodec, context: CodecContext, opts: AvDict, frame: VideoFrame?)
      ensures codecType == H264Encoder && this.codec == codec && this.context == context
      ensures this.opts == opts && this.frame == frame
    {
      codecType, this.codec, this.context := H264Encoder, codec, context;
      this.opts, this.frame := opts, frame;
    }

    /** push_encode_frame: with an image, make the frame writable (a failure
        throws), scale the bitmap's rows into it, stamp it and send it; without
        one, send nothing to flush the encoder. A negative send result
        throws. The rows handed to the scaler are addressed as the code does,
        with a stride of 3 * biWidth; they are the picture when biWidth is a
        multiple of 4. */
    method PushEncodeFrame(timestamp: int, image: Option<Bitmap>, writable: int, scale: Scaler, send: Sender)
      returns (ok: bool)
      requires image.Some? ==> frame != null && BitmapWf(image.value)
      modifies frame
      ensures image.None? ==> (ok <==> send(None) >= 0) && (frame != null ==> unchanged(frame))
      ensures image.Some? && writable < 0 ==> !ok && unchanged(frame)
      ensures image.Some? && writable >= 0 ==>
        && frame.data == scale(AsWrittenRows(image.value), context.width, context.height)
        && (image.value.width % 4 == 0 ==>
              frame.data == scale(TopDown(image.value), context.width, context.height))
        && frame.pts == timestamp
        && frame.format == old(frame.format) && frame.width == old(frame.width)
        && frame.height == old(frame.height)
        && (ok <==> send(Some(Picture(timestamp, frame.data))) >= 0)
    {
      if image.None? {
        var ret := send(None);
        return ret >= 0;
      }
      if writable < 0 {
        return false;
      }
      var b := image.value;
      if b.width % 4 == 0 {
        AsWrittenAlignedIsPicture(b);
      }
      frame.data := scale(AsWrittenRows(b), context.width, context.height);
      frame.pts := timestamp;
      var ret := send(Some(Picture(frame.pts, frame.data)));
      ok := ret >= 0;
    }

    /** pull_encoded_packet: clear the packet, receive into it; the packet is
        valid exactly on 0, and the call succeeds on 0, EAGAIN and EOF. */
    method PullEncodedPacket(pkt: Packet, received: Received) returns (ok: bool, valid: bool)
      modifies pkt
      ensures valid <==> received.ret == 0
      ensures ok <==> received.ret in {0, AvErrorEagain, AvErrorEof}
      ensures valid ==> pkt.data == Some(received.payload) && pkt.size == |received.payload|
      ensures !valid ==> pkt.data == None && pkt.size == 0
    {
      pkt.data, pkt.size := None, 0;
      var ret := received.ret;
      if ret == 0 {
        pkt.data, pkt.size := Some(received.payload), |received.payload|;
      }
      valid := ret == 0;
      if ret == 0 {
        return true, valid;
      }
      if ret == AvErrorEagain || ret == AvErrorEof {
        return true, valid;
      }
      return false, valid;
    }
  }

  /** The frame-rate part of the constructor: meta.fps upside down, snapped
      to the nearest supported rate when the codec lists any, handed to
      set_fps; the GOP from meta.fps. */
  method ConfigureRate(context: CodecContext, meta: Meta, codec: VideoCodec, nearest: NearestQ)
    requires CodecWf(codec) && meta.fps.den != 0 && IsInt32(10 * CDiv(meta.fps.num, meta.fps.den) + 5)
    modifies context
    ensures context.Fields() == RateFields(old(context.Fields()), meta, codec, nearest)
  {
    var fps := Rational(meta.fps.den, meta.fps.num);
    if codec.supportedFramerates.Some? {
      var rates := codec.supportedFramerates.value;
      var supported := rates[nearest(fps, rates)];
      if supported != fps {
        fps := supported;
      }
    }
    SetFps(context, fps);
    context.gopSize := GopSize(meta.fps);
  }

  /** The rate-control part of the constructor: a bitrate in kbit/s becomes
      bit_rate in bit/s; without one, the constant-quantizer flag and crf. */
  method ApplyRateControl(context: CodecContext, opts: AvDict, meta: Meta)
    requires RateControlSet(meta)
    modifies context, opts
    ensures context.Fields() == RateControlFields(old(context.Fields()), meta)
    ensures meta.bitrate.Some? ==> opts.entries == old(opts.entries)
    ensures meta.bitrate.None? ==> opts.entries == old(opts.entries)["crf" := Number(meta.quality.value)]
  {
    if meta.bitrate.Some? {
      context.bitRate := 1000 * meta.bitrate.value;
    } else {
      context.flags := context.flags | FlagQscale;
      opts.Set("crf", Number(meta.quality.value));
    }
  }

  /** The named options, in the order the constructor applies them; ok when
      all of them exist. */
  method ApplyNames(opts: AvDict, meta: Meta, tables: NameTables) returns (ok: bool)
    requires opts.entries == map[]
    modifies opts
    ensures ok <==> NamesKnown(meta, tables)
    ensures ok && meta.bitrate.Some? ==> opts.entries == OptionsFor(meta, tables)
    ensures ok && meta.bitrate.None? && meta.quality.Some? ==>
      opts.entries["crf" := Number(meta.quality.value)] == OptionsFor(meta, tables)
  {
    ok := ApplyPreset(opts, meta.preset, tables);
    if !ok {
      return;
    }
    ok := ApplyTune(opts, meta.tune, tables);
    if !ok {
      return;
    }
    ok := ApplyProfile(opts, meta.profile, tables);
  }

  /** The last settings of the constructor: the frame size, YUV420P and the
      global-header flag. */
  method FinishContext(context: CodecContext, meta: Meta)
    modifies context
    ensures context.Fields() == FinalFields(old(context.Fields()), meta)
    ensures context.width == meta.width && context.height == meta.height && context.pixFmt == Yuv420p
  {
    context.width := meta.width;
    context.height := meta.height;
    context.pixFmt := Yuv420p;
    context.flags := context.flags | FlagGlobalHeader;
  }

  /** The settings the constructor makes on a fresh context and an empty
      dictionary; ok when the named options all exist. */
  method Configure(meta: Meta, codec: VideoCodec, nearest: NearestQ, defaults: ContextFields, tables: NameTables)
    returns (context: CodecContext, opts: AvDict, ok: bool)
    requires CodecWf(codec) && meta.fps.den != 0 && IsInt32(10 * CDiv(meta.fps.num, meta.fps.den) + 5)
    requires RateControlSet(meta)
    ensures fresh(context) && fresh(opts)
    ensures ok <==> NamesKnown(meta, tables)
    ensures ok ==> context.Fields() == ContextFor(meta, codec, nearest, defaults)
    ensures ok ==> opts.entries == OptionsFor(meta, tables)
    ensures ok ==> context.width == meta.width && context.height == meta.height && context.pixFmt == Yuv420p
  {
    hide GopSize, WorkingFps, OptionsFor, NamesKnown, RateFields, RateControlFields, FinalFields;
    context := new CodecContext(defaults);
    ConfigureRate(context, meta, codec, nearest);
    opts := new AvDict();
    ok := ApplyNames(opts, meta, tables);
    if !ok {
      return;
    }
    ApplyRateControl(context, opts, meta);
    FinishContext(context, meta);
  }

  /** The constructor of av_video: only H.264 is accepted, the encoder must be
      found, the named options must exist, the frame buffer and the scaler must
      be allocated; the new context and dictionary are ContextFor and
      OptionsFor. */
  method NewVideoEncoder(id: CodecId, meta: Meta, lib: Library, tables: NameTables)
    returns (r: Result<VideoEncoder, string>)
    requires lib.encoder.Some? ==> CodecWf(lib.encoder.value)
    requires meta.fps.den != 0 && IsInt32(10 * CDiv(meta.fps.num, meta.fps.den) + 5)
    requires RateControlSet(meta)
    ensures r.Ok? <==>
      && id == H264 && lib.encoder.Some? && NamesKnown(meta, tables)
      && !(lib.frame.FrameBuffer? && lib.frame.ret < 0) && lib.scalerOk
    ensures r.Ok? ==>
      && fresh(r.value) && fresh(r.value.context) && fresh(r.value.opts)
      && r.value.codecType == H264Encoder && r.value.codec == lib.encoder.value
      && r.value.context.Fields() == ContextFor(meta, lib.encoder.value, lib.nearest, lib.defaults)
      && r.value.opts.entries == OptionsFor(meta, tables)
      && (lib.frame.NoFrame? ==> r.value.frame == null)
      && (lib.frame.FrameBuffer? ==>
            && r.value.frame != null && fresh(r.value.frame) && r.value.frame.format == Yuv420p
            && r.value.frame.width == meta.width && r.value.frame.height == meta.height)
  {
    hide GopSize, WorkingFps, OptionsFor, NamesKnown, ContextFor;
    if id != H264 {
      return Err("av_video: unsupported encoder");
    }
    if lib.encoder.None? {
      return Err("av_video: unable to find video encoder");
    }
    var codec := lib.encoder.value;
    var context, opts, ok := Configure(meta, codec, lib.nearest, lib.defaults, tables);
    if !ok {
      return Err("invalid preset, tune or profile");
    }

    var frame := CreateVideoFrame(context.pixFmt, context.width, context.height, lib.frame);
    if frame.Err? {
      return Err(frame.error);
    }
    if !lib.scalerOk {
      return Err("av_video: unable to create software scaler");
    }
    var encoder := new VideoEncoder(codec, context, opts, frame.value);
    return Ok(encoder);
  }

  // ---------------------------------------------------------------------------
  // push_encode_frame

  /** A BITMAPINFO block as the capture hands it over: the header fields the
      push reads and every byte of the block (header, palette, pixel rows). */
  datatype Bitmap = Bitmap(size: nat, width: int, height: int, clrUsed: nat, sizeImage: nat, memory: seq<byte>)

  /** Where the pixel rows start: past the header and biClrUsed RGBQUADs. */
  function PixelBase(b: Bitmap): nat { b.size + 4 * b.clrUsed }

  /** A bottom-up 24-bit DIB whose rows, each padded to 4 bytes, fill
      biSizeImage and lie inside the block. */
  predicate BitmapWf(b: Bitmap)
  {
    && b.width > 0 && b.height > 0
    && b.sizeImage == RowBytes(24, b.width) * b.height
    && PixelBase(b) + b.sizeImage <= |b.memory|
  }

  /** Row j of the DIB as stored, j = 0 being the bottom row of the picture:
      its 3 * biWidth BGR bytes. */
  function DibRow(b: Bitmap, j: nat): (row: seq<byte>)
    requires BitmapWf(b) && j < b.height
    ensures |row| == 3 * b.width
  {
    var stride := RowBytes(24, b.width);
    MulLe(j + 1, b.height, stride);
    b.memory[PixelBase(b) + j * stride .. PixelBase(b) + j * stride + 3 * b.width]
  }

  /** The picture top row first, as the encoder wants it. */
  function TopDown(b: Bitmap): (rows: seq<seq<byte>>)
    requires BitmapWf(b)
    ensures |rows| == b.height
  {
    seq(b.height, r requires 0 <= r < b.height => DibRow(b, b.height - 1 - r))
  }

  /** The rows sws_scale reads from a source pointer and a negative stride:
      row r starts back * r bytes before the first. */
  function SwsRows(memory: seq<byte>, top: int, back: nat, rowLen: nat, h: nat): (rows: seq<seq<byte>>)
    requires 0 <= top && top + rowLen <= |memory|
    requires h > 0 ==> (h - 1) * back <= top
    ensures |rows| == h && forall r :: 0 <= r < h ==> |rows[r]| == rowLen
  {
    seq(h, r requires 0 <= r < h => RowBack(memory, top, back, rowLen, h, r))
  }

  /** Row r of SwsRows: rowLen bytes starting back * r bytes before top. */
  function RowBack(memory: seq<byte>, top: int, back: nat, rowLen: nat, h: nat, r: nat): (row: seq<byte>)
    requires 0 <= top && top + rowLen <= |memory|
    requires r < h && (h - 1) * back <= top
    ensures |row| == rowLen
  {
    BackRow(top, back, r, h);
    memory[top - r * back .. top - r * back + rowLen]
  }

  lemma BackRow(top: int, back: nat, r: nat, h: nat)
    requires r < h && (h - 1) * back <= top
    ensures 0 <= top - r * back <= top
  {
    MulLe(r, h - 1, back);
  }

  /** The source plane push_encode_frame hands to sws_scale, as written: the
      first row 3 * biWidth bytes before the end of the pixels, and a stride
      of -3 * biWidth. */
  function AsWrittenSource(b: Bitmap): (plane: (int, nat))
    requires BitmapWf(b)
    ensures plane.0 + 3 * b.width == PixelBase(b) + b.sizeImage
  {
    (PixelBase(b) + b.sizeImage - 3 * b.width, 3 * b.width)
  }

  /** The source plane with the DIB's padded stride: the first row one padded
      row before the end of the pixels, and a stride of minus that row. */
  function CorrectedSource(b: Bitmap): (plane: (int, nat))
    requires BitmapWf(b)
    ensures plane.1 == RowBytes(24, b.width)
  {
    (PixelBase(b) + b.sizeImage - RowBytes(24, b.width), RowBytes(24, b.width))
  }

  /** Both planes stay inside the pixel rows: h rows of at most `stride`
      bytes, read backwards from the last. */
  lemma PlaneFits(rowLen: nat, stride: nat, h: nat)
    requires rowLen <= stride && h > 0
    ensures (h - 1) * rowLen <= stride * h - rowLen
    ensures (h - 1) * stride == stride * h - stride
    ensures 0 <= (h - 1) * rowLen && rowLen <= stride <= stride * h
  {
    MulLe(rowLen, stride, h);
    MulLe(1, h, stride);
    MulLe(0, h - 1, rowLen);
  }

  function AsWrittenRows(b: Bitmap): (rows: seq<seq<byte>>)
    requires BitmapWf(b)
    ensures |rows| == b.height
  {
    StrideIsTight(b.width);
    PlaneFits(3 * b.width, RowBytes(24, b.width), b.height);
    SwsRows(b.memory, AsWrittenSource(b).0, AsWrittenSource(b).1, 3 * b.width, b.height)
  }

  function CorrectedRows(b: Bitmap): (rows: seq<seq<byte>>)
    requires BitmapWf(b)
    ensures |rows| == b.height
  {
    StrideIsTight(b.width);
    PlaneFits(3 * b.width, RowBytes(24, b.width), b.height);
    SwsRows(b.memory, CorrectedSource(b).0, CorrectedSource(b).1, 3 * b.width, b.height)
  }

  /** With the padded stride the scaler reads the picture top row first, for
      every width. */
  lemma CorrectedRowsArePicture(b: Bitmap)
    requires BitmapWf(b)
    ensures CorrectedRows(b) == TopDown(b)
  {
    var stride := RowBytes(24, b.width);
    var rows, pic := CorrectedRows(b), TopDown(b);
    forall r | 0 <= r < b.height
      ensures rows[r] == pic[r]
    {
      calc {
        PixelBase(b) + b.sizeImage - stride - r * stride;
        PixelBase(b) + stride * b.height - stride * (r + 1);
        PixelBase(b) + (b.height - 1 - r) * stride;
      }
    }
  }

  /** The padded stride is 3 * biWidth exactly when biWidth is a multiple of
      4; otherwise it is larger. */
  lemma StrideIsTight(w: nat)
    ensures RowBytes(24, w) == 3 * w <==> w % 4 == 0
    ensures RowBytes(24, w) >= 3 * w
  {
    var q, t := w / 4, w % 4;
    assert 24 * w + 31 == 32 * (3 * q) + (24 * t + 31);
    RowMajor(3 * q, 24 * t + 31 - 32 * ((24 * t + 31) / 32), 32);
    assert (24 * t + 31) / 32 == t;
  }

  /** When biWidth is a multiple of 4 the code as written reads the picture
      correctly. */
  lemma AsWrittenAlignedIsPicture(b: Bitmap)
    requires BitmapWf(b) && b.width % 4 == 0
    ensures AsWrittenRows(b) == TopDown(b)
  {
    StrideIsTight(b.width);
    assert AsWrittenSource(b) == CorrectedSource(b);
    CorrectedRowsArePicture(b);
  }

  /** A 1x2 picture, bottom row BGR 1 2 3, top row 4 5 6, each padded to 4
      bytes, after a 40-byte header with no palette. */
  function NarrowBitmap(): Bitmap
  {
    Bitmap(40, 1, 2, 0, 8, seq(40, i => 0) + [1, 2, 3, 0, 4, 5, 6, 0])
  }

  /** The bitmap is well formed and its pixel bytes follow the 40-byte header. */
  lemma NarrowPixels()
    ensures BitmapWf(NarrowBitmap()) && PixelBase(NarrowBitmap()) == 40
    ensures NarrowBitmap().memory[40..] == [1, 2, 3, 0, 4, 5, 6, 0]
  {
    assert RowBytes(24, 1) == 4;
  }

  /** Read top row first with the padded stride, the picture is 4 5 6 over
      1 2 3. */
  lemma NarrowPicture()
    ensures BitmapWf(NarrowBitmap())
    ensures TopDown(NarrowBitmap()) == [[4, 5, 6], [1, 2, 3]]
  {
    NarrowPixels();
    var b := NarrowBitmap();
    var m, pixels := b.memory, [1, 2, 3, 0, 4, 5, 6, 0];
    assert m[40..43] == pixels[0..3] == [1, 2, 3];
    assert m[44..47] == pixels[4..7] == [4, 5, 6];
    assert DibRow(b, 0) == m[40..43] && DibRow(b, 1) == m[44..47];
  }

  /** For that picture the code as written reads 5 6 0 and 3 0 4 (padding
      and parts of both rows) instead of 4 5 6 and 1 2 3. */
  lemma AsWrittenNarrowIsWrong()
    ensures BitmapWf(NarrowBitmap())
    ensures TopDown(NarrowBitmap()) == [[4, 5, 6], [1, 2, 3]]
    ensures AsWrittenRows(NarrowBitmap()) == [[5, 6, 0], [3, 0, 4]]
  {
    NarrowPixels();
    NarrowPicture();
    var b := NarrowBitmap();
    var m, pixels := b.memory, [1, 2, 3, 0, 4, 5, 6, 0];
    assert m[45..48] == pixels[5..8] == [5, 6, 0];
    assert m[42..45] == pixels[2..5] == [3, 0, 4];
    assert AsWrittenSource(b) == (45, 3);
    var rows := AsWrittenRows(b);
    assert rows[0] == m[45..48] && rows[1] == m[42..45];
  }

  /** For every other width the code as written starts the first row inside
      the padding of the top row and steps back by less than a row. */
  lemma AsWrittenUnalignedIsOff(b: Bitmap)
    requires BitmapWf(b) && b.width % 4 != 0
    ensures AsWrittenSource(b).0 - CorrectedSource(b).0 == RowBytes(24, b.width) - 3 * b.width > 0
    ensures AsWrittenSource(b).1 < CorrectedSource(b).1
  {
    StrideIsTight(b.width);
  }

  /** sws_scale into the frame: the source rows (BGR24, top first) and the
      destination size give the YUV420P planes. */
  type Scaler = (seq<seq<byte>>, int, int) -> seq<byte>

  /** What avcodec_send_frame is handed: a stamped picture, or nothing to
      flush the encoder. */
  datatype Picture = Picture(pts: int, data: seq<byte>)

  /** avcodec_send_frame's return code for what it is handed. */
  type Sender = Option<Picture> -> int

  // ---------------------------------------------------------------------------
  // pull_encoded_packet

  /** AVERROR(EAGAIN) and AVERROR_EOF. */
  const AvErrorEagain: int := -11
  const AvErrorEof: int := -0x2046_4F45

  /** AVPacket, reduced to its payload. */
  class Packet {
    var data: Option<seq<byte>>
    var size: int

    constructor()
      ensures data == None && size == 0
    {
      data, size := None, 0;
    }
  }

  /** What avcodec_receive_packet answers: a status and, on 0, the payload. */
  datatype Received = Received(ret: int, payload: seq<byte>)
}
