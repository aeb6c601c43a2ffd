/** The camera demuxer (internal/avgrabber/demuxer.go): codec changes and timestamps over every run of
frames. The codec parsers, audio detection and the ADTS header parser are functions the statements hold
for whatever they are.
*/
module Demuxer {
  import opened Wrappers
  import opened AnnexB

  datatype Codec = Codec(description: string, timeScale: nat, nominalDuration: int)
  datatype Audio = Audio(description: string, sampleRate: nat)

  const CODEC_AAC := 6

  datatype Media = Video | AudioMedia | OtherMedia
  datatype Kind = ParamSet | Key | Delta | Unclassified

  datatype Frame = Frame(
    media: Media,
    kind: Kind,
    codec: int,
    ptsTicks: int,
    dtsTicks: int,
    durationTicks: nat,
    data: Bytes,
    wallClockMs: int,
    discontinuity: bool)

  datatype Parsers = Parsers(
    h264: (Bytes, Bytes) -> Option<Codec>,
    h265: (Bytes, Bytes, Bytes) -> Option<Codec>,
    audio: Frame -> Option<Audio>,
    adtsPayload: Bytes -> Option<Bytes>)    // None on a malformed header

  datatype State = State(
    videoCodec: Option<Codec>,
    codecDirty: bool,
    audio: Option<Audio>,
    lastVideoDTS: Option<int>,
    lastAudioDTS: Option<int>)

  datatype Streams = Streams(video: Codec, audio: Option<Audio>)

  datatype Tag = H264 | H265 | Mjpeg | UnknownVideo | Aac | PcmMulaw | PcmAlaw | Opus | Pcm

  datatype Packet = Packet(
    tag: Tag,
    discontinuity: bool,
    dts: int,
    ptsOffset: int,
    wallClockMs: int,
    frameId: int,
    key: bool,
    duration: int,
    data: Bytes,
    newCodecs: Option<Streams>)

  datatype Out = Emit(pkt: Packet) | EmitAudio(pkt: Packet) | SkipFrame | ParseError

  const INIT := State(None, false, None, None, None)

  // ---------------------------------------------------------------- 64-bit time arithmetic

  const TWO63 := 0x8000_0000_0000_0000
  const TWO64 := 0x1_0000_0000_0000_0000
  const NANOS := 1_000_000_000
  const MAX_TICKS := 9_223_372_036

  /** int64 wrap-around. */
  function Wrap64(x: int): (r: int)
    ensures -TWO63 <= r < TWO63
  {
    (x + TWO63) % TWO64 - TWO63
  }

  /** Division that truncates toward zero. */
  function TruncDiv(a: int, b: int): int
    requires b > 0
  {
    if a >= 0 then a / b else -((-a) / b)
  }

  /** time.Duration(ticks) * time.Second / time.Duration(clk), zero without a clock. */
  function TicksToNanos(ticks: int, clk: nat): (r: int) {
    if clk == 0 then 0 else TruncDiv(Wrap64(ticks * NANOS), clk)
  }

  lemma TruncDivError(a: int, b: int)
    requires b > 0
    ensures -b < TruncDiv(a, b) * b - a < b
  {
    if a >= 0 {
      assert a == a / b * b + a % b;
    } else {
      assert -a == (-a) / b * b + (-a) % b;
      assert (-((-a) / b)) * b == -((-a) / b * b);
    }
  }

  lemma WrapBy(x: int) returns (k: int)
    ensures Wrap64(x) == x - k * TWO64
    ensures k == 0 <==> -TWO63 <= x < TWO63
  {
    k := (x + TWO63) / TWO64;
    assert x + TWO63 == k * TWO64 + (x + TWO63) % TWO64;
  }

  /** The conversion is off by less than a nanosecond exactly for tick magnitudes up to 9,223,372,036,
      about 28 hours of a 90 kHz clock; beyond that the product wraps. */
  lemma ConversionAccurateIff(ticks: int, clk: int)
    requires 0 < clk < 0x1_0000_0000
    ensures -clk < TicksToNanos(ticks, clk) * clk - ticks * NANOS < clk <==> -MAX_TICKS <= ticks <= MAX_TICKS
  {
    var p := ticks * NANOS;
    TruncDivError(Wrap64(p), clk);
    var k := WrapBy(p);
    assert (-TWO63 <= p < TWO63) <==> (-MAX_TICKS <= ticks <= MAX_TICKS);
    var q := TicksToNanos(ticks, clk) * clk;
    assert -clk < q - Wrap64(p) < clk;
    if k > 0 { assert k * TWO64 >= TWO64; }
    if k < 0 { assert k * TWO64 <= -TWO64; }
  }

  lemma TruncDivMonotone(a: int, b: int, clk: nat)
    requires a <= b && clk > 0
    ensures TruncDiv(a, clk) <= TruncDiv(b, clk)
  {
    var x, y := TruncDiv(a, clk), TruncDiv(b, clk);
    if a >= 0 {
      DivMonotone(a, b, clk);
    } else if b < 0 {
      DivMonotone(-b, -a, clk);
    } else {
      DivMonotone(0, -a, clk);
      DivMonotone(0, b, clk);
      assert 0 / clk == 0;
    }
  }

  lemma DivMonotone(a: int, b: int, c: nat)
    requires 0 <= a <= b && c > 0
    ensures a / c <= b / c
  {
    var p, q := a / c, b / c;
    assert p * c <= a && b < q * c + c by {
      assert a == p * c + a % c && b == q * c + b % c;
    }
    if p > q { OneMore(p, q, c); }
  }

  lemma OneMore(p: int, q: int, c: nat)
    requires p > q
    ensures p * c >= q * c + c
  {
    assert (p - q - 1) * c >= 0;
  }

  /** Within that range the conversion keeps the order of timestamps. */
  lemma ConversionMonotone(a: int, b: int, clk: nat)
    requires -MAX_TICKS <= a <= b <= MAX_TICKS
    ensures TicksToNanos(a, clk) <= TicksToNanos(b, clk)
  {
    if clk > 0 {
      var j := WrapBy(a * NANOS);
      var k := WrapBy(b * NANOS);
      TruncDivMonotone(a * NANOS, b * NANOS, clk);
    }
  }

  /** One tick past the range the result has the wrong sign. */
  lemma ConversionWraps(clk: nat)
    requires 0 < clk < 0x1_0000_0000
    ensures TicksToNanos(MAX_TICKS + 1, clk) < 0
  {
    var p := (MAX_TICKS + 1) * NANOS;
    assert Wrap64(p) == p - TWO64;
    DivMonotone(clk, -Wrap64(p), clk);
    assert clk / clk == 1;
  }

  // ---------------------------------------------------------------- parameter sets

  function NalType(nal: Bytes, codec: int): int
    requires nal != []
  {
    if codec == CODEC_H264 then nal[0] % 32 else nal[0] % 128 / 2
  }

  /** The last NAL of a type wins. */
  function LastOfType(nals: seq<Bytes>, codec: int, t: int): (r: Option<Bytes>) {
    if nals == [] then None
    else
      var n := nals[|nals| - 1];
      if n != [] && NalType(n, codec) == t then Some(n) else LastOfType(nals[..|nals| - 1], codec, t)
  }

  datatype Applied = NothingComplete | Unparsable | NewCodec(codec: Codec)

  function Parsed(c: Option<Codec>): Applied {
    if c.None? then Unparsable else NewCodec(c.value)
  }

  function ReadH264(nals: seq<Bytes>, ps: Parsers): Applied {
    var sps, pps := LastOfType(nals, CODEC_H264, 7), LastOfType(nals, CODEC_H264, 8);
    if sps.None? || pps.None? then NothingComplete else Parsed(ps.h264(sps.value, pps.value))
  }

  function ReadH265(nals: seq<Bytes>, ps: Parsers): Applied {
    var vps := LastOfType(nals, CODEC_H265, 32);
    var sps, pps := LastOfType(nals, CODEC_H265, 33), LastOfType(nals, CODEC_H265, 34);
    if vps.None? || sps.None? || pps.None? then NothingComplete
    else Parsed(ps.h265(vps.value, sps.value, pps.value))
  }

  /** What a PARAM_SET frame amounts to. */
  function ReadParamSet(data: Bytes, codec: int, ps: Parsers): (r: Applied) {
    if codec == CODEC_H264 then ReadH264(Split(data), ps)
    else if codec == CODEC_H265 then ReadH265(Split(data), ps)
    else NothingComplete
  }

  /** The state it leaves, and whether the demuxer goes on without an error. */
  function AfterSet(d: State, a: Applied): (State, bool) {
    match a
    case NothingComplete => (d, true)
    case Unparsable => (d, false)
    case NewCodec(c) => (d.(videoCodec := Some(c), codecDirty := true), true)
  }

  predicate IsParamSetFrame(f: Frame) { f.media.Video? && f.kind.ParamSet? }
  predicate IsKeyFrame(f: Frame) { f.media.Video? && f.kind.Key? }
  predicate IsPicture(f: Frame) { f.media.Video? && (f.kind.Key? || f.kind.Delta?) }

  /** The codec a frame installs, if any. */
  function Installs(f: Frame, ps: Parsers): (r: Option<Codec>) {
    if !IsParamSetFrame(f) then None
    else match ReadParamSet(f.data, f.codec, ps)
      case NewCodec(c) => Some(c)
      case _ => None
  }

  // ---------------------------------------------------------------- frames

  function Clock(d: State): nat { if d.videoCodec.Some? then d.videoCodec.value.timeScale else 0 }
  function Nominal(d: State): int { if d.videoCodec.Some? then d.videoCodec.value.nominalDuration else 0 }

  /** videoDuration: the distance to the previous DTS when positive, the nominal duration otherwise. */
  function Duration(d: State, dts: int): int {
    if d.lastVideoDTS.Some? && Wrap64(dts - d.lastVideoDTS.value) > 0 then Wrap64(dts - d.lastVideoDTS.value)
    else Nominal(d)
  }

  function BuildStreams(d: State): Option<Streams> {
    if d.videoCodec.None? then None else Some(Streams(d.videoCodec.value, d.audio))
  }

  function PictureDts(d: State, f: Frame): int { TicksToNanos(f.dtsTicks, Clock(d)) }

  /** avCodecType. */
  function TagOf(f: Frame): Tag {
    if f.media.AudioMedia? then
      match f.codec
      case 6 => Aac
      case 3 => PcmMulaw
      case 4 => PcmAlaw
      case 11 => Opus
      case _ => Pcm
    else
      match f.codec
      case 2 => H264
      case 8 => H265
      case 0 => Mjpeg
      case _ => UnknownVideo
  }

  /** basePacket: what video and audio packets share. */
  function BasePacket(f: Frame, clk: nat): Packet {
    Packet(TagOf(f), f.discontinuity, TicksToNanos(f.dtsTicks, clk), PtsOffset(f, clk), f.wallClockMs, f.ptsTicks,
           false, 0, [], None)
  }

  function PicturePacket(d: State, f: Frame): Packet {
    BasePacket(f, Clock(d)).(
    key := f.kind.Key?,
    duration := Duration(d, PictureDts(d, f)),
    data := Avcc(f.data, f.codec),
    newCodecs := if f.kind.Key? && d.codecDirty then BuildStreams(d) else None)
  }

  function PtsOffset(f: Frame, clk: nat): int {
    if f.ptsTicks != f.dtsTicks then TicksToNanos(Wrap64(f.ptsTicks - f.dtsTicks), clk) else 0
  }

  /** The samples of the frame when it says so, else the distance to the previous DTS when positive. */
  function AudioDuration(last: Option<int>, f: Frame, rate: nat, dts: int): int {
    if rate > 0 && f.durationTicks > 0 then TicksToNanos(f.durationTicks, rate)
    else if last.Some? && Wrap64(dts - last.value) > 0 then Wrap64(dts - last.value)
    else 0
  }

  function AudioPayload(f: Frame, ps: Parsers): Option<Bytes> {
    if f.codec == CODEC_AAC then ps.adtsPayload(f.data) else Some(f.data)
  }

  /** An audio frame once the format is known. */
  function AudioStep(d: State, f: Frame, ps: Parsers): (State, Out)
    requires d.audio.Some?
  {
    var rate, payload := d.audio.value.sampleRate, AudioPayload(f, ps);
    if payload.None? then (d, SkipFrame)
    else
      var dts := TicksToNanos(f.dtsTicks, rate);
      (d.(lastAudioDTS := Some(dts)),
       EmitAudio(BasePacket(f, rate).(duration := AudioDuration(d.lastAudioDTS, f, rate, dts), data := payload.value)))
  }

  function Step(d: State, f: Frame, ps: Parsers): (r: (State, Out)) {
    match f.media
    case OtherMedia => (d, SkipFrame)
    case AudioMedia =>
      var e := if d.audio.Some? then d else d.(audio := ps.audio(f));
      if e.audio.None? then (e, SkipFrame) else AudioStep(e, f, ps)
    case Video =>
      match f.kind
      case ParamSet =>
        var (t, ok) := AfterSet(d, ReadParamSet(f.data, f.codec, ps));
        (t, if ok then SkipFrame else ParseError)
      case Unclassified => (d, SkipFrame)
      case _ =>
        (d.(lastVideoDTS := Some(PictureDts(d, f)), codecDirty := d.codecDirty && !f.kind.Key?),
         Emit(PicturePacket(d, f)))
  }

  /** The state in front of frame k of a run. */
  function Before(d: State, fs: seq<Frame>, ps: Parsers, k: nat): (r: State)
    requires k <= |fs|
  {
    if k == 0 then d else Step(Before(d, fs, ps, k - 1), fs[k - 1], ps).0
  }

  function OutAt(d: State, fs: seq<Frame>, ps: Parsers, k: nat): (r: Out)
    requires k < |fs|
  {
    Step(Before(d, fs, ps, k), fs[k], ps).1
  }

  // ---------------------------------------------------------------- the demuxer as a class

  class FrameDemuxer {
    var videoCodec: Option<Codec>
    var videoClk: nat
    var nominalVideoDur: int
    var codecDirty: bool
    var audio: Option<Audio>
    var lastVideoDTS: int
    var hasLastVideoDTS: bool
    var lastAudioDTS: int
    var hasLastAudioDTS: bool

    ghost predicate Valid()
      reads this
    {
      videoClk == Clock(Model()) && nominalVideoDur == Nominal(Model())
    }

    ghost function Model(): State
      reads this
    {
      State(videoCodec, codecDirty, audio, if hasLastVideoDTS then Some(lastVideoDTS) else None,
            if hasLastAudioDTS then Some(lastAudioDTS) else None)
    }

    constructor ()
      ensures Valid() && Model() == INIT
    {
      videoCodec, codecDirty, audio, hasLastVideoDTS := None, false, None, false;
      videoClk, nominalVideoDur, lastVideoDTS, lastAudioDTS, hasLastAudioDTS := 0, 0, 0, 0, false;
    }

    method VideoDuration(dts: int) returns (dur: int)
      requires Valid()
      modifies this`lastVideoDTS, this`hasLastVideoDTS
      ensures Valid() && dur == Duration(old(Model()), dts)
      ensures Model() == old(Model()).(lastVideoDTS := Some(dts))
    {
      if hasLastVideoDTS {
        var delta := Wrap64(dts - lastVideoDTS);
        lastVideoDTS := dts;
        if delta > 0 {
          return delta;
        }
      } else {
        hasLastVideoDTS := true;
        lastVideoDTS := dts;
      }
      dur := nominalVideoDur;
    }

    method Install(c: Codec)
      requires Valid()
      modifies this`videoCodec, this`videoClk, this`nominalVideoDur, this`codecDirty
      ensures Valid() && Model() == old(Model()).(videoCodec := Some(c), codecDirty := true)
    {
      videoCodec, videoClk, nominalVideoDur, codecDirty := Some(c), c.timeScale, c.nominalDuration, true;
    }

    method ApplyParamSet(data: Bytes, codec: int, ps: Parsers) returns (ok: bool)
      requires Valid()
      modifies this`videoCodec, this`videoClk, this`nominalVideoDur, this`codecDirty
      ensures Valid()
      ensures (Model(), ok) == AfterSet(old(Model()), ReadParamSet(data, codec, ps))
    {
      hide ReadH264, ReadH265, Split;
      ok := true;
      if codec == CODEC_H264 {
        ok := ApplyH264ParamSet(data, ps);
      } else if codec == CODEC_H265 {
        ok := ApplyH265ParamSet(data, ps);
      }
    }

    method ApplyH264ParamSet(data: Bytes, ps: Parsers) returns (ok: bool)
      requires Valid()
      modifies this`videoCodec, this`videoClk, this`nominalVideoDur, this`codecDirty
      ensures Valid()
      ensures (Model(), ok) == AfterSet(old(Model()), ReadH264(Split(data), ps))
    {
      hide Split;
      var nals := SplitAnnexB(data);
      var sps, pps := None, None;
      for i := 0 to |nals|
        invariant sps == LastOfType(nals[..i], CODEC_H264, 7) && pps == LastOfType(nals[..i], CODEC_H264, 8)
      {
        assert nals[..i + 1][..i] == nals[..i];
        if nals[i] == [] {
          continue;
        }
        match NalType(nals[i], CODEC_H264) {
          case 7 => sps := Some(nals[i]);
          case 8 => pps := Some(nals[i]);
          case _ =>
        }
      }
      assert nals[..|nals|] == nals;
      if sps.None? || pps.None? {
        return true;
      }
      var c := ps.h264(sps.value, pps.value);
      if c.None? {
        return false;
      }
      Install(c.value);
      ok := true;
    }

    method ApplyH265ParamSet(data: Bytes, ps: Parsers) returns (ok: bool)
      requires Valid()
      modifies this`videoCodec, this`videoClk, this`nominalVideoDur, this`codecDirty
      ensures Valid()
      ensures (Model(), ok) == AfterSet(old(Model()), ReadH265(Split(data), ps))
    {
      hide Split;
      var nals := SplitAnnexB(data);
      var vps, sps, pps := None, None, None;
      for i := 0 to |nals|
        invariant vps == LastOfType(nals[..i], CODEC_H265, 32)
        invariant sps == LastOfType(nals[..i], CODEC_H265, 33) && pps == LastOfType(nals[..i], CODEC_H265, 34)
      {
        assert nals[..i + 1][..i] == nals[..i];
        if nals[i] == [] {
          continue;
        }
        match NalType(nals[i], CODEC_H265) {
          case 32 => vps := Some(nals[i]);
          case 33 => sps := Some(nals[i]);
          case 34 => pps := Some(nals[i]);
          case _ =>
        }
      }
      assert nals[..|nals|] == nals;
      if vps.None? || sps.None? || pps.None? {
        return true;
      }
      var c := ps.h265(vps.value, sps.value, pps.value);
      if c.None? {
        return false;
      }
      Install(c.value);
      ok := true;
    }

    method FrameToPacket(f: Frame, ps: Parsers) returns (out: Out)
      requires Valid()
      modifies this
      ensures Valid() && (Model(), out) == Step(old(Model()), f, ps)
    {
      hide Avcc, ReadParamSet, TicksToNanos, Wrap64, AudioStep;
      match f.media {
        case OtherMedia =>
          return SkipFrame;
        case AudioMedia =>
          if audio.None? {
            audio := ps.audio(f);
            if audio.None? {
              return SkipFrame;
            }
          }
          out := AudioToPacket(f, ps);
        case Video =>
          match f.kind {
            case ParamSet =>
              var ok := ApplyParamSet(f.data, f.codec, ps);
              return if ok then SkipFrame else ParseError;
            case Unclassified =>
              return SkipFrame;
            case Key =>
              var pkt := Picture(f);
              if codecDirty {
                pkt := pkt.(newCodecs := if videoCodec.None? then None else Some(Streams(videoCodec.value, audio)));
                codecDirty := false;
              }
              return Emit(pkt);
            case Delta =>
              var pkt := Picture(f);
              return Emit(pkt);
          }
      }
    }

    method AudioToPacket(f: Frame, ps: Parsers) returns (out: Out)
      requires Valid() && audio.Some?
      modifies this`lastAudioDTS, this`hasLastAudioDTS
      ensures Valid() && (Model(), out) == AudioStep(old(Model()), f, ps)
    {
      hide TicksToNanos, Wrap64;
      var rate := audio.value.sampleRate;
      var pkt := BasePacket(f, rate);
      var dts := pkt.dts;
      var data := f.data;
      if f.codec == CODEC_AAC {
        var stripped := ps.adtsPayload(f.data);
        if stripped.None? {
          return SkipFrame;
        }
        data := stripped.value;
      }
      var dur := 0;
      if rate > 0 && f.durationTicks > 0 {
        dur := TicksToNanos(f.durationTicks, rate);
      } else if hasLastAudioDTS {
        var delta := Wrap64(dts - lastAudioDTS);
        if delta > 0 {
          dur := delta;
        }
      }
      lastAudioDTS, hasLastAudioDTS := dts, true;
      out := EmitAudio(pkt.(duration := dur, data := data));
    }

    method Picture(f: Frame) returns (pkt: Packet)
      requires Valid()
      modifies this`lastVideoDTS, this`hasLastVideoDTS
      ensures Valid() && Model() == old(Model()).(lastVideoDTS := Some(PictureDts(old(Model()), f)))
      ensures pkt == PicturePacket(old(Model()), f).(newCodecs := None)
    {
      pkt := BasePacket(f, videoClk);
      var data := VideoPayloadToAVCC(f.data, f.codec);
      var dur := VideoDuration(pkt.dts);
      pkt := pkt.(key := f.kind.Key?, data := data, duration := dur);
    }
  }

  // ---------------------------------------------------------------- codec announcements

  /** The run's own record of parameter sets: the last codec installed in front of frame k. */
  function LastInstalled(d: State, fs: seq<Frame>, ps: Parsers, k: nat): (r: Option<Codec>)
    requires k <= |fs|
  {
    if k == 0 then d.videoCodec
    else if Installs(fs[k - 1], ps).Some? then Installs(fs[k - 1], ps)
    else LastInstalled(d, fs, ps, k - 1)
  }

  /** The first audio format recognised in front of frame k. */
  function FirstAudio(d: State, fs: seq<Frame>, ps: Parsers, k: nat): (r: Option<Audio>)
    requires k <= |fs|
  {
    if k == 0 then d.audio
    else if FirstAudio(d, fs, ps, k - 1).Some? || !fs[k - 1].media.AudioMedia? then FirstAudio(d, fs, ps, k - 1)
    else ps.audio(fs[k - 1])
  }

  /** Some parameter set was installed in front of frame k with no key frame since. */
  ghost predicate InstalledSinceKey(d: State, fs: seq<Frame>, ps: Parsers, k: nat)
    requires k <= |fs|
  {
    || (d.codecDirty && forall i :: 0 <= i < k ==> !IsKeyFrame(fs[i]))
    || exists j :: 0 <= j < k && Installs(fs[j], ps).Some? && forall i :: j < i < k ==> !IsKeyFrame(fs[i])
  }

  lemma StepCodec(d: State, f: Frame, ps: Parsers)
    ensures var t := Step(d, f, ps).0;
            && t.videoCodec == (if Installs(f, ps).Some? then Installs(f, ps) else d.videoCodec)
            && t.codecDirty == (Installs(f, ps).Some? || (d.codecDirty && !IsKeyFrame(f)))
            && t.audio == (if d.audio.Some? || !f.media.AudioMedia? then d.audio else ps.audio(f))
  {}

  lemma SinceKeyStep(d: State, fs: seq<Frame>, ps: Parsers, k: nat)
    requires k < |fs|
    ensures InstalledSinceKey(d, fs, ps, k + 1) <==>
            Installs(fs[k], ps).Some? || (InstalledSinceKey(d, fs, ps, k) && !IsKeyFrame(fs[k]))
  {
    hide Installs;
    if Installs(fs[k], ps).Some? {
      assert InstalledSinceKey(d, fs, ps, k + 1);
    }
    if InstalledSinceKey(d, fs, ps, k) && !IsKeyFrame(fs[k]) {
      if exists j :: 0 <= j < k && Installs(fs[j], ps).Some? && forall i :: j < i < k ==> !IsKeyFrame(fs[i]) {
        var j :| 0 <= j < k && Installs(fs[j], ps).Some? && forall i :: j < i < k ==> !IsKeyFrame(fs[i]);
        assert Installs(fs[j], ps).Some? && forall i :: j < i < k + 1 ==> !IsKeyFrame(fs[i]);
      }
    }
  }

  lemma {:induction false} CodecState(d: State, fs: seq<Frame>, ps: Parsers, k: nat)
    requires k <= |fs|
    ensures var s := Before(d, fs, ps, k);
            && s.videoCodec == LastInstalled(d, fs, ps, k)
            && (s.codecDirty <==> InstalledSinceKey(d, fs, ps, k))
            && s.audio == FirstAudio(d, fs, ps, k)
  {
    hide Step, Installs;
    if k > 0 {
      CodecState(d, fs, ps, k - 1);
      StepCodec(Before(d, fs, ps, k - 1), fs[k - 1], ps);
      SinceKeyStep(d, fs, ps, k - 1);
      hide InstalledSinceKey;
    }
  }

  ghost predicate Consistent(d: State) { d.codecDirty ==> d.videoCodec.Some? }

  lemma {:induction false} StaysConsistent(d: State, fs: seq<Frame>, ps: Parsers, k: nat)
    requires k <= |fs| && Consistent(d)
    ensures Consistent(Before(d, fs, ps, k))
  {
    if k > 0 {
      StaysConsistent(d, fs, ps, k - 1);
      StepCodec(Before(d, fs, ps, k - 1), fs[k - 1], ps);
      hide Step;
    }
  }

  /** Over every frame sequence: a key packet carries codecs exactly when a complete parameter set was
      installed since the previous key packet, and then the last one installed, with the first
      audio format recognised; a delta packet never carries any. */
  lemma KeyPacketsAnnounceCodecs(d: State, fs: seq<Frame>, ps: Parsers, k: nat)
    requires k < |fs| && Consistent(d) && IsPicture(fs[k])
    ensures var out := OutAt(d, fs, ps, k);
            && out.Emit? && out.pkt.key == IsKeyFrame(fs[k])
            && (out.pkt.newCodecs.Some? <==> IsKeyFrame(fs[k]) && InstalledSinceKey(d, fs, ps, k))
            && (out.pkt.newCodecs.Some? ==>
                  && Some(out.pkt.newCodecs.value.video) == LastInstalled(d, fs, ps, k)
                  && out.pkt.newCodecs.value.audio == FirstAudio(d, fs, ps, k))
  {
    CodecState(d, fs, ps, k);
    StaysConsistent(d, fs, ps, k);
    hide Before, Avcc, TicksToNanos, Duration;
  }

  /** An incomplete or unparsable parameter set changes nothing; a complete one does, unless the same
      codec is already waiting to be announced. */
  lemma IncompleteSetsChangeNothing(d: State, f: Frame, ps: Parsers)
    requires IsParamSetFrame(f)
    ensures Step(d, f, ps).0 == d <==> Installs(f, ps).None? || (d.codecDirty && Installs(f, ps) == d.videoCodec)
  {}

  // ---------------------------------------------------------------- what a video packet carries

  /** The clock of the last codec installed in front of frame k. */
  function ClockAt(d: State, fs: seq<Frame>, ps: Parsers, k: nat): nat
    requires k <= |fs|
  {
    match LastInstalled(d, fs, ps, k) case None => 0 case Some(c) => c.timeScale
  }

  predicate WithinNanosecond(nanos: int, ticks: int, clk: int) { -clk < nanos * clk - ticks * NANOS < clk }

  predicate InRange(ticks: int) { -MAX_TICKS <= ticks <= MAX_TICKS }

  lemma PictureOut(d: State, fs: seq<Frame>, ps: Parsers, k: nat)
    requires k < |fs| && IsPicture(fs[k])
    ensures OutAt(d, fs, ps, k) == Emit(PicturePacket(Before(d, fs, ps, k), fs[k]))
  {
    hide PicturePacket, Before;
  }

  /** Every video packet of every run, its frame's bytes being pieces free of start codes behind start
      codes of any kind: a sample reader gets exactly the pieces the splitter sees without parameter sets,
      in order, if and only if their lengths fit, or the payload itself when there is nothing but start
      codes. */
  lemma PacketsCarryNals(d: State, fs: seq<Frame>, ps: Parsers, k: nat, lead: Bytes, units: seq<Unit>)
    requires k < |fs| && IsPicture(fs[k]) && fs[k].data == lead + Join(units) && CodeFree(lead) && AllCodeFree(units)
    ensures OutAt(d, fs, ps, k).Emit?
    ensures var nals := SeenAll(lead, units);
            var kept := if nals == [] then [fs[k].data] else WithoutParamSets(nals, fs[k].codec);
            Decode(OutAt(d, fs, ps, k).pkt.data) == Some(kept) <==> forall n :: n in kept ==> |n| < U32
  {
    PictureOut(d, fs, ps, k);
    hide OutAt, Before, Duration, BuildStreams, Avcc, Split, Decode, SeenAll, WithoutParamSets, BasePacket, Join, CodeFree, AllCodeFree;
    SplitOfStream(lead, units);
    SplitEmptyIff(fs[k].data);
    AvccReadsBack(fs[k].data, fs[k].codec);
  }

  /** In particular, for NAL units given by their headers and joined without ambiguity: the packet carries
      all of them except parameter sets. */
  lemma PacketsCarryPictures(d: State, fs: seq<Frame>, ps: Parsers, k: nat, hs: seq<Header>, units: seq<Unit>)
    requires k < |fs| && IsPicture(fs[k]) && hs != [] && forall h :: h in hs ==> Fits(h, fs[k].codec)
    requires Nals(units) == CodedAll(hs, fs[k].codec) && fs[k].data == Join(units)
    requires AllCodeFree(units) && (forall u :: u in units ==> u.nal != []) && Unambiguous([], units)
    requires forall u :: u in units ==> |u.nal| < U32
    ensures OutAt(d, fs, ps, k).Emit?
    ensures Decode(OutAt(d, fs, ps, k).pkt.data) == Some(CodedAll(PictureHeaders(hs, fs[k].codec), fs[k].codec))
  {
    var codec, nals := fs[k].codec, Nals(units);
    RecoveredExactlyWhenUnambiguous(units);
    SplitOfStream([], units);
    assert [] + Join(units) == Join(units);
    PacketsCarryNals(d, fs, ps, k, [], units);
    OnlyParamSetsDropped(hs, codec);
    assert nals != [] by { hide Coded; }
    hide OutAt, Decode, Split, SeenAll, Join, CodeFree, Unambiguous;
    forall n | n in WithoutParamSets(nals, codec) ensures |n| < U32 { NalsHave(units, n); }
  }

  lemma {:induction false} NalsHave(units: seq<Unit>, n: Bytes)
    requires n in Nals(units)
    ensures exists u :: u in units && u.nal == n
  {
    if units[0].nal != n {
      NalsHave(units[1..], n);
      var u :| u in units[1..] && u.nal == n;
      assert u in units;
    } else {
      assert units[0] in units;
    }
  }

  /** The stamps of every video packet: DTS and PTS offset within a nanosecond of their ticks on the clock
      of the last codec installed, zero without one; key flag, codec tag, frame id, wall clock and
      discontinuity flag those of the frame. */
  lemma PacketsAreStamped(d: State, fs: seq<Frame>, ps: Parsers, k: nat)
    requires k < |fs| && IsPicture(fs[k]) && ClockAt(d, fs, ps, k) < 0x1_0000_0000
    ensures OutAt(d, fs, ps, k).Emit?
    ensures var f, pkt, clk := fs[k], OutAt(d, fs, ps, k).pkt, ClockAt(d, fs, ps, k);
            && (clk == 0 ==> pkt.dts == 0 && pkt.ptsOffset == 0)
            && (clk > 0 && InRange(f.dtsTicks) ==> WithinNanosecond(pkt.dts, f.dtsTicks, clk))
            && (clk > 0 && InRange(f.ptsTicks - f.dtsTicks) ==> WithinNanosecond(pkt.ptsOffset, f.ptsTicks - f.dtsTicks, clk))
            && pkt.key == f.kind.Key? && pkt.frameId == f.ptsTicks
            && pkt.wallClockMs == f.wallClockMs && pkt.discontinuity == f.discontinuity
            && (pkt.tag.H264? <==> f.codec == CODEC_H264) && (pkt.tag.H265? <==> f.codec == CODEC_H265)
            && (pkt.tag.Mjpeg? <==> f.codec == 0) && (pkt.tag.UnknownVideo? <==> f.codec !in {0, 2, 8})
  {
    var f, clk := fs[k], ClockAt(d, fs, ps, k);
    CodecState(d, fs, ps, k);
    PictureOut(d, fs, ps, k);
    hide OutAt, Before, Avcc, Duration, BuildStreams, LastInstalled;
    StampsExact(f, clk);
    hide TicksToNanos, PtsOffset;
  }

  lemma StampsExact(f: Frame, clk: nat)
    requires clk < 0x1_0000_0000
    ensures clk == 0 ==> TicksToNanos(f.dtsTicks, clk) == 0 == PtsOffset(f, clk)
    ensures clk > 0 && InRange(f.dtsTicks) ==> WithinNanosecond(TicksToNanos(f.dtsTicks, clk), f.dtsTicks, clk)
    ensures clk > 0 && InRange(f.ptsTicks - f.dtsTicks) ==> WithinNanosecond(PtsOffset(f, clk), f.ptsTicks - f.dtsTicks, clk)
  {
    if clk > 0 {
      hide TicksToNanos, Wrap64;
      var diff := f.ptsTicks - f.dtsTicks;
      if InRange(f.dtsTicks) { ConversionAccurateIff(f.dtsTicks, clk); }
      if InRange(diff) {
        SmallUnwrapped(diff);
        ConversionAccurateIff(diff, clk);
      }
    }
  }

  lemma SmallUnwrapped(x: int)
    requires InRange(x)
    ensures Wrap64(x) == x
  {
    var k := WrapBy(x);
  }

  /** DTS of the last video packet in front of frame k, read off the packets. */
  function LastPacketDts(d: State, fs: seq<Frame>, ps: Parsers, k: nat): (r: Option<int>)
    requires k <= |fs|
  {
    if k == 0 then d.lastVideoDTS
    else if OutAt(d, fs, ps, k - 1).Emit? then Some(OutAt(d, fs, ps, k - 1).pkt.dts)
    else LastPacketDts(d, fs, ps, k - 1)
  }

  lemma {:induction false} LastDtsIs(d: State, fs: seq<Frame>, ps: Parsers, k: nat)
    requires k <= |fs|
    ensures Before(d, fs, ps, k).lastVideoDTS == LastPacketDts(d, fs, ps, k)
  {
    if k > 0 {
      LastDtsIs(d, fs, ps, k - 1);
      StepDts(Before(d, fs, ps, k - 1), fs[k - 1], ps);
      hide Step;
    }
  }

  /** The duration of every video packet: the distance to the packet before when DTS grew, by less than 63
      bits, and otherwise the nominal duration of the last codec installed. */
  lemma PacketsLast(d: State, fs: seq<Frame>, ps: Parsers, k: nat)
    requires k < |fs| && IsPicture(fs[k])
    ensures OutAt(d, fs, ps, k).Emit?
    ensures var pkt, last := OutAt(d, fs, ps, k).pkt, LastPacketDts(d, fs, ps, k);
            var nominal := match LastInstalled(d, fs, ps, k) case None => 0 case Some(c) => c.nominalDuration;
            && (last.Some? && 0 < pkt.dts - last.value < TWO63 ==> pkt.duration == pkt.dts - last.value)
            && (last.None? || -TWO63 <= pkt.dts - last.value <= 0 ==> pkt.duration == nominal)
  {
    CodecState(d, fs, ps, k);
    LastDtsIs(d, fs, ps, k);
    PictureOut(d, fs, ps, k);
    StepDts(Before(d, fs, ps, k), fs[k], ps);
    var pkt, last := OutAt(d, fs, ps, k).pkt, LastPacketDts(d, fs, ps, k);
    hide OutAt, Before, LastPacketDts, LastInstalled, BasePacket, Avcc, Step;
    if last.Some? { Unwrapped(pkt.dts - last.value); }
    hide Wrap64, PicturePacket;
  }

  lemma Unwrapped(x: int)
    ensures -TWO63 <= x < TWO63 ==> Wrap64(x) == x
  {
    var k := WrapBy(x);
  }

  // ---------------------------------------------------------------- what the parsers receive

  lemma {:induction false} LastOfTypeIs(nals: seq<Bytes>, codec: int, t: int, i: nat)
    requires i < |nals| && nals[i] != [] && NalType(nals[i], codec) == t
    requires forall k :: i < k < |nals| && nals[k] != [] ==> NalType(nals[k], codec) != t
    ensures LastOfType(nals, codec, t) == Some(nals[i])
  {
    if i < |nals| - 1 { LastOfTypeIs(nals[..|nals| - 1], codec, t, i); }
  }

  lemma {:induction false} NoneOfType(nals: seq<Bytes>, codec: int, t: int)
    requires forall k :: 0 <= k < |nals| && nals[k] != [] ==> NalType(nals[k], codec) != t
    ensures LastOfType(nals, codec, t) == None
  {
    if nals != [] { NoneOfType(nals[..|nals| - 1], codec, t); }
  }

  /** NAL unit i is the last of its type, by the headers; -1 when there is none. */
  predicate IsLastOf(hs: seq<Header>, kind: nat, i: int) {
    && -1 <= i < |hs| && (i >= 0 ==> hs[i].kind == kind)
    && forall k :: i < k < |hs| ==> k >= 0 && hs[k].kind != kind
  }

  lemma CodedType(h: Header, codec: int)
    requires Fits(h, codec)
    ensures NalType(Coded(h, codec), codec) == h.kind
  {}

  lemma {:induction false} CodedAt(hs: seq<Header>, codec: int, i: nat)
    requires i < |hs| && forall h :: h in hs ==> Fits(h, codec)
    ensures |CodedAll(hs, codec)| == |hs| && CodedAll(hs, codec)[i] == Coded(hs[i], codec)
  {
    hide Coded;
    if |hs| > 1 { CodedAt(hs[1..], codec, if i > 0 then i - 1 else 0); }
  }

  lemma LastByHeader(hs: seq<Header>, codec: int, kind: nat, i: int)
    requires (forall h :: h in hs ==> Fits(h, codec)) && IsLastOf(hs, kind, i)
    ensures LastOfType(CodedAll(hs, codec), codec, kind) == if i < 0 then None else Some(Coded(hs[i], codec))
  {
    hide Coded, NalType, LastOfType, Fits, CodedAll;
    var nals := CodedAll(hs, codec);
    if hs == [] {
      CodedNone(codec);
      NoneOfType(nals, codec, kind);
    } else {
      CodedAt(hs, codec, 0);
      forall k | 0 <= k < |hs| ensures nals[k] != [] && nals[k] == Coded(hs[k], codec) && NalType(nals[k], codec) == hs[k].kind {
        CodedAt(hs, codec, k);
        CodedSome(hs[k], codec);
        CodedType(hs[k], codec);
      }
      if i >= 0 { LastOfTypeIs(nals, codec, kind, i); } else { NoneOfType(nals, codec, kind); }
    }
  }

  lemma CodedSome(h: Header, codec: int)
    requires Fits(h, codec)
    ensures Coded(h, codec) != []
  {}

  lemma CodedNone(codec: int)
    ensures CodedAll([], codec) == []
  {}

  /** A parameter-set frame whose NAL units are given by their headers. H.264: the parser receives the last
      SPS and the last PPS, in this order, and what it makes of them is installed; without both nothing
      is. The frame is an error exactly when the parser refuses them. */
  lemma H264ParserReceives(f: Frame, ps: Parsers, hs: seq<Header>, sps: int, pps: int)
    requires IsParamSetFrame(f) && f.codec == CODEC_H264 && (forall h :: h in hs ==> Fits(h, f.codec))
    requires Split(f.data) == CodedAll(hs, f.codec) && IsLastOf(hs, 7, sps) && IsLastOf(hs, 8, pps)
    ensures Installs(f, ps) == if sps < 0 || pps < 0 then None else ps.h264(Coded(hs[sps], f.codec), Coded(hs[pps], f.codec))
    ensures forall d: State :: Step(d, f, ps).1 == if sps >= 0 && pps >= 0 && Installs(f, ps).None? then ParseError else SkipFrame
  {
    assert -1 <= sps < |hs| && -1 <= pps < |hs|;
    hide Coded, CodedAll, Split, LastOfType, Fits, IsLastOf;
    LastByHeader(hs, f.codec, 7, sps);
    LastByHeader(hs, f.codec, 8, pps);
  }

  /** H.265: the last VPS, SPS and PPS. */
  lemma H265ParserReceives(f: Frame, ps: Parsers, hs: seq<Header>, vps: int, sps: int, pps: int)
    requires IsParamSetFrame(f) && f.codec == CODEC_H265 && (forall h :: h in hs ==> Fits(h, f.codec))
    requires Split(f.data) == CodedAll(hs, f.codec) && IsLastOf(hs, 32, vps) && IsLastOf(hs, 33, sps) && IsLastOf(hs, 34, pps)
    ensures Installs(f, ps) ==
            if vps < 0 || sps < 0 || pps < 0 then None
            else ps.h265(Coded(hs[vps], f.codec), Coded(hs[sps], f.codec), Coded(hs[pps], f.codec))
    ensures forall d: State :: Step(d, f, ps).1 == if vps >= 0 && sps >= 0 && pps >= 0 && Installs(f, ps).None? then ParseError else SkipFrame
  {
    assert -1 <= vps < |hs| && -1 <= sps < |hs| && -1 <= pps < |hs|;
    hide Coded, CodedAll, Split, LastOfType, Fits, IsLastOf;
    LastByHeader(hs, f.codec, 32, vps);
    LastByHeader(hs, f.codec, 33, sps);
    LastByHeader(hs, f.codec, 34, pps);
  }

  // ---------------------------------------------------------------- audio packets

  /** Every audio packet of every run: an audio frame yields one exactly when a format has been recognised
      and, for AAC, its header can be stripped; it carries that payload, stamped on the format's sample
      rate. */
  lemma AudioPacketsCarry(d: State, fs: seq<Frame>, ps: Parsers, k: nat)
    requires k < |fs| && fs[k].media.AudioMedia?
    ensures var f, out, audio := fs[k], OutAt(d, fs, ps, k), FirstAudio(d, fs, ps, k + 1);
            && (out.EmitAudio? <==> audio.Some? && (f.codec == CODEC_AAC ==> ps.adtsPayload(f.data).Some?))
            && (out.EmitAudio? ==>
                  && Some(out.pkt.data) == (if f.codec == CODEC_AAC then ps.adtsPayload(f.data) else Some(f.data))
                  && !out.pkt.key && out.pkt.newCodecs.None? && out.pkt.frameId == f.ptsTicks
                  && out.pkt.wallClockMs == f.wallClockMs && out.pkt.discontinuity == f.discontinuity
                  && (out.pkt.tag.Aac? <==> f.codec == CODEC_AAC) && (out.pkt.tag.PcmMulaw? <==> f.codec == 3)
                  && (out.pkt.tag.PcmAlaw? <==> f.codec == 4) && (out.pkt.tag.Opus? <==> f.codec == 11)
                  && (out.pkt.tag.Pcm? <==> f.codec !in {3, 4, 6, 11})
                  && (0 < audio.value.sampleRate < 0x1_0000_0000 && InRange(f.dtsTicks) ==>
                        WithinNanosecond(out.pkt.dts, f.dtsTicks, audio.value.sampleRate))
                  && (0 < audio.value.sampleRate < 0x1_0000_0000 && InRange(f.ptsTicks - f.dtsTicks) ==>
                        WithinNanosecond(out.pkt.ptsOffset, f.ptsTicks - f.dtsTicks, audio.value.sampleRate)))
  {
    CodecState(d, fs, ps, k);
    CodecState(d, fs, ps, k + 1);
    var f, out, audio := fs[k], OutAt(d, fs, ps, k), FirstAudio(d, fs, ps, k + 1);
    hide Before, Wrap64, FirstAudio, LastInstalled, InstalledSinceKey, AudioDuration, PtsOffset;
    if audio.Some? && 0 < audio.value.sampleRate < 0x1_0000_0000 { StampsExact(f, audio.value.sampleRate); }
    hide TicksToNanos;
  }

  // ---------------------------------------------------------------- durations

  ghost predicate PositiveNominals(ps: Parsers) {
    && (forall a, b :: ps.h264(a, b).Some? ==> ps.h264(a, b).value.nominalDuration > 0)
    && (forall a, b, c :: ps.h265(a, b, c).Some? ==> ps.h265(a, b, c).value.nominalDuration > 0)
  }

  lemma InstalledNominal(f: Frame, ps: Parsers)
    requires PositiveNominals(ps) && Installs(f, ps).Some?
    ensures Installs(f, ps).value.nominalDuration > 0
  {
    hide Split, LastOfType;
  }

  lemma {:induction false} NominalStaysPositive(d: State, fs: seq<Frame>, ps: Parsers, k: nat)
    requires k <= |fs| && Nominal(d) > 0 && PositiveNominals(ps)
    ensures Nominal(Before(d, fs, ps, k)) > 0
  {
    if k > 0 {
      NominalStaysPositive(d, fs, ps, k - 1);
      StepCodec(Before(d, fs, ps, k - 1), fs[k - 1], ps);
      if Installs(fs[k - 1], ps).Some? { InstalledNominal(fs[k - 1], ps); }
      hide Step, Installs, PositiveNominals;
    }
  }

  /** With positive nominal durations every video packet has a positive duration, whatever the
      timestamps do. */
  lemma DurationsPositive(d: State, fs: seq<Frame>, ps: Parsers, k: nat)
    requires k < |fs| && Nominal(d) > 0 && PositiveNominals(ps) && IsPicture(fs[k])
    ensures OutAt(d, fs, ps, k).Emit? && OutAt(d, fs, ps, k).pkt.duration > 0
  {
    NominalStaysPositive(d, fs, ps, k);
    hide Before, Avcc, TicksToNanos, PositiveNominals, Wrap64;
  }

  /** Audio frames carry a 32-bit sample count, so their durations never wrap: every audio packet's
      duration is within a nanosecond of its samples, or the time since the packet before, and never
      negative; and it announces no codecs. */
  lemma AudioDurationsExact(d: State, fs: seq<Frame>, ps: Parsers, k: nat)
    requires k < |fs| && fs[k].durationTicks < 0x1_0000_0000 && OutAt(d, fs, ps, k).EmitAudio?
    requires Before(d, fs, ps, k + 1).audio.Some? && Before(d, fs, ps, k + 1).audio.value.sampleRate < 0x1_0000_0000
    ensures var pkt, rate := OutAt(d, fs, ps, k).pkt, Before(d, fs, ps, k + 1).audio.value.sampleRate;
            var ticks, last := fs[k].durationTicks, Before(d, fs, ps, k).lastAudioDTS;
            && pkt.duration >= 0 && pkt.newCodecs.None?
            && (rate > 0 && ticks > 0 ==> -(rate as int) < pkt.duration * rate - ticks * NANOS < rate)
            && ((rate == 0 || ticks == 0) && last.Some? && 0 < pkt.dts - last.value < TWO63 ==>
                  pkt.duration == pkt.dts - last.value)
  {
    var pkt, rate := OutAt(d, fs, ps, k).pkt, Before(d, fs, ps, k + 1).audio.value.sampleRate;
    var ticks, last := fs[k].durationTicks, Before(d, fs, ps, k).lastAudioDTS;
    hide Before, Avcc, ReadParamSet, TicksToNanos, AudioDuration;
    AudioDurationExact(last, fs[k], rate, pkt.dts);
  }

  lemma AudioDurationExact(last: Option<int>, f: Frame, rate: nat, dts: int)
    requires f.durationTicks < 0x1_0000_0000 && rate < 0x1_0000_0000
    ensures var dur := AudioDuration(last, f, rate, dts);
            && dur >= 0
            && (rate > 0 && f.durationTicks > 0 ==> -(rate as int) < dur * rate - f.durationTicks * NANOS < rate)
            && ((rate == 0 || f.durationTicks == 0) && last.Some? && 0 < dts - last.value < TWO63 ==> dur == dts - last.value)
  {
    var ticks := f.durationTicks;
    if rate > 0 && ticks > 0 {
      assert TicksToNanos(0, rate) == 0;
      hide TicksToNanos, Wrap64;
      ConversionAccurateIff(ticks, rate);
      ConversionMonotone(0, ticks, rate);
    } else if last.Some? && 0 < dts - last.value < TWO63 {
      Exact(dts - last.value);
    }
  }

  /** The video packets of a run. */
  function Pictures(d: State, fs: seq<Frame>, ps: Parsers): (r: seq<Packet>)
    decreases |fs|
  {
    if fs == [] then []
    else
      var (t, out) := Step(d, fs[0], ps);
      (if out.Emit? then [out.pkt] else []) + Pictures(t, fs[1..], ps)
  }

  function TotalDuration(pkts: seq<Packet>): int {
    if pkts == [] then 0 else pkts[0].duration + TotalDuration(pkts[1..])
  }

  /** DTS strictly increases, by steps that fit 63 bits. */
  ghost predicate Ascending(start: int, pkts: seq<Packet>)
    decreases |pkts|
  {
    pkts == [] || (0 < pkts[0].dts - start < TWO63 && Ascending(pkts[0].dts, pkts[1..]))
  }

  lemma Exact(x: int)
    requires 0 < x < TWO63
    ensures Wrap64(x) == x
  {
    var k := WrapBy(x);
  }

  lemma StepDts(d: State, f: Frame, ps: Parsers)
    ensures var (t, out) := Step(d, f, ps);
            && (out.Emit? <==> IsPicture(f))
            && t.lastVideoDTS == (if out.Emit? then Some(out.pkt.dts) else d.lastVideoDTS)
            && (out.Emit? ==> out.pkt.duration == Duration(d, out.pkt.dts))
  {
    hide ReadParamSet, Avcc, TicksToNanos, Duration;
  }

  /** For strictly increasing DTS the durations add up to the time covered since the packet before. */
  lemma {:induction false} DurationsTelescope(d: State, fs: seq<Frame>, ps: Parsers)
    requires d.lastVideoDTS.Some?
    requires Ascending(d.lastVideoDTS.value, Pictures(d, fs, ps))
    ensures var ps' := Pictures(d, fs, ps);
            TotalDuration(ps') == if ps' == [] then 0 else ps'[|ps'| - 1].dts - d.lastVideoDTS.value
    decreases |fs|
  {
    if fs != [] {
      var (t, out) := Step(d, fs[0], ps);
      StepDts(d, fs[0], ps);
      var rest := Pictures(t, fs[1..], ps);
      hide Step;
      if out.Emit? {
        assert ([out.pkt] + rest)[1..] == rest;
        Exact(out.pkt.dts - d.lastVideoDTS.value);
        DurationsTelescope(t, fs[1..], ps);
      } else {
        assert [] + rest == rest;
        DurationsTelescope(t, fs[1..], ps);
      }
    }
  }

  /** From the first picture on: the durations of all later ones sum exactly to last DTS minus first. */
  lemma {:induction false} DurationsCoverTheRun(d: State, fs: seq<Frame>, ps: Parsers)
    requires var ps' := Pictures(d, fs, ps); ps' != [] && Ascending(ps'[0].dts, ps'[1..])
    ensures var ps' := Pictures(d, fs, ps); TotalDuration(ps'[1..]) == ps'[|ps'| - 1].dts - ps'[0].dts
    decreases |fs|
  {
    var (t, out) := Step(d, fs[0], ps);
    StepDts(d, fs[0], ps);
    var rest := Pictures(t, fs[1..], ps);
    hide Step;
    if out.Emit? {
      assert ([out.pkt] + rest)[1..] == rest;
      DurationsTelescope(t, fs[1..], ps);
    } else {
      assert [] + rest == rest;
      DurationsCoverTheRun(t, fs[1..], ps);
    }
  }
}
