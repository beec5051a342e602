/**
 * The image scaler's bookkeeping: the OBS-to-FFmpeg pixel format table, the
 * output dimensions, and the reuse of the output buffer. libswscale is left
 * out: the context `sws_getCachedContext` returns, the output height it is
 * given for wide frames (computed in double precision) and the pixels
 * `sws_scale` writes are parameters.
 */
module Scaler {
  import opened Bytes
  import opened Wrappers

  const MAX_WIDTH: int := 640

  /** OBS's `enum video_format`; `Other` is any value the switch does not list. */
  datatype VideoFormat =
    | FormatNone | I420 | NV12 | YVYU | YUY2 | UYVY | RGBA | BGRA | BGRX | Y800
    | I444 | BGR3 | I422 | I40A | I42A | YUVA | AYUV | Other(code: int)

  /** FFmpeg's `enum AVPixelFormat`, the values the table produces. */
  datatype PixelFormat =
    | PixNone | PixYUV420P | PixNV12 | PixYUYV422 | PixUYVY422 | PixRGBA | PixBGRA
    | PixGRAY8 | PixYUV444P | PixBGR24 | PixYUV422P | PixYUVA420P | PixYUVA422P | PixYUVA444P

  /** `get_ffmpeg_video_format`. */
  function FfmpegFormat(f: VideoFormat): PixelFormat
  {
    match f
    case I420 => PixYUV420P
    case NV12 => PixNV12
    case YUY2 => PixYUYV422
    case UYVY => PixUYVY422
    case RGBA => PixRGBA
    case BGRA => PixBGRA
    case BGRX => PixBGRA
    case Y800 => PixGRAY8
    case I444 => PixYUV444P
    case BGR3 => PixBGR24
    case I422 => PixYUV422P
    case I40A => PixYUVA420P
    case I42A => PixYUVA422P
    case YUVA => PixYUVA444P
    case _ => PixNone
  }

  /** The OBS format each supported FFmpeg format comes from (BGRA for the shared BGRA/BGRX entry). */
  function ObsFormat(p: PixelFormat): VideoFormat
  {
    match p
    case PixYUV420P => I420
    case PixNV12 => NV12
    case PixYUYV422 => YUY2
    case PixUYVY422 => UYVY
    case PixRGBA => RGBA
    case PixBGRA => BGRA
    case PixGRAY8 => Y800
    case PixYUV444P => I444
    case PixBGR24 => BGR3
    case PixYUV422P => I422
    case PixYUVA420P => I40A
    case PixYUVA422P => I42A
    case PixYUVA444P => YUVA
    case PixNone => FormatNone
  }

  /** Every FFmpeg format in the table is reached, from the OBS format ObsFormat names. */
  lemma FormatTableOnto(p: PixelFormat)
    ensures FfmpegFormat(ObsFormat(p)) == p
  {
  }

  /**
   * The table is one-to-one on supported formats except that BGRA and BGRX
   * share an entry; NONE, YVYU, AYUV and unlisted values are unsupported.
   */
  lemma FormatTableShape(f: VideoFormat, g: VideoFormat)
    ensures FfmpegFormat(f) == PixNone <==> f in {FormatNone, YVYU, AYUV} || f.Other?
    ensures FfmpegFormat(f) == FfmpegFormat(g) != PixNone ==> f == g || (f in {BGRA, BGRX} && g in {BGRA, BGRX})
    ensures FfmpegFormat(BGRX) == FfmpegFormat(BGRA) == PixBGRA && FfmpegFormat(BGR3) == PixBGR24
    ensures FfmpegFormat(f) != PixNone ==> ObsFormat(FfmpegFormat(f)) == (if f == BGRX then BGRA else f)
  {
  }

  /** The output dimensions: frames up to MAX_WIDTH wide keep theirs; wider ones get MAX_WIDTH and the scaled height. */
  function NewDimensions(width: int, height: int, scaledHeight: int): (int, int)
  {
    if width <= MAX_WIDTH then (width, height) else (MAX_WIDTH, scaledHeight)
  }

  /** The scaler record as a value. */
  datatype Scaled = Scaled(newHeight: int, newWidth: int, buffer: Option<seq<byte>>, bufferSize: int, context: Ptr)

  /** The frame fits the `int` arithmetic of the buffer size, and the scaled height is no taller than the frame. */
  predicate FrameFits(width: int, height: int, scaledHeight: int)
  {
    0 <= width && 0 <= height && width * height * 3 < 0x8000_0000 && 0 <= scaledHeight <= height
  }

  /** A status code with the record it leaves. */
  datatype ScaleResult = ScaleResult(rc: int, scaler: Scaled)

  /**
   * `ImageScaler_scale_image`: the new dimensions, the context, then the
   * buffer: kept when its size matches, otherwise replaced by a zeroed one
   * (failure returns 1), then filled with the scaled pixels.
   */
  function ScaleSpec(s: Scaled, width: int, height: int, context: Ptr, scaledHeight: int, allocOk: bool, pixels: seq<byte>): ScaleResult
    requires FrameFits(width, height, scaledHeight)
  {
    var dims := NewDimensions(width, height, scaledHeight);
    var s1 := s.(newWidth := dims.0, newHeight := dims.1, context := context);
    if context == Null then ScaleResult(1, s1)
    else
      var size := dims.0 * dims.1 * 3;
      if s1.buffer.Some? && s1.bufferSize == size then ScaleResult(0, s1.(buffer := Some(pixels)))
      else if !allocOk then ScaleResult(1, s1.(buffer := None, bufferSize := size))
      else ScaleResult(0, s1.(buffer := Some(pixels), bufferSize := size))
  }

  /** The output is never wider than MAX_WIDTH; narrow frames keep their size, wide ones get MAX_WIDTH. */
  lemma ScaleDimensions(s: Scaled, width: int, height: int, context: Ptr, scaledHeight: int, allocOk: bool, pixels: seq<byte>)
    requires FrameFits(width, height, scaledHeight)
    ensures var r := ScaleSpec(s, width, height, context, scaledHeight, allocOk, pixels).scaler;
            r.newWidth <= MAX_WIDTH && r.context == context &&
            (width <= MAX_WIDTH ==> r.newWidth == width && r.newHeight == height) &&
            (width > MAX_WIDTH ==> r.newWidth == MAX_WIDTH && r.newHeight == scaledHeight)
  {
  }

  /** A NULL context fails before the buffer is touched. */
  lemma NullContextKeepsBuffer(s: Scaled, width: int, height: int, scaledHeight: int, allocOk: bool, pixels: seq<byte>)
    requires FrameFits(width, height, scaledHeight)
    ensures var r := ScaleSpec(s, width, height, Null, scaledHeight, allocOk, pixels);
            r.rc == 1 && r.scaler.buffer == s.buffer && r.scaler.bufferSize == s.bufferSize
  {
  }

  /**
   * With a context, the buffer size becomes new_width * new_height * 3 and the
   * call fails exactly when the buffer had to be replaced and the allocator
   * failed; on success the buffer holds the scaled pixels.
   */
  lemma ScaleBufferRule(s: Scaled, width: int, height: int, context: Ptr, scaledHeight: int, allocOk: bool, pixels: seq<byte>)
    requires FrameFits(width, height, scaledHeight) && context != Null
    ensures var r := ScaleSpec(s, width, height, context, scaledHeight, allocOk, pixels);
            var size := r.scaler.newWidth * r.scaler.newHeight * 3;
            r.scaler.bufferSize == size && 0 <= size < 0x8000_0000 &&
            (r.rc == 1 <==> !allocOk && !(s.buffer.Some? && s.bufferSize == size)) &&
            (r.rc == 0 ==> r.scaler.buffer == Some(pixels)) &&
            (r.rc == 1 ==> r.scaler.buffer.None?)
  {
    var w := NewDimensions(width, height, scaledHeight).0;
    var h := NewDimensions(width, height, scaledHeight).1;
    if width > MAX_WIDTH {
      assert w * h <= width * height by {
        MulMono(w, width, h, height);
      }
    }
  }

  lemma MulMono(a: int, b: int, c: int, d: int)
    requires 0 <= a <= b && 0 <= c <= d
    ensures a * c <= b * d
  {
    assert a * c <= b * c;
    assert b * c <= b * d;
  }

  /** Scaling a frame of the same size again reuses the buffer, so it cannot fail for want of memory. */
  lemma RescaleReusesBuffer(s: Scaled, width: int, height: int, context: Ptr, scaledHeight: int, allocOk: bool, pixels: seq<byte>,
                            allocOk': bool, pixels': seq<byte>)
    requires FrameFits(width, height, scaledHeight) && context != Null
    requires ScaleSpec(s, width, height, context, scaledHeight, allocOk, pixels).rc == 0
    ensures var r := ScaleSpec(s, width, height, context, scaledHeight, allocOk, pixels).scaler;
            ScaleSpec(r, width, height, context, scaledHeight, allocOk', pixels') ==
            ScaleResult(0, r.(buffer := Some(pixels')))
  {
  }

  /** What the caller of `ImageScaler_create` receives, as written: no `return` after the initialisers. */
  function CreateAsWritten(block: Ptr, leftover: Ptr): Ptr
  {
    MissingReturnResult(block, leftover)
  }

  /** An allocation that succeeded can reach the caller as NULL or as some other address. */
  lemma CreateLosesScaler()
    ensures CreateAsWritten(Addr(1), Null) == Null
    ensures CreateAsWritten(Addr(1), Addr(2)) != Addr(1)
  {
    MissingReturnLosesAllocation();
  }

  class ImageScaler {
    var newHeight: int32
    var newWidth: int32
    var oldWidth: int32
    var oldHeight: int32
    var buffer: array?<byte>
    var bufferSize: int
    var scaleContext: Ptr

    ghost predicate Valid()
      reads this
    {
      buffer != null ==> buffer.Length == bufferSize
    }

    /** The record as a value. */
    ghost function Value(): Scaled
      reads this, buffer
    {
      Scaled(newHeight, newWidth, if buffer == null then None else Some(buffer[..]), bufferSize, scaleContext)
    }

    /** The zeroed scaler `ImageScaler_create` means to return. */
    constructor ()
      ensures Valid() && Value() == Scaled(0, 0, None, 0, Null) && oldWidth == 0 && oldHeight == 0
    {
      newHeight := 0;
      newWidth := 0;
      oldHeight := 0;
      oldWidth := 0;
      buffer := null;
      bufferSize := 0;
      scaleContext := Null;
    }

    /**
     * `ImageScaler_scale_image` with libswscale's answers as parameters: `context`
     * is what `sws_getCachedContext` returns for FfmpegFormat(format), and
     * `pixels` what `sws_scale` writes.
     */
    method ScaleImage(width: int32, height: int32, format: VideoFormat, context: Ptr, scaledHeight: int32,
                      allocOk: bool, pixels: seq<byte>) returns (rc: int)
      requires Valid() && FrameFits(width, height, scaledHeight)
      requires |pixels| == NewDimensions(width, height, scaledHeight).0 * NewDimensions(width, height, scaledHeight).1 * 3
      modifies this, buffer
      ensures Valid()
      ensures ScaleResult(rc, Value()) == ScaleSpec(old(Value()), width, height, context, scaledHeight, allocOk, pixels)
      ensures rc == 0 && old(buffer) != null && old(bufferSize) == bufferSize ==> buffer == old(buffer)
      ensures oldWidth == old(oldWidth) && oldHeight == old(oldHeight)
    {
      if width <= MAX_WIDTH {
        newWidth := width;
        newHeight := height;
      } else {
        newWidth := MAX_WIDTH;
        newHeight := scaledHeight;
      }
      scaleContext := context;
      if context == Null {
        return 1;
      }
      ScaleBufferRule(old(Value()), width, height, context, scaledHeight, allocOk, pixels);
      var size := newWidth * newHeight * 3;
      if buffer == null || bufferSize != size {
        if allocOk {
          buffer := new byte[size](_ => 0);
        } else {
          buffer := null;
        }
        bufferSize := size;
        if buffer == null {
          return 1;
        }
      }
      forall i | 0 <= i < size {
        buffer[i] := pixels[i];
      }
      assert buffer[..] == pixels;
      rc := 0;
    }

    function GetBuffer(): array?<byte>
      reads this
    {
      buffer
    }

    function GetNewHeight(): int32
      reads this
    {
      newHeight
    }

    function GetNewWidth(): int32
      reads this
    {
      newWidth
    }

    function GetBufferSize(): int
      reads this
    {
      bufferSize
    }
  }

  /** `ImageScaler_destroy`: nothing for NULL; otherwise the buffer and the context are released and nulled. */
  method DestroyScaler(s: ImageScaler?)
    modifies s
    ensures s != null ==> s.buffer == null && s.scaleContext == Null && s.Valid()
    ensures s != null ==> s.newHeight == old(s.newHeight) && s.newWidth == old(s.newWidth) && s.bufferSize == old(s.bufferSize)
  {
    if s != null {
      if s.buffer != null {
        s.buffer := null;
      }
      if s.scaleContext != Null {
        s.scaleContext := Null;
      }
    }
  }
}
