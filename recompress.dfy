/**
 * `_recompress_image` of tools/compress.py as a function from a stream
 * dictionary to its rewritten form. The classifier reads BitsPerComponent
 * and Filter; a JPEG is decoded, possibly downscaled and re-encoded; raw or
 * Flate samples are checked against Width x Height x components before
 * they are encoded as JPEG. Whatever raises leaves the stream as it was.
 */
module Recompress {
  import opened Wrappers
  import opened PdfObjects
  import opened Quality

  /** The pixel mode chosen from the colour space: an absent or unknown space is read as RGB. */
  function ModeOf(cs: ColorSpace): Mode {
    if cs == DeviceGray then L
    else if cs == DeviceCMYK then CMYK
    else RGB
  }

  /** `components = 3 if mode == "RGB" else (4 if mode == "CMYK" else 1)`. */
  function Components(m: Mode): nat {
    if m == RGB then 3 else if m == CMYK then 4 else 1
  }

  lemma ComponentsOfSpaces()
    ensures Components(ModeOf(DeviceGray)) == 1
    ensures Components(ModeOf(DeviceCMYK)) == 4
    ensures Components(ModeOf(DeviceRGB)) == 3
    ensures Components(ModeOf(NoColorSpace)) == 3 && Components(ModeOf(OtherSpace)) == 3
  {
  }

  /** Which branch of `_recompress_image` a stream takes. */
  datatype Route = Unsupported | JpegPath | RawPath

  /**
   * The classifier: `int()` of Width, Height or BitsPerComponent raising,
   * a bit depth other than 8 (absent counts as 8), or a filter other than
   * `/DCTDecode`, `/FlateDecode` or none, all leave the stream alone.
   */
  function RouteOf(d: StreamDict): (r: Route)
    ensures r != Unsupported ==> IntOr(d.bitsPerComponent, 8) == Some(8)
    ensures r == JpegPath <==> IntOr(d.width, 0).Some? && IntOr(d.height, 0).Some? && IntOr(d.bitsPerComponent, 8) == Some(8) && d.filter == DCTDecode
    ensures r == RawPath <==> IntOr(d.width, 0).Some? && IntOr(d.height, 0).Some? && IntOr(d.bitsPerComponent, 8) == Some(8) && d.filter in {FlateDecode, NoFilter}
  {
    if IntOr(d.width, 0).None? || IntOr(d.height, 0).None? then Unsupported
    else
      match IntOr(d.bitsPerComponent, 8)
      case None => Unsupported
      case Some(bpc) =>
        if bpc != 8 then Unsupported
        else if d.filter == DCTDecode then JpegPath
        else if d.filter == FlateDecode || d.filter == NoFilter then RawPath
        else Unsupported
  }

  /** The decoded samples of a raw-path stream (`xobj.read_bytes()`): the payload itself when there is no filter. */
  function Samples(d: StreamDict, codec: Codec): Option<seq<byte>> {
    if d.filter == NoFilter then Some(d.payload) else codec.inflate(d.payload)
  }

  /** The decoded samples are exactly Width x Height x components bytes long. */
  predicate LengthMatches(d: StreamDict, codec: Codec)
    requires IntOr(d.width, 0).Some? && IntOr(d.height, 0).Some?
  {
    var w := IntOr(d.width, 0).value;
    var h := IntOr(d.height, 0).value;
    Samples(d, codec).Some? && |Samples(d, codec).value| == w * h * Components(ModeOf(d.colorSpace))
  }

  /** The `/DCTDecode` branch: decode, downscale the decoded image when the tier asks for it, re-encode. */
  function JpegRewrite(d: StreamDict, s: Settings, codec: Codec): StreamDict
    requires 0 < s.num <= s.den
  {
    match codec.decodeJpeg(d.payload)
    case None => d
    case Some(img) =>
      if Downscales(s) then
        var w := Scaled(img.width, s);
        var h := Scaled(img.height, s);
        match codec.resize(img, w, h)
        case None => d
        case Some(small) =>
          match codec.encodeJpeg(small, s.imageQuality)
          case None => d
          case Some(data) => d.(payload := data, filter := DCTDecode, width := Int(w), height := Int(h))
      else
        match codec.encodeJpeg(img, s.imageQuality)
        case None => d
        case Some(data) => d.(payload := data, filter := DCTDecode)
  }

  /**
   * The `/FlateDecode`-or-unfiltered branch: read the samples, check their
   * length, build the image, downscale it when the tier asks for it,
   * encode it as JPEG and declare it RGB.
   */
  function RawRewrite(d: StreamDict, s: Settings, codec: Codec): StreamDict
    requires 0 < s.num <= s.den
    requires IntOr(d.width, 0).Some? && IntOr(d.height, 0).Some?
  {
    var w := IntOr(d.width, 0).value;
    var h := IntOr(d.height, 0).value;
    var mode := ModeOf(d.colorSpace);
    match Samples(d, codec)
    case None => d
    case Some(raw) =>
      if |raw| != w * h * Components(mode) then d
      else
        var pic := Picture(w, h, mode, raw);
        var w' := if Downscales(s) then Scaled(w, s) else w;
        var h' := if Downscales(s) then Scaled(h, s) else h;
        var img := if Downscales(s) then codec.resize(pic, w', h') else Some(pic);
        match img
        case None => d
        case Some(img) =>
          match codec.encodeJpeg(img, s.imageQuality)
          case None => d
          case Some(data) =>
            d.(payload := data, filter := DCTDecode, colorSpace := DeviceRGB, width := Int(w'), height := Int(h'))
  }

  /**
   * `_recompress_image(xobj, settings)`: the stream after the call. It is
   * either left exactly as it was or becomes a JPEG; Subtype and
   * BitsPerComponent are never touched; the JPEG branch keeps the colour
   * space, the raw branch declares RGB and is only taken when the sample
   * length matched; the new dimensions are the scaled ones when the tier
   * downscales (the decoded JPEG's own dimensions on the JPEG branch) and
   * the old ones otherwise.
   */
  function Recompressed(d: StreamDict, s: Settings, codec: Codec): (r: StreamDict)
    requires 0 < s.num <= s.den
    ensures r.subtype == d.subtype && r.bitsPerComponent == d.bitsPerComponent
    ensures r == d || r.filter == DCTDecode
    ensures RouteOf(d) == Unsupported ==> r == d
    ensures RouteOf(d) == JpegPath ==> r.colorSpace == d.colorSpace
    ensures RouteOf(d) == RawPath && r != d ==> r.colorSpace == DeviceRGB && LengthMatches(d, codec)
    ensures r != d && !Downscales(s) ==> IntOr(r.width, 0) == IntOr(d.width, 0) && IntOr(r.height, 0) == IntOr(d.height, 0)
    ensures r != d && Downscales(s) && RouteOf(d) == RawPath ==>
      r.width == Int(Scaled(IntOr(d.width, 0).value, s)) && r.height == Int(Scaled(IntOr(d.height, 0).value, s))
    ensures r != d && Downscales(s) && RouteOf(d) == JpegPath ==>
      codec.decodeJpeg(d.payload).Some? &&
      var img := codec.decodeJpeg(d.payload).value;
      r.width == Int(Scaled(img.width, s)) && r.height == Int(Scaled(img.height, s))
  {
    match RouteOf(d)
    case Unsupported => d
    case JpegPath => JpegRewrite(d, s, codec)
    case RawPath => RawRewrite(d, s, codec)
  }

  /** An image whose bit depth is not 8 is left alone. */
  lemma BitDepthUnsupported(d: StreamDict, s: Settings, codec: Codec)
    requires 0 < s.num <= s.den
    requires IntOr(d.bitsPerComponent, 8) != Some(8)
    ensures Recompressed(d, s, codec) == d
  {
  }

  /** A filter other than DCT, Flate or none is left alone. */
  lemma FilterUnsupported(d: StreamDict, s: Settings, codec: Codec)
    requires 0 < s.num <= s.den
    requires d.filter == OtherFilter
    ensures Recompressed(d, s, codec) == d
  {
  }

  /** Samples of the wrong length are left alone. */
  lemma LengthMismatchUnchanged(d: StreamDict, s: Settings, codec: Codec)
    requires 0 < s.num <= s.den
    requires RouteOf(d) == RawPath && !LengthMatches(d, codec)
    ensures Recompressed(d, s, codec) == d
  {
  }

  // ---------------------------------------------------------------------
  // The rewrite step by step, on one stream

  /**
   * The image `_recompress_image` builds from a stream before any resizing:
   * the decoded JPEG on the `/DCTDecode` branch, the samples read as a
   * Width x Height picture in the colour space's mode on the raw branch
   * when their length matches, and nothing otherwise.
   */
  function Source(d: StreamDict, codec: Codec): (r: Option<Picture>)
    ensures r.Some? ==> RouteOf(d) != Unsupported
    ensures RouteOf(d) == RawPath && r.Some? ==> LengthMatches(d, codec) && r.value.width == IntOr(d.width, 0).value && r.value.height == IntOr(d.height, 0).value
  {
    match RouteOf(d)
    case Unsupported => None
    case JpegPath => codec.decodeJpeg(d.payload)
    case RawPath =>
      if LengthMatches(d, codec)
      then Some(Picture(IntOr(d.width, 0).value, IntOr(d.height, 0).value, ModeOf(d.colorSpace), Samples(d, codec).value))
      else None
  }

  /** The picture handed to the encoder: `img` resized to the scaled dimensions when the tier downscales, `img` itself otherwise. */
  function Target(img: Picture, s: Settings, codec: Codec): Option<Picture>
    requires 0 < s.num <= s.den
  {
    if Downscales(s) then codec.resize(img, Scaled(img.width, s), Scaled(img.height, s)) else Some(img)
  }

  /** The JPEG bytes the stream would be given, or nothing when a step on the way fails. */
  function Encoded(d: StreamDict, s: Settings, codec: Codec): Option<seq<byte>>
    requires 0 < s.num <= s.den
  {
    match Source(d, codec)
    case None => None
    case Some(img) =>
      match Target(img, s, codec)
      case None => None
      case Some(t) => codec.encodeJpeg(t, s.imageQuality)
  }

  /** A JPEG stream whose payload does not decode is left alone. */
  lemma DecodeFails(d: StreamDict, s: Settings, codec: Codec)
    requires 0 < s.num <= s.den
    requires RouteOf(d) == JpegPath && codec.decodeJpeg(d.payload).None?
    ensures Recompressed(d, s, codec) == d
  {
  }

  /** A stream whose image cannot be resized to the scaled dimensions is left alone. */
  lemma ResizeFails(d: StreamDict, s: Settings, codec: Codec, img: Picture)
    requires 0 < s.num <= s.den
    requires Source(d, codec) == Some(img) && Downscales(s)
    requires codec.resize(img, Scaled(img.width, s), Scaled(img.height, s)).None?
    ensures Recompressed(d, s, codec) == d
  {
  }

  /** A stream whose image the encoder refuses is left alone. */
  lemma EncodeFails(d: StreamDict, s: Settings, codec: Codec, img: Picture, t: Picture)
    requires 0 < s.num <= s.den
    requires Source(d, codec) == Some(img) && Target(img, s, codec) == Some(t)
    requires codec.encodeJpeg(t, s.imageQuality).None?
    ensures Recompressed(d, s, codec) == d
  {
  }

  /** Whichever step fails on this stream (classifier, decoding, length check, resizing, encoding), the stream stays as it was. */
  lemma FailingCodecUnchanged(d: StreamDict, s: Settings, codec: Codec)
    requires 0 < s.num <= s.den
    requires Encoded(d, s, codec).None?
    ensures Recompressed(d, s, codec) == d
  {
    match Source(d, codec)
    case None =>
      if RouteOf(d) == RawPath {
        LengthMismatchUnchanged(d, s, codec);
      }
    case Some(img) =>
      match Target(img, s, codec)
      case None =>
        ResizeFails(d, s, codec, img);
      case Some(t) =>
        EncodeFails(d, s, codec, img, t);
  }

  /**
   * When every step succeeds the stream becomes the encoder's JPEG: the
   * raw branch declares RGB, the JPEG branch keeps its colour space; the
   * dimensions are the scaled ones of the source image when the tier
   * downscales, the picture's own on the raw branch otherwise, and the
   * stream's own on the JPEG branch otherwise.
   */
  lemma RewriteSucceeds(d: StreamDict, s: Settings, codec: Codec, img: Picture, t: Picture, data: seq<byte>)
    requires 0 < s.num <= s.den
    requires Source(d, codec) == Some(img) && Target(img, s, codec) == Some(t)
    requires codec.encodeJpeg(t, s.imageQuality) == Some(data)
    ensures Recompressed(d, s, codec) == d.(
      payload := data,
      filter := DCTDecode,
      colorSpace := if RouteOf(d) == RawPath then DeviceRGB else d.colorSpace,
      width := if Downscales(s) then Int(Scaled(img.width, s)) else if RouteOf(d) == RawPath then Int(img.width) else d.width,
      height := if Downscales(s) then Int(Scaled(img.height, s)) else if RouteOf(d) == RawPath then Int(img.height) else d.height)
  {
  }

  /**
   * The worked example: an 800 x 600 RGB Flate image whose samples have
   * the right length becomes, under "low" and a codec that succeeds, a
   * 400 x 300 JPEG declared RGB.
   */
  lemma LowTierExample(d: StreamDict, codec: Codec, raw: seq<byte>, small: Picture, data: seq<byte>)
    requires d.width == Int(800) && d.height == Int(600) && d.bitsPerComponent == Missing
    requires d.colorSpace == DeviceRGB && d.filter == FlateDecode
    requires codec.inflate(d.payload) == Some(raw) && |raw| == 800 * 600 * 3
    requires codec.resize(Picture(800, 600, RGB, raw), 400, 300) == Some(small)
    requires codec.encodeJpeg(small, 30) == Some(data)
    ensures Recompressed(d, Tier("low"), codec) ==
      d.(payload := data, filter := DCTDecode, colorSpace := DeviceRGB, width := Int(400), height := Int(300))
  {
    ScaledExamples();
  }
}
