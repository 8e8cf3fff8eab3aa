/**
 * The part of a PDF document that the image recompression of
 * tools/compress.py reads and writes: an arena of objects addressed by
 * object number, pages whose resource dictionaries name XObjects in that
 * arena, and the few stream dictionary fields the recompression looks at.
 * The image library is an opaque codec whose every step may fail.
 */
module PdfObjects {
  import opened Wrappers

  newtype byte = x: int | 0 <= x < 256

  /** The object number of an indirect object. */
  type ObjId = nat

  /**
   * A dictionary value read with `int(xobj.get(key, default))`: absent,
   * an integer, or something `int()` raises on (a name, an array, ...).
   */
  datatype Num = Missing | Int(v: int) | NotInt

  /** `int(xobj.get(key, default))`; `None` where `int()` raises. */
  function IntOr(n: Num, default: int): Option<int>
  {
    match n
    case Missing => Some(default)
    case Int(v) => Some(v)
    case NotInt => None
  }

  /** The `/ColorSpace` entry: absent, one of the three device spaces, or anything else (an ICC profile, an indexed space, ...). */
  datatype ColorSpace = NoColorSpace | DeviceGray | DeviceRGB | DeviceCMYK | OtherSpace

  /** The `/Filter` entry: absent, one of the two names compared against, or anything else (another name, an array of filters). */
  datatype Filter = NoFilter | DCTDecode | FlateDecode | OtherFilter

  /** The dictionary and payload of a stream object. `payload` is the raw, still encoded, stream data. */
  datatype StreamDict = StreamDict(
    subtype: Option<string>,
    width: Num,
    height: Num,
    colorSpace: ColorSpace,
    bitsPerComponent: Num,
    filter: Filter,
    payload: seq<byte>)

  /** An object of the arena: a stream, or any other kind of object (a dictionary, null, ...). */
  datatype PdfObject = Stream(dict: StreamDict) | NotStream

  /** One `/XObject` resource: its name on the page and the object it refers to. */
  datatype Entry = Entry(name: string, ref: ObjId)

  /**
   * A page's `/XObject` resource dictionary: absent, a dictionary whose
   * keys are listed in order, or a value that cannot be read as a
   * dictionary (its `keys()` raises).
   */
  datatype XObjects = NoXObject | XObjectDict(entries: seq<Entry>) | XObjectUnreadable

  /**
   * A page's `/Resources`: absent, a dictionary holding the XObject entry,
   * or a value on which the `"/XObject" in resources` test raises.
   */
  datatype Resources = NoResources | ResourceDict(xobjects: XObjects) | ResourcesUnreadable

  datatype Page = Page(resources: Resources)

  /** The pixel modes the source chooses between (`"L"`, `"RGB"`, `"CMYK"`). */
  datatype Mode = L | RGB | CMYK

  /** A decoded image: its pixel dimensions, mode and samples. */
  datatype Picture = Picture(width: int, height: int, mode: Mode, samples: seq<byte>)

  /**
   * The image library, each step of which may raise (`None`):
   * `decodeJpeg` is `Image.open` on JPEG data, `inflate` is reading the
   * decoded stream data of a `/FlateDecode` stream, `resize` is a Lanczos
   * resize to the given dimensions, and `encodeJpeg` is saving as JPEG at a
   * quality, mode conversion to RGB included.
   */
  datatype Codec = Codec(
    decodeJpeg: seq<byte> -> Option<Picture>,
    inflate: seq<byte> -> Option<seq<byte>>,
    resize: (Picture, int, int) -> Option<Picture>,
    encodeJpeg: (Picture, int) -> Option<seq<byte>>)
}
