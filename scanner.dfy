/**
 * `_compress_page_images` and the page loop of `compress_pdf` in
 * tools/compress.py, as functions on the object arena: each page's
 * XObject entries are visited in order, and an entry that refers to an
 * image stream of at least 100 x 100 is recompressed in place. These
 * functions are the specification the methods of the document class are
 * proved against.
 */
module Scanner {
  import opened Wrappers
  import opened PdfObjects
  import opened Quality
  import opened Recompress

  type Arena = map<ObjId, PdfObject>

  /**
   * The checks the scanner makes before recompressing: a stream whose
   * Subtype is `/Image`, whose Width and Height read as integers (absent
   * counts as 0), neither 0 and both at least 100.
   */
  predicate Eligible(o: PdfObject) {
    && o.Stream?
    && o.dict.subtype == Some("/Image")
    && IntOr(o.dict.width, 0).Some? && IntOr(o.dict.height, 0).Some?
    && var w := IntOr(o.dict.width, 0).value;
    && var h := IntOr(o.dict.height, 0).value;
    && w != 0 && h != 0
    && w >= 100 && h >= 100
  }

  /** An image is eligible exactly when both of its dimensions are integers of at least 100. */
  lemma EligibleIff(o: PdfObject)
    ensures Eligible(o) <==>
      o.Stream? && o.dict.subtype == Some("/Image") &&
      o.dict.width.Int? && o.dict.width.v >= 100 && o.dict.height.Int? && o.dict.height.v >= 100
  {
  }

  /**
   * One iteration of the entry loop: the entry's object recompressed when
   * it is eligible, every other object as it was. A reference to no object
   * reads as null, which is not a stream.
   */
  function Visit(objects: Arena, id: ObjId, s: Settings, codec: Codec): (r: Arena)
    requires 0 < s.num <= s.den
    ensures r.Keys == objects.Keys
    ensures forall k :: k in objects && k != id ==> r[k] == objects[k]
    ensures id in objects && !Eligible(objects[id]) ==> r == objects
  {
    if id in objects && Eligible(objects[id]) then
      objects[id := Stream(Recompressed(objects[id].dict, s, codec))]
    else objects
  }

  /** The entry loop of `_compress_page_images`, over the entries in order. */
  function ScanEntries(objects: Arena, entries: seq<Entry>, s: Settings, codec: Codec): Arena
    requires 0 < s.num <= s.den
  {
    if entries == [] then objects
    else Visit(ScanEntries(objects, entries[..|entries| - 1], s, codec), entries[|entries| - 1].ref, s, codec)
  }

  /**
   * `_compress_page_images(page, settings)`: a page without resources,
   * without an XObject entry, or whose resources cannot be read, changes
   * nothing.
   */
  function ScanPage(objects: Arena, page: Page, s: Settings, codec: Codec): Arena
    requires 0 < s.num <= s.den
  {
    match page.resources
    case ResourceDict(XObjectDict(entries)) => ScanEntries(objects, entries, s, codec)
    case _ => objects
  }

  /** The page loop of `compress_pdf`, over the pages in order. */
  function ScanPages(objects: Arena, pages: seq<Page>, s: Settings, codec: Codec): Arena
    requires 0 < s.num <= s.den
  {
    if pages == [] then objects
    else ScanPage(ScanPages(objects, pages[..|pages| - 1], s, codec), pages[|pages| - 1], s, codec)
  }

  // ---------------------------------------------------------------------
  // What the scan leaves alone

  /** The object numbers an entry list refers to. */
  function Refs(entries: seq<Entry>): set<ObjId> {
    set e | e in entries :: e.ref
  }

  /** The object numbers a page refers to through its XObject resources. */
  function PageRefs(page: Page): set<ObjId> {
    match page.resources
    case ResourceDict(XObjectDict(entries)) => Refs(entries)
    case _ => {}
  }

  function DocumentRefs(pages: seq<Page>): set<ObjId> {
    if pages == [] then {} else DocumentRefs(pages[..|pages| - 1]) + PageRefs(pages[|pages| - 1])
  }

  /**
   * An object is settled when visiting it changes nothing: it is not an
   * eligible image, or recompressing it gives it back unchanged (its bit
   * depth or filter is unsupported, its samples have the wrong length, or
   * the codec fails on it).
   */
  predicate Settled(o: PdfObject, s: Settings, codec: Codec)
    requires 0 < s.num <= s.den
  {
    !Eligible(o) || Recompressed(o.dict, s, codec) == o.dict
  }

  lemma SettledVisit(objects: Arena, id: ObjId, s: Settings, codec: Codec, k: ObjId)
    requires 0 < s.num <= s.den
    requires k in objects && Settled(objects[k], s, codec)
    ensures Visit(objects, id, s, codec)[k] == objects[k]
  {
    if k == id && Eligible(objects[k]) {
      assert objects[k] == Stream(objects[k].dict);
    }
  }

  /** The entry loop keeps the object numbers, and leaves settled objects and objects no entry names exactly as they were. */
  lemma {:induction false} ScanEntriesFrame(objects: Arena, entries: seq<Entry>, s: Settings, codec: Codec, k: ObjId)
    requires 0 < s.num <= s.den
    ensures ScanEntries(objects, entries, s, codec).Keys == objects.Keys
    ensures k in objects && (k !in Refs(entries) || Settled(objects[k], s, codec)) ==>
      ScanEntries(objects, entries, s, codec)[k] == objects[k]
  {
    if entries != [] {
      var init := entries[..|entries| - 1];
      var last := entries[|entries| - 1];
      ScanEntriesFrame(objects, init, s, codec, k);
      assert Refs(entries) == Refs(init) + {last.ref} by {
        assert entries == init + [last];
      }
      if k in objects && (k !in Refs(entries) || Settled(objects[k], s, codec)) {
        var before := ScanEntries(objects, init, s, codec);
        if k == last.ref {
          SettledVisit(before, last.ref, s, codec, k);
        }
      }
    }
  }

  /**
   * The page loop keeps the object numbers, and leaves settled objects and
   * objects no page names exactly as they were: in particular every image
   * smaller than 100 x 100, every image whose bit depth is not 8, and every
   * image the codec fails on.
   */
  lemma {:induction false} ScanPagesFrame(objects: Arena, pages: seq<Page>, s: Settings, codec: Codec, k: ObjId)
    requires 0 < s.num <= s.den
    ensures ScanPages(objects, pages, s, codec).Keys == objects.Keys
    ensures k in objects && (k !in DocumentRefs(pages) || Settled(objects[k], s, codec)) ==>
      ScanPages(objects, pages, s, codec)[k] == objects[k]
  {
    if pages != [] {
      var init := pages[..|pages| - 1];
      var last := pages[|pages| - 1];
      ScanPagesFrame(objects, init, s, codec, k);
      var before := ScanPages(objects, init, s, codec);
      match last.resources
      case ResourceDict(XObjectDict(entries)) =>
        ScanEntriesFrame(before, entries, s, codec, k);
      case _ =>
    }
  }

  /** A page with no resources, no XObject entry, or unreadable resources changes nothing. */
  lemma PageWithoutImages(objects: Arena, page: Page, s: Settings, codec: Codec)
    requires 0 < s.num <= s.den
    requires !page.resources.ResourceDict? || !page.resources.xobjects.XObjectDict?
    ensures ScanPage(objects, page, s, codec) == objects
  {
  }

  /** A small image is settled whatever the tier and the codec. */
  lemma SmallImageSettled(o: PdfObject, s: Settings, codec: Codec)
    requires 0 < s.num <= s.den
    requires o.Stream? && o.dict.width.Int? && o.dict.width.v < 100
    ensures Settled(o, s, codec)
  {
  }

  /** An image whose bit depth is not 8 is settled. */
  lemma DeepImageSettled(o: PdfObject, s: Settings, codec: Codec)
    requires 0 < s.num <= s.den
    requires o.Stream? && IntOr(o.dict.bitsPerComponent, 8) != Some(8)
    ensures Settled(o, s, codec)
  {
  }

  /**
   * The end-to-end example: page 1 holds one 800 x 600 RGB Flate image of
   * the right length and page 2 has no resources. Under "low", with a
   * codec that succeeds, the image becomes a 400 x 300 RGB JPEG and every
   * other object stays.
   */
  lemma TwoPageExample(objects: Arena, id: ObjId, codec: Codec, raw: seq<byte>, small: Picture, data: seq<byte>)
    requires id in objects && objects[id].Stream?
    requires var d := objects[id].dict;
      && d.subtype == Some("/Image") && d.width == Int(800) && d.height == Int(600)
      && d.bitsPerComponent == Int(8) && d.colorSpace == DeviceRGB && d.filter == FlateDecode
      && codec.inflate(d.payload) == Some(raw) && |raw| == 800 * 600 * 3
    requires codec.resize(Picture(800, 600, RGB, raw), 400, 300) == Some(small)
    requires codec.encodeJpeg(small, 30) == Some(data)
    ensures var pages := [Page(ResourceDict(XObjectDict([Entry("/Im0", id)]))), Page(NoResources)];
      var after := ScanPages(objects, pages, Tier("low"), codec);
      && after.Keys == objects.Keys
      && after[id] == Stream(objects[id].dict.(payload := data, filter := DCTDecode, colorSpace := DeviceRGB, width := Int(400), height := Int(300)))
      && forall k :: k in objects && k != id ==> after[k] == objects[k]
  {
    var pages := [Page(ResourceDict(XObjectDict([Entry("/Im0", id)]))), Page(NoResources)];
    var s := Tier("low");
    ScaledExamples();
    assert pages[..1][..0] == [];
    assert ScanPages(objects, pages[..1], s, codec) == ScanEntries(objects, [Entry("/Im0", id)], s, codec);
    assert [Entry("/Im0", id)][..0] == [];
  }
}
