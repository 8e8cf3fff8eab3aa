/**
 * The opened document of `compress_pdf` in tools/compress.py: its pages,
 * and the arena of objects that the recompression rewrites in place. The
 * methods follow the source's loops and early returns step by step and
 * are proved against the functions of the scanner and recompression
 * modules.
 */
module Documents {
  import opened Wrappers
  import opened PdfObjects
  import opened Quality
  import opened Recompress
  import opened Scanner
  import opened SharedImages

  class Document {
    /** The pages, in order; their resource dictionaries are read, not changed. */
    const pages: seq<Page>
    /** The objects by object number; image streams are rewritten in place. */
    var objects: Arena

    constructor (pages: seq<Page>, objects: Arena)
      ensures this.pages == pages && this.objects == objects
    {
      this.pages := pages;
      this.objects := objects;
    }

    /**
     * `_recompress_image(xobj, settings)` on the stream numbered `id`.
     * Every `return` before the final write is an exception or a skip of
     * the source, and leaves the arena as it was.
     */
    method RecompressImage(id: ObjId, s: Settings, codec: Codec)
      requires 0 < s.num <= s.den
      requires id in objects && objects[id].Stream?
      modifies this
      ensures objects == old(objects)[id := Stream(Recompressed(old(objects)[id].dict, s, codec))]
    {
      var xobj := objects[id].dict;
      assert objects[id] == Stream(xobj);
      var rawData := xobj.payload;
      var width := IntOr(xobj.width, 0);
      var height := IntOr(xobj.height, 0);
      if width.None? || height.None? {
        return;
      }
      var mode := ModeOf(xobj.colorSpace);
      var bpc := IntOr(xobj.bitsPerComponent, 8);
      if bpc.None? || bpc.value != 8 {
        return;
      }
      var currentFilter := xobj.filter;
      if currentFilter == DCTDecode {
        var decoded := codec.decodeJpeg(rawData);
        if decoded.None? {
          return;
        }
        var img := decoded.value;
        var newWidth, newHeight := 0, 0;
        if Downscales(s) {
          newWidth := Scaled(img.width, s);
          newHeight := Scaled(img.height, s);
          var resized := codec.resize(img, newWidth, newHeight);
          if resized.None? {
            return;
          }
          img := resized.value;
        }
        var output := codec.encodeJpeg(img, s.imageQuality);
        if output.None? {
          return;
        }
        xobj := xobj.(payload := output.value, filter := DCTDecode);
        if Downscales(s) {
          xobj := xobj.(width := Int(newWidth), height := Int(newHeight));
        }
        objects := objects[id := Stream(xobj)];
      } else if currentFilter == FlateDecode || currentFilter == NoFilter {
        var read := if currentFilter == NoFilter then Some(rawData) else codec.inflate(rawData);
        if read.None? {
          return;
        }
        var raw := read.value;
        var components := Components(mode);
        var expectedSize := width.value * height.value * components;
        if |raw| != expectedSize {
          return;
        }
        var img := Picture(width.value, height.value, mode, raw);
        var newWidth, newHeight;
        if Downscales(s) {
          newWidth := Scaled(width.value, s);
          newHeight := Scaled(height.value, s);
          var resized := codec.resize(img, newWidth, newHeight);
          if resized.None? {
            return;
          }
          img := resized.value;
        } else {
          newWidth, newHeight := width.value, height.value;
        }
        var output := codec.encodeJpeg(img, s.imageQuality);
        if output.None? {
          return;
        }
        xobj := xobj.(payload := output.value, filter := DCTDecode);
        xobj := xobj.(colorSpace := DeviceRGB);
        xobj := xobj.(width := Int(newWidth), height := Int(newHeight));
        objects := objects[id := Stream(xobj)];
      }
    }

    /**
     * One iteration of the entry loop of `_compress_page_images`: the
     * entry's object is recompressed when it is an image stream whose
     * Width and Height are integers, neither 0, both at least 100.
     */
    method VisitImage(id: ObjId, s: Settings, codec: Codec)
      requires 0 < s.num <= s.den
      modifies this
      ensures objects == Visit(old(objects), id, s, codec)
    {
      if id !in objects {
        return;
      }
      var xobj := objects[id];
      if !xobj.Stream? {
        return;
      }
      if xobj.dict.subtype != Some("/Image") {
        return;
      }
      var width := IntOr(xobj.dict.width, 0);
      var height := IntOr(xobj.dict.height, 0);
      if width.None? || height.None? {
        return;
      }
      if width.value == 0 || height.value == 0 {
        return;
      }
      if width.value < 100 || height.value < 100 {
        return;
      }
      RecompressImage(id, s, codec);
    }

    /**
     * `_compress_page_images(page, settings)`: the XObject entries of the
     * page in order, each recompressed when it names an image stream of at
     * least 100 x 100.
     */
    method CompressPageImages(page: Page, s: Settings, codec: Codec)
      requires 0 < s.num <= s.den
      modifies this
      ensures objects == ScanPage(old(objects), page, s, codec)
    {
      if !page.resources.ResourceDict? {
        return;
      }
      var resources := page.resources;
      if !resources.xobjects.XObjectDict? {
        return;
      }
      var entries := resources.xobjects.entries;
      var i := 0;
      while i < |entries|
        invariant 0 <= i <= |entries|
        invariant objects == ScanEntries(old(objects), entries[..i], s, codec)
      {
        var key := entries[i];
        assert entries[..i + 1][..i] == entries[..i];
        i := i + 1;
        VisitImage(key.ref, s, codec);
      }
      assert entries[..i] == entries;
    }

    /**
     * `compress_pdf(input, output, quality)`: every page's images
     * recompressed under the chosen tier, then the statistics. `sizeOf`
     * stands for saving the arena (unreferenced objects dropped, streams
     * compressed) and reading back the file size.
     */
    method CompressPdf(quality: string, originalSize: int, sizeOf: Arena -> int, codec: Codec) returns (stats: Stats)
      modifies this
      ensures objects == ScanPages(old(objects), pages, Tier(quality), codec)
      ensures NoSharedImages(pages) ==> objects.Keys == old(objects).Keys && forall k :: k in old(objects) ==>
        objects[k] == if k in DocumentRefs(pages) && Eligible(old(objects)[k])
                      then Stream(Recompressed(old(objects)[k].dict, Tier(quality), codec))
                      else old(objects)[k]
      ensures stats.originalSize == originalSize && stats.compressedSize == sizeOf(objects)
      ensures stats.reductionPercent == ReductionPercent(originalSize, sizeOf(objects))
    {
      var settings := Tier(quality);
      var i := 0;
      while i < |pages|
        invariant 0 <= i <= |pages|
        invariant objects == ScanPages(old(objects), pages[..i], settings, codec)
      {
        assert pages[..i + 1][..i] == pages[..i];
        CompressPageImages(pages[i], settings, codec);
        i := i + 1;
      }
      assert pages[..i] == pages;
      if NoSharedImages(pages) {
        ScanPagesFrame(old(objects), pages, settings, codec, 0);
        forall k | k in old(objects)
          ensures objects[k] == if k in DocumentRefs(pages) && Eligible(old(objects)[k])
                                then Stream(Recompressed(old(objects)[k].dict, settings, codec))
                                else old(objects)[k]
        {
          UnsharedScanRecompressesOnce(old(objects), pages, settings, codec, k);
        }
      }
      var compressedSize := sizeOf(objects);
      stats := Stats(originalSize, compressedSize, ReductionPercent(originalSize, compressedSize));
    }

    // -------------------------------------------------------------------
    // Recompressing each shared image once

    /**
     * The entry loop that skips the objects in `seen` (already recompressed
     * through an earlier entry or page) and adds every object it visits.
     */
    method CompressPageImagesOnce(page: Page, s: Settings, codec: Codec, seen: set<ObjId>) returns (seen': set<ObjId>)
      requires 0 < s.num <= s.den
      modifies this
      ensures (objects, seen') == ScanPageOnce(old(objects), seen, page, s, codec)
    {
      seen' := seen;
      if !page.resources.ResourceDict? || !page.resources.xobjects.XObjectDict? {
        return;
      }
      var entries := page.resources.xobjects.entries;
      var i := 0;
      while i < |entries|
        invariant 0 <= i <= |entries|
        invariant (objects, seen') == ScanEntriesOnce(old(objects), seen, entries[..i], s, codec)
      {
        var key := entries[i];
        assert entries[..i + 1][..i] == entries[..i];
        i := i + 1;
        if key.ref in seen' {
          continue;
        }
        seen' := seen' + {key.ref};
        VisitImage(key.ref, s, codec);
      }
      assert entries[..i] == entries;
    }

    /**
     * `compress_pdf` with each image recompressed once however many pages
     * name it: every object some page names ends up recompressed from its
     * original state, every other object stays.
     */
    method CompressPdfOnce(quality: string, originalSize: int, sizeOf: Arena -> int, codec: Codec) returns (stats: Stats)
      modifies this
      ensures objects.Keys == old(objects).Keys
      ensures forall k :: k in old(objects) ==>
        objects[k] == if k in DocumentRefs(pages) && Eligible(old(objects)[k])
                      then Stream(Recompressed(old(objects)[k].dict, Tier(quality), codec))
                      else old(objects)[k]
      ensures stats.originalSize == originalSize && stats.compressedSize == sizeOf(objects)
      ensures stats.reductionPercent == ReductionPercent(originalSize, sizeOf(objects))
    {
      var settings := Tier(quality);
      var seen: set<ObjId> := {};
      var i := 0;
      while i < |pages|
        invariant 0 <= i <= |pages|
        invariant (objects, seen) == ScanPagesOnce(old(objects), {}, pages[..i], settings, codec)
      {
        assert pages[..i + 1][..i] == pages[..i];
        seen := CompressPageImagesOnce(pages[i], settings, codec, seen);
        i := i + 1;
      }
      assert pages[..i] == pages;
      assert objects == ScanPagesOnce(old(objects), {}, pages, settings, codec).0;
      ScanPagesOnceVisits(old(objects), old(objects), {}, pages, settings, codec);
      forall k | k in old(objects)
        ensures objects[k] == if k in DocumentRefs(pages) && Eligible(old(objects)[k])
                              then Stream(Recompressed(old(objects)[k].dict, settings, codec))
                              else old(objects)[k]
      {
        ScanOnceRecompressesOnce(old(objects), pages, settings, codec, k);
      }
      var compressedSize := sizeOf(objects);
      stats := Stats(originalSize, compressedSize, ReductionPercent(originalSize, compressedSize));
    }
  }
}
