/**
 * An image stream named by several pages (a logo repeated on every page,
 * or pages sharing one resource dictionary) is one object of the arena, and
 * the page loop of `compress_pdf` visits it once per reference. After the
 * first visit it is a JPEG whose Width and Height are the scaled ones, so
 * as long as they stay at least 100 the next visit decodes and scales it
 * again: under "low" a shared 800 x 800 image comes out 200 x 200 from two
 * pages, where the tier asks for 400 x 400.
 *
 * `ScanPages` is the loop as written. `ScanPagesOnce` is the loop that
 * remembers which objects it has already recompressed and skips them: it
 * recompresses every referenced object exactly once, from its original
 * state.
 */
module SharedImages {
  import opened Wrappers
  import opened PdfObjects
  import opened Quality
  import opened Recompress
  import opened Scanner

  // ---------------------------------------------------------------------
  // The loop as written, on a shared image

  /**
   * A codec whose JPEG data is a run of bytes as long as the side of a
   * square image: decoding gives back that square, resizing and encoding
   * always succeed.
   */
  function SquareCodec(): Codec {
    Codec(
      b => Some(Picture(|b|, |b|, RGB, b)),
      b => Some(b),
      (p: Picture, w: int, h: int) => if 0 <= w then Some(Picture(w, h, p.mode, seq(w, _ => 0 as byte))) else None,
      (p: Picture, q: int) => Some(p.samples))
  }

  /** An 800 x 800 RGB image whose Flate data decodes to the right length. */
  function Logo(): StreamDict {
    StreamDict(Some("/Image"), Int(800), Int(800), DeviceRGB, Int(8), FlateDecode, seq(800 * 800 * 3, _ => 0 as byte))
  }

  /** A page whose only XObject is object 0. */
  function LogoPage(): Page {
    Page(ResourceDict(XObjectDict([Entry("/Logo", 0)])))
  }

  lemma ScanLogoPage(objects: Arena)
    requires 0 in objects
    ensures ScanPage(objects, LogoPage(), Low, SquareCodec()) == Visit(objects, 0, Low, SquareCodec())
  {
    var entries := [Entry("/Logo", 0)];
    assert entries[..0] == [];
    assert ScanEntries(objects, entries[..0], Low, SquareCodec()) == objects;
    assert ScanPage(objects, LogoPage(), Low, SquareCodec()) == ScanEntries(objects, entries, Low, SquareCodec());
  }

  /** The logo recompressed once under "low": a 400 x 400 JPEG. */
  lemma LogoOnce()
    ensures Eligible(Stream(Logo()))
    ensures Recompressed(Logo(), Low, SquareCodec()) == LogoJpeg()
  {
    var codec := SquareCodec();
    ScaledExamples();
    var jpeg := seq(400, _ => 0 as byte);
    assert codec.resize(Picture(800, 800, RGB, Logo().payload), 400, 400) == Some(Picture(400, 400, RGB, jpeg));
  }

  /** The logo after its first visit. */
  function LogoJpeg(): StreamDict {
    Logo().(payload := seq(400, _ => 0 as byte), filter := DCTDecode, colorSpace := DeviceRGB, width := Int(400), height := Int(400))
  }

  /** A second visit finds a 400 x 400 JPEG, still eligible, and halves it again. */
  lemma LogoTwice()
    ensures Eligible(Stream(LogoJpeg()))
    ensures var d := Recompressed(LogoJpeg(), Low, SquareCodec());
      d.width == Int(200) && d.height == Int(200)
  {
    var codec := SquareCodec();
    var jpeg := seq(400, _ => 0 as byte);
    assert Scaled(400, Low) == 200;
    assert codec.decodeJpeg(jpeg) == Some(Picture(400, 400, RGB, jpeg));
    assert RouteOf(LogoJpeg()) == JpegPath;
  }

  /** Scanning two copies of a page is scanning the page, then scanning it again. */
  lemma ScanSamePageTwice(objects: Arena, page: Page, s: Settings, codec: Codec)
    requires 0 < s.num <= s.den
    ensures ScanPages(objects, [page, page], s, codec) == ScanPage(ScanPage(objects, page, s, codec), page, s, codec)
  {
    assert [page, page][..1] == [page];
    assert [page][..0] == [];
    assert ScanPages(objects, [page], s, codec) == ScanPage(objects, page, s, codec);
  }

  /** The first page turns the logo into a 400 x 400 JPEG. */
  lemma FirstLogoPage()
    ensures ScanPage(map[0 := Stream(Logo())], LogoPage(), Low, SquareCodec()) == map[0 := Stream(LogoJpeg())]
  {
    ScanLogoPage(map[0 := Stream(Logo())]);
    LogoOnce();
  }

  /** The second page scales that JPEG again, to 200 x 200. */
  lemma SecondLogoPage()
    ensures var after := ScanPage(map[0 := Stream(LogoJpeg())], LogoPage(), Low, SquareCodec());
      0 in after && after[0].Stream? && after[0].dict.width == Int(200) && after[0].dict.height == Int(200)
  {
    var once := map[0 := Stream(LogoJpeg())];
    ScanLogoPage(once);
    LogoTwice();
    assert Visit(once, 0, Low, SquareCodec()) == map[0 := Stream(Recompressed(LogoJpeg(), Low, SquareCodec()))];
  }

  /** On a two-page document sharing the logo, the loop as written leaves it 200 x 200. */
  lemma SharedImageScaledTwice()
    ensures var after := ScanPages(map[0 := Stream(Logo())], [LogoPage(), LogoPage()], Tier("low"), SquareCodec());
      0 in after && after[0].Stream? && after[0].dict.width == Int(200) && after[0].dict.height == Int(200)
  {
    assert Tier("low") == Low;
    ScanSamePageTwice(map[0 := Stream(Logo())], LogoPage(), Low, SquareCodec());
    FirstLogoPage();
    SecondLogoPage();
  }

  // ---------------------------------------------------------------------
  // The loop that visits each object once

  /** The entry loop, skipping objects in `done` and adding every object it visits to it. */
  function ScanEntriesOnce(objects: Arena, done: set<ObjId>, entries: seq<Entry>, s: Settings, codec: Codec): (Arena, set<ObjId>)
    requires 0 < s.num <= s.den
  {
    if entries == [] then (objects, done)
    else
      var (o, d) := ScanEntriesOnce(objects, done, entries[..|entries| - 1], s, codec);
      var id := entries[|entries| - 1].ref;
      if id in d then (o, d) else (Visit(o, id, s, codec), d + {id})
  }

  function ScanPageOnce(objects: Arena, done: set<ObjId>, page: Page, s: Settings, codec: Codec): (Arena, set<ObjId>)
    requires 0 < s.num <= s.den
  {
    match page.resources
    case ResourceDict(XObjectDict(entries)) => ScanEntriesOnce(objects, done, entries, s, codec)
    case _ => (objects, done)
  }

  function ScanPagesOnce(objects: Arena, done: set<ObjId>, pages: seq<Page>, s: Settings, codec: Codec): (Arena, set<ObjId>)
    requires 0 < s.num <= s.den
  {
    if pages == [] then (objects, done)
    else
      var (o, d) := ScanPagesOnce(objects, done, pages[..|pages| - 1], s, codec);
      ScanPageOnce(o, d, pages[|pages| - 1], s, codec)
  }

  /** An object after one visit: recompressed when eligible, as it was otherwise. */
  function Revisited(o: PdfObject, s: Settings, codec: Codec): PdfObject
    requires 0 < s.num <= s.den
  {
    if Eligible(o) then Stream(Recompressed(o.dict, s, codec)) else o
  }

  /** The arena `o` holds, for the objects in `done`, their one visit from `orig`, and `orig` for all others. */
  predicate VisitedOnce(orig: Arena, o: Arena, done: set<ObjId>, s: Settings, codec: Codec)
    requires 0 < s.num <= s.den
  {
    && o.Keys == orig.Keys
    && forall k :: k in orig ==> o[k] == (if k in done then Revisited(orig[k], s, codec) else orig[k])
  }

  lemma VisitOnceStep(orig: Arena, o: Arena, done: set<ObjId>, id: ObjId, s: Settings, codec: Codec)
    requires 0 < s.num <= s.den
    requires VisitedOnce(orig, o, done, s, codec) && id !in done
    ensures VisitedOnce(orig, Visit(o, id, s, codec), done + {id}, s, codec)
  {
    var o' := Visit(o, id, s, codec);
    forall k | k in orig
      ensures o'[k] == (if k in done + {id} then Revisited(orig[k], s, codec) else orig[k])
    {
      if k == id {
        assert o[id] == orig[id];
      }
    }
  }

  lemma {:induction false} ScanEntriesOnceVisits(orig: Arena, o: Arena, done: set<ObjId>, entries: seq<Entry>, s: Settings, codec: Codec)
    requires 0 < s.num <= s.den
    requires VisitedOnce(orig, o, done, s, codec)
    ensures var (o', d') := ScanEntriesOnce(o, done, entries, s, codec);
      d' == done + Refs(entries) && VisitedOnce(orig, o', d', s, codec)
  {
    if entries != [] {
      var init := entries[..|entries| - 1];
      var last := entries[|entries| - 1];
      ScanEntriesOnceVisits(orig, o, done, init, s, codec);
      var (o1, d1) := ScanEntriesOnce(o, done, init, s, codec);
      assert Refs(entries) == Refs(init) + {last.ref} by {
        assert entries == init + [last];
      }
      assert ScanEntriesOnce(o, done, entries, s, codec) ==
        if last.ref in d1 then (o1, d1) else (Visit(o1, last.ref, s, codec), d1 + {last.ref});
      if last.ref !in d1 {
        VisitOnceStep(orig, o1, d1, last.ref, s, codec);
      }
    }
  }

  lemma {:induction false} ScanPagesOnceVisits(orig: Arena, o: Arena, done: set<ObjId>, pages: seq<Page>, s: Settings, codec: Codec)
    requires 0 < s.num <= s.den
    requires VisitedOnce(orig, o, done, s, codec)
    ensures var (o', d') := ScanPagesOnce(o, done, pages, s, codec);
      d' == done + DocumentRefs(pages) && VisitedOnce(orig, o', d', s, codec)
  {
    if pages != [] {
      var init := pages[..|pages| - 1];
      var last := pages[|pages| - 1];
      ScanPagesOnceVisits(orig, o, done, init, s, codec);
      var (o1, d1) := ScanPagesOnce(o, done, init, s, codec);
      match last.resources
      case ResourceDict(XObjectDict(entries)) =>
        ScanEntriesOnceVisits(orig, o1, d1, entries, s, codec);
      case _ =>
    }
  }

  /**
   * Visiting each object once: every object some page names is
   * recompressed exactly once, from its original state, however many
   * entries name it; every other object stays.
   */
  lemma ScanOnceRecompressesOnce(objects: Arena, pages: seq<Page>, s: Settings, codec: Codec, k: ObjId)
    requires 0 < s.num <= s.den
    requires k in objects
    ensures var after := ScanPagesOnce(objects, {}, pages, s, codec).0;
      && after.Keys == objects.Keys
      && after[k] == if k in DocumentRefs(pages) && Eligible(objects[k])
                     then Stream(Recompressed(objects[k].dict, s, codec))
                     else objects[k]
  {
    ScanPagesOnceVisits(objects, objects, {}, pages, s, codec);
  }

  /** On the same two-page document, visiting each object once leaves the logo 400 x 400, as the tier asks. */
  lemma SharedImageScaledOnce()
    ensures var after := ScanPagesOnce(map[0 := Stream(Logo())], {}, [LogoPage(), LogoPage()], Tier("low"), SquareCodec()).0;
      0 in after && after[0].Stream? && after[0].dict.width == Int(400) && after[0].dict.height == Int(400)
  {
    var objects := map[0 := Stream(Logo())];
    var pages := [LogoPage(), LogoPage()];
    ScanOnceRecompressesOnce(objects, pages, Low, SquareCodec(), 0);
    assert PageRefs(LogoPage()) == {0} by {
      assert Entry("/Logo", 0) in [Entry("/Logo", 0)];
    }
    assert DocumentRefs(pages) == DocumentRefs(pages[..1]) + {0};
    LogoOnce();
  }

  // ---------------------------------------------------------------------
  // Without shared images the two loops agree

  /** The XObject entries of a page, none when it has no readable XObject dictionary. */
  function Entries(page: Page): (r: seq<Entry>)
    ensures Refs(r) == PageRefs(page)
  {
    match page.resources
    case ResourceDict(XObjectDict(entries)) => entries
    case _ => []
  }

  /** No two entries of the list name the same object. */
  predicate DistinctRefs(entries: seq<Entry>) {
    forall i, j :: 0 <= i < j < |entries| ==> entries[i].ref != entries[j].ref
  }

  /** No object is named by two XObject entries, on one page or on two. */
  predicate NoSharedImages(pages: seq<Page>) {
    if pages == [] then true
    else
      var init := pages[..|pages| - 1];
      var last := pages[|pages| - 1];
      NoSharedImages(init) && DistinctRefs(Entries(last)) && DocumentRefs(init) !! PageRefs(last)
  }

  /** Dropping the last entry keeps the refs distinct, and the last entry's object is not among the others. */
  lemma DistinctInit(entries: seq<Entry>)
    requires entries != [] && DistinctRefs(entries)
    ensures DistinctRefs(entries[..|entries| - 1])
    ensures entries[|entries| - 1].ref !in Refs(entries[..|entries| - 1])
  {
    var init := entries[..|entries| - 1];
    forall e | e in init
      ensures e.ref != entries[|entries| - 1].ref
    {
      var i :| 0 <= i < |init| && init[i] == e;
      assert entries[i] == e;
    }
  }

  lemma {:induction false} ScanEntriesAsOnce(objects: Arena, done: set<ObjId>, entries: seq<Entry>, s: Settings, codec: Codec)
    requires 0 < s.num <= s.den
    requires DistinctRefs(entries) && Refs(entries) !! done
    ensures ScanEntriesOnce(objects, done, entries, s, codec) == (ScanEntries(objects, entries, s, codec), done + Refs(entries))
  {
    if entries != [] {
      var init := entries[..|entries| - 1];
      var last := entries[|entries| - 1];
      assert Refs(entries) == Refs(init) + {last.ref} by {
        assert entries == init + [last];
      }
      DistinctInit(entries);
      ScanEntriesAsOnce(objects, done, init, s, codec);
      var o1 := ScanEntries(objects, init, s, codec);
      assert ScanEntriesOnce(objects, done, entries, s, codec) == (Visit(o1, last.ref, s, codec), done + Refs(init) + {last.ref});
      assert ScanEntries(objects, entries, s, codec) == Visit(o1, last.ref, s, codec);
      assert done + Refs(init) + {last.ref} == done + Refs(entries);
    } else {
      assert done + Refs(entries) == done;
    }
  }

  lemma ScanPageAsOnce(objects: Arena, done: set<ObjId>, page: Page, s: Settings, codec: Codec)
    requires 0 < s.num <= s.den
    requires DistinctRefs(Entries(page)) && PageRefs(page) !! done
    ensures ScanPageOnce(objects, done, page, s, codec) == (ScanPage(objects, page, s, codec), done + PageRefs(page))
  {
    match page.resources
    case ResourceDict(XObjectDict(entries)) =>
      ScanEntriesAsOnce(objects, done, entries, s, codec);
    case _ =>
      assert done + PageRefs(page) == done;
  }

  lemma {:induction false} ScanPagesAsOnce(objects: Arena, done: set<ObjId>, pages: seq<Page>, s: Settings, codec: Codec)
    requires 0 < s.num <= s.den
    requires NoSharedImages(pages) && DocumentRefs(pages) !! done
    ensures ScanPagesOnce(objects, done, pages, s, codec) == (ScanPages(objects, pages, s, codec), done + DocumentRefs(pages))
  {
    if pages != [] {
      var init := pages[..|pages| - 1];
      var last := pages[|pages| - 1];
      ScanPagesAsOnce(objects, done, init, s, codec);
      var o := ScanPages(objects, init, s, codec);
      ScanPageAsOnce(o, done + DocumentRefs(init), last, s, codec);
      assert ScanPagesOnce(objects, done, pages, s, codec) == ScanPageOnce(o, done + DocumentRefs(init), last, s, codec);
      assert ScanPages(objects, pages, s, codec) == ScanPage(o, last, s, codec);
      assert done + DocumentRefs(init) + PageRefs(last) == done + DocumentRefs(pages);
    } else {
      assert done + DocumentRefs(pages) == done;
    }
  }

  /**
   * When no object is named twice, the page loop as written recompresses
   * every object some page names exactly once, from its original state,
   * and leaves every other object as it was.
   */
  lemma UnsharedScanRecompressesOnce(objects: Arena, pages: seq<Page>, s: Settings, codec: Codec, k: ObjId)
    requires 0 < s.num <= s.den
    requires NoSharedImages(pages) && k in objects
    ensures var after := ScanPages(objects, pages, s, codec);
      && after.Keys == objects.Keys
      && after[k] == if k in DocumentRefs(pages) && Eligible(objects[k])
                     then Stream(Recompressed(objects[k].dict, s, codec))
                     else objects[k]
  {
    ScanPagesAsOnce(objects, {}, pages, s, codec);
    ScanOnceRecompressesOnce(objects, pages, s, codec, k);
  }
}
