/**
 * `_parse_pages` and the `POSITIONS` presets of tools/sign_pdf.py. The
 * keywords "all", "first" and "last" are matched exactly (case matters);
 * "first" and "last" are returned without checking them against the page
 * count. Any other selection is read with the same item grammar as
 * tools/split.py, gathered into a set, and only then filtered to the
 * indices 0 .. total - 1.
 */
module SignPages {
  import opened Wrappers
  import opened Text
  import opened PageParts

  // ---------------------------------------------------------------------
  // Signature anchor presets

  /** The anchor of each named position, as fractions of the page's width and height (x from the left, y from the bottom). */
  const Presets: map<string, (real, real)> := map[
    "bottom-right" := (0.95, 0.05),
    "bottom-left" := (0.05, 0.05),
    "bottom-center" := (0.5, 0.05),
    "top-right" := (0.95, 0.95),
    "top-left" := (0.05, 0.95),
    "top-center" := (0.5, 0.95)
  ]

  /**
   * `POSITIONS.get(position, POSITIONS["bottom-right"])`: an unknown name
   * falls back to the bottom-right anchor, so the anchor always lies
   * strictly inside the page.
   */
  function Position(name: string): (r: (real, real))
    ensures 0.0 < r.0 < 1.0 && 0.0 < r.1 < 1.0
    ensures name in Presets ==> r == Presets[name]
    ensures name !in Presets ==> r == (0.95, 0.05)
    ensures r in Presets.Values
  {
    if name in Presets then Presets[name] else Presets["bottom-right"]
  }

  /** The six named anchors, each at its own corner or edge centre. */
  lemma PositionTable()
    ensures Position("bottom-right") == (0.95, 0.05) && Position("bottom-left") == (0.05, 0.05)
    ensures Position("bottom-center") == (0.5, 0.05) && Position("top-right") == (0.95, 0.95)
    ensures Position("top-left") == (0.05, 0.95) && Position("top-center") == (0.5, 0.95)
  {
  }

  /** Every preset name picks its own anchor: no two presets share one. */
  lemma PresetsDistinct(a: string, b: string)
    requires a in Presets && b in Presets && a != b
    ensures Position(a) != Position(b)
  {
  }

  // ---------------------------------------------------------------------
  // The specification of the comma-list loop

  /** What one item adds to `result`: `range(a - 1, b)` for a range, `n - 1` for a single page. */
  function Spread(p: Part): set<int> {
    match p
    case Span(a, b) => var lo := a - 1; set x | x in Range(lo, b)
    case Single(n) => {n - 1}
  }

  /** The set `result` after the loop has read the items parsed as `parts`. */
  function Gathered(parts: seq<Part>): set<int> {
    if parts == [] then {}
    else Gathered(parts[..|parts| - 1]) + Spread(parts[|parts| - 1])
  }

  /** The final comprehension `{p for p in result if 0 <= p < total}`. */
  function InPages(result: set<int>, total: int): set<int> {
    set p | p in result && 0 <= p < total
  }

  /** Which index an item marks before filtering, stated without sets. */
  predicate Marks(p: Part, x: int) {
    match p
    case Single(n) => x == n - 1
    case Span(a, b) => a - 1 <= x < b
  }

  lemma SpreadMarks(p: Part, x: int)
    ensures x in Spread(p) <==> Marks(p, x)
  {
    if p.Span? {
      RangeMembers(p.first - 1, p.last);
    }
  }

  lemma {:induction false} GatheredMembers(parts: seq<Part>, x: int)
    ensures x in Gathered(parts) <==> exists i :: 0 <= i < |parts| && Marks(parts[i], x)
  {
    if parts != [] {
      var init := parts[..|parts| - 1];
      GatheredMembers(init, x);
      SpreadMarks(parts[|parts| - 1], x);
      if x in Gathered(init) {
        var i :| 0 <= i < |init| && Marks(init[i], x);
        assert init[i] == parts[i];
      } else if x !in Gathered(parts) {
        forall i | 0 <= i < |parts| ensures !Marks(parts[i], x) {
          if i < |init| {
            assert init[i] == parts[i];
          }
        }
      }
    }
  }

  /**
   * The comma-list branch returns exactly the indices below `total`, and
   * not negative, that some item marks; an item may mark an index more than
   * once, or several items the same index, and it is returned once.
   */
  lemma SignSelection(parts: seq<Part>, total: int, x: int)
    ensures x in InPages(Gathered(parts), total) <==>
      0 <= x < total && exists i :: 0 <= i < |parts| && Marks(parts[i], x)
  {
    GatheredMembers(parts, x);
  }

  /** A range "a-b" with a > b adds nothing. */
  lemma EmptySpread(a: int, b: int)
    requires a > b
    ensures Spread(Span(a, b)) == {}
  {
    assert Range(a - 1, b) == [];
  }

  lemma GatheredSnoc(parts: seq<Part>, p: Part)
    ensures Gathered(parts + [p]) == Gathered(parts) + Spread(p)
  {
    assert (parts + [p])[..|parts|] == parts;
  }

  // ---------------------------------------------------------------------
  // The parser

  predicate IsKeyword(pages: string) {
    pages == "all" || pages == "first" || pages == "last"
  }

  /**
   * `_parse_pages(pages, total)`. `Malformed` stands for the `ValueError`
   * raised on the first item that cannot be read.
   */
  method ParseSignPages(pages: string, total: int) returns (r: Parsed<set<int>>)
    ensures pages == "all" ==> r == Parsed(set x | x in Range(0, total))
    ensures pages == "first" ==> r == Parsed({0})
    ensures pages == "last" ==> r == Parsed({total - 1})
    ensures !IsKeyword(pages) ==> (r.Parsed? <==> ParseItems(Items(pages)).Some?)
    ensures !IsKeyword(pages) && r.Parsed? ==>
      r.value == InPages(Gathered(ParseItems(Items(pages)).value), total)
    ensures r.Malformed? ==> ParsePart(r.item) == None
    ensures r.Malformed? ==> !IsKeyword(pages) && FirstMalformed(Items(pages), r.item)
  {
    if pages == "all" {
      return Parsed(set x | x in Range(0, total));
    } else if pages == "first" {
      return Parsed({0});
    } else if pages == "last" {
      return Parsed({total - 1});
    }
    r := GatherPages(Items(pages));
    if r.Parsed? {
      r := Parsed(InPages(r.value, total));
    }
  }

  /**
   * The loop of `_parse_pages` over the stripped items: the set `result`
   * before filtering, or the first item that raises.
   */
  method GatherPages(items: seq<string>) returns (r: Parsed<set<int>>)
    ensures r.Parsed? <==> ParseItems(items).Some?
    ensures r.Parsed? ==> r.value == Gathered(ParseItems(items).value)
    ensures r.Malformed? ==> ParsePart(r.item) == None
    ensures r.Malformed? ==> FirstMalformed(items, r.item)
  {
    var result: set<int> := {};
    ghost var parts: seq<Part> := [];
    var i := 0;
    while i < |items|
      invariant 0 <= i <= |items|
      invariant ParseItems(items[..i]) == Some(parts)
      invariant result == Gathered(parts)
    {
      var item := items[i];
      ParsedPrefixStep(items, i, parts);
      var parsed := ParsePart(item);
      if parsed.None? {
        MalformedPrefix(items, i + 1);
        assert items[i] == item && ParseItems(items[..i]).Some?;
        return Malformed(item);
      }
      var part := parsed.value;
      GatheredSnoc(parts, part);
      parts := parts + [part];
      if part.Span? {
        var start := part.first - 1;
        result := result + set x | x in Range(start, part.last);
      } else {
        result := result + {part.n - 1};
      }
      i := i + 1;
    }
    assert items[..i] == items;
    return Parsed(result);
  }
}
