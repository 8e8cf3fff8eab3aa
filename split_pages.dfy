/**
 * `parse_page_range` of tools/split.py: "all" in any letter case selects
 * every page; otherwise each comma-separated item adds page indices
 * (0-based) to a list, which is returned sorted and without duplicates.
 * A single number outside 1..total is dropped; a range is clamped above at
 * `total` but not below, so "0-2" contributes -1.
 */
module SplitPages {
  import opened Wrappers
  import opened Text
  import opened PageParts

  function Min(a: int, b: int): int {
    if a <= b then a else b
  }

  // ---------------------------------------------------------------------
  // sorted(set(xs))

  predicate StrictlyIncreasing(s: seq<int>) {
    forall i, j :: 0 <= i < j < |s| ==> s[i] < s[j]
  }

  /** Inserts `x` into a strictly increasing list, unless it is already there. */
  function Insert(x: int, s: seq<int>): (r: seq<int>)
    requires StrictlyIncreasing(s)
    ensures StrictlyIncreasing(r)
    ensures forall y :: y in r <==> y == x || y in s
  {
    if s == [] then [x]
    else if x < s[0] then [x] + s
    else if x == s[0] then s
    else
      var rest := Insert(x, s[1..]);
      assert forall i :: 0 <= i < |rest| ==> s[0] < rest[i] by {
        forall i | 0 <= i < |rest| ensures s[0] < rest[i] {
          assert rest[i] in rest;
          if rest[i] != x {
            var k :| 0 <= k < |s[1..]| && s[1..][k] == rest[i];
            assert s[k + 1] == rest[i];
          }
        }
      }
      [s[0]] + rest
  }

  /** Python's `sorted(set(xs))`: the distinct values of `xs` in ascending order. */
  function SortedSet(xs: seq<int>): (r: seq<int>)
    ensures StrictlyIncreasing(r)
    ensures forall y :: y in r <==> y in xs
  {
    if xs == [] then []
    else Insert(xs[|xs| - 1], SortedSet(xs[..|xs| - 1]))
  }

  // ---------------------------------------------------------------------
  // The specification of the loop

  /** What one item appends to `pages`: `range(a - 1, min(b, total))`, or `n - 1` when 1 <= n <= total. */
  function Contribution(p: Part, total: int): seq<int> {
    match p
    case Span(a, b) => Range(a - 1, Min(b, total))
    case Single(n) => if 0 <= n - 1 < total then [n - 1] else []
  }

  /** The list `pages` after the loop has read the items parsed as `parts`. */
  function Collected(parts: seq<Part>, total: int): seq<int> {
    if parts == [] then []
    else Collected(parts[..|parts| - 1], total) + Contribution(parts[|parts| - 1], total)
  }

  /** Which 0-based index an item selects, stated without the list operations. */
  predicate Selects(p: Part, total: int, x: int) {
    match p
    case Single(n) => 1 <= n <= total && x == n - 1
    case Span(a, b) => a - 1 <= x && x < b && x < total
  }

  lemma ContributionSelects(p: Part, total: int, x: int)
    ensures x in Contribution(p, total) <==> Selects(p, total, x)
  {
    if p.Span? {
      RangeMembers(p.first - 1, Min(p.last, total));
    }
  }

  /** An index is collected exactly when some item selects it. */
  lemma {:induction false} CollectedMembers(parts: seq<Part>, total: int, x: int)
    ensures x in Collected(parts, total) <==> exists i :: 0 <= i < |parts| && Selects(parts[i], total, x)
  {
    if parts != [] {
      var init := parts[..|parts| - 1];
      CollectedMembers(init, total, x);
      ContributionSelects(parts[|parts| - 1], total, x);
      if x in Collected(parts, total) {
        if x in Collected(init, total) {
          var i :| 0 <= i < |init| && Selects(init[i], total, x);
          assert init[i] == parts[i];
        }
      } else {
        forall i | 0 <= i < |parts| ensures !Selects(parts[i], total, x) {
          if i < |init| {
            assert init[i] == parts[i];
          }
        }
      }
    }
  }

  lemma CollectedSnoc(parts: seq<Part>, p: Part, total: int)
    ensures Collected(parts + [p], total) == Collected(parts, total) + Contribution(p, total)
  {
    assert (parts + [p])[..|parts|] == parts;
  }

  /**
   * Every index the comma-list branch returns is below `total` and at
   * least -1; -1 comes only from a range that starts at 0.
   */
  lemma CollectedBounds(parts: seq<Part>, total: int, x: int)
    requires forall i :: 0 <= i < |parts| ==> NonNegative(parts[i])
    requires x in Collected(parts, total)
    ensures -1 <= x < total
    ensures x == -1 ==> exists i :: 0 <= i < |parts| && parts[i].Span? && parts[i].first == 0
  {
    CollectedMembers(parts, total, x);
    var i :| 0 <= i < |parts| && Selects(parts[i], total, x);
  }

  /**
   * Every index `parse_page_range` returns from a comma list is below
   * `total` and at least -1.
   */
  lemma PageRangeBounds(pagesStr: string, total: int, x: int)
    requires ParseItems(Items(pagesStr)).Some?
    requires x in SortedSet(Collected(ParseItems(Items(pagesStr)).value, total))
    ensures -1 <= x < total
  {
    ParsedNonNegative(Items(pagesStr));
    CollectedBounds(ParseItems(Items(pagesStr)).value, total, x);
  }

  /** A range "a-b" with a > b or a > total selects nothing. */
  lemma EmptySpan(a: int, b: int, total: int)
    requires a > b || a > total
    ensures Contribution(Span(a, b), total) == []
  {
  }

  // ---------------------------------------------------------------------
  // The parser

  /**
   * `parse_page_range(pages_str, total_pages)`. `Malformed` stands for the
   * `ValueError` the source raises on the first item it cannot read.
   */
  method ParsePageRange(pagesStr: string, total: int) returns (r: Parsed<seq<int>>)
    ensures Lower(pagesStr) == "all" ==> r == Parsed(Range(0, total))
    ensures Lower(pagesStr) != "all" ==> (r.Parsed? <==> ParseItems(Items(pagesStr)).Some?)
    ensures Lower(pagesStr) != "all" && r.Parsed? ==>
      r.value == SortedSet(Collected(ParseItems(Items(pagesStr)).value, total))
    ensures r.Malformed? ==> ParsePart(r.item) == None
    ensures r.Malformed? ==> Lower(pagesStr) != "all" && FirstMalformed(Items(pagesStr), r.item)
  {
    if Lower(pagesStr) == "all" {
      return Parsed(Range(0, total));
    }
    r := CollectPages(Items(pagesStr), total);
    if r.Parsed? {
      r := Parsed(SortedSet(r.value));
    }
  }

  /**
   * The body of the loop of `parse_page_range` once an item has parsed:
   * a range extends `pages` with `range(a - 1, min(b, total))`, a single
   * number with its index when 1 <= n <= total.
   */
  method AppendPart(pages: seq<int>, part: Part, total: int) returns (pages': seq<int>)
    ensures pages' == pages + Contribution(part, total)
    ensures forall x :: x in pages' <==> x in pages || Selects(part, total, x)
  {
    pages' := pages;
    if part.Span? {
      pages' := pages' + Range(part.first - 1, Min(part.last, total));
    } else {
      var page := part.n - 1;
      if 0 <= page < total {
        pages' := pages' + [page];
      }
    }
    forall x ensures x in pages' <==> x in pages || Selects(part, total, x) {
      ContributionSelects(part, total, x);
    }
  }

  /**
   * The loop of `parse_page_range` over the stripped items: the list of
   * indices before sorting, or the first item that raises.
   */
  method CollectPages(items: seq<string>, total: int) returns (r: Parsed<seq<int>>)
    ensures r.Parsed? <==> ParseItems(items).Some?
    ensures r.Parsed? ==> r.value == Collected(ParseItems(items).value, total)
    ensures r.Malformed? ==> ParsePart(r.item) == None
    ensures r.Malformed? ==> FirstMalformed(items, r.item)
  {
    var pages: seq<int> := [];
    ghost var parts: seq<Part> := [];
    var i := 0;
    while i < |items|
      invariant 0 <= i <= |items|
      invariant ParseItems(items[..i]) == Some(parts)
      invariant pages == Collected(parts, total)
    {
      var item := items[i];
      ParsedPrefixStep(items, i, parts);
      var parsed := ParsePart(item);
      if parsed.None? {
        MalformedPrefix(items, i + 1);
        assert items[i] == item && ParseItems(items[..i]).Some?;
        return Malformed(item);
      }
      var part := parsed.value;
      CollectedSnoc(parts, part, total);
      parts := parts + [part];
      pages := AppendPart(pages, part, total);
      i := i + 1;
    }
    assert items[..i] == items;
    return Parsed(pages);
  }
}
