/**
 * The grammar shared by the two page-selection parsers
 * (`parse_page_range` in tools/split.py and `_parse_pages` in
 * tools/sign_pdf.py): the selection is split at commas, each item is
 * stripped, an item holding a "-" is a range "a-b" and any other item a
 * single 1-based page number. Both parsers call `int()` on the same pieces,
 * so they reject exactly the same items.
 */
module PageParts {
  import opened Wrappers
  import opened Text

  /** One comma-separated item, with its numbers as written (1-based). */
  datatype Part = Single(n: int) | Span(first: int, last: int)

  /** The outcome of a parser: its value, or the item that made `int()` or the unpacking raise. */
  datatype Parsed<T> = Parsed(value: T) | Malformed(item: string)

  /** Python's `range(lo, hi)`, as the list of its values. */
  function Range(lo: int, hi: int): (r: seq<int>)
    ensures |r| == if lo < hi then hi - lo else 0
  {
    if lo < hi then seq(hi - lo, i => lo + i) else []
  }

  lemma RangeMembers(lo: int, hi: int)
    ensures forall x :: x in Range(lo, hi) <==> lo <= x < hi
  {
    forall x | lo <= x < hi ensures x in Range(lo, hi) {
      assert Range(lo, hi)[x - lo] == x;
    }
  }

  /** Each piece stripped: `[p.strip() for p in pieces]`. */
  function StripAll(pieces: seq<string>): (items: seq<string>)
    ensures |items| == |pieces|
  {
    if pieces == [] then [] else StripAll(pieces[..|pieces| - 1]) + [Strip(pieces[|pieces| - 1])]
  }

  lemma {:induction false} StripAllEach(pieces: seq<string>)
    ensures forall i :: 0 <= i < |pieces| ==> StripAll(pieces)[i] == Strip(pieces[i])
  {
    if pieces != [] {
      StripAllEach(pieces[..|pieces| - 1]);
    }
  }

  /** The stripped items of a selection string, one per comma-separated piece. */
  function Items(s: string): (items: seq<string>)
    ensures |items| == |Split(s, ',')| >= 1
  {
    StripAll(Split(s, ','))
  }

  /**
   * Parses one stripped item. An item with a "-" must split into exactly
   * two sides (`start, end = part.split("-")`), each an integer; any other
   * item must be an integer. `None` is the exception either parser raises.
   */
  function ParsePart(item: string): (r: Option<Part>)
    ensures r.Some? ==> (r.value.Span? <==> '-' in item)
  {
    if '-' in item then
      var sides := Split(item, '-');
      if |sides| != 2 then None
      else
        match (ParseInt(sides[0]), ParseInt(sides[1]))
        case (Some(a), Some(b)) => Some(Span(a, b))
        case _ => None
    else
      match ParseInt(item)
      case Some(n) => Some(Single(n))
      case None => None
  }

  /** The numbers an item holds are non-negative. */
  predicate NonNegative(p: Part) {
    match p
    case Single(n) => n >= 0
    case Span(a, b) => a >= 0 && b >= 0
  }

  /**
   * Neither side of a range nor a single item can hold a "-", so every
   * number an item yields is non-negative.
   */
  lemma ParsePartNonNegative(item: string)
    requires ParsePart(item).Some?
    ensures NonNegative(ParsePart(item).value)
  {
    if '-' in item {
      var sides := Split(item, '-');
      SplitAvoidsSep(item, '-');
      ParseIntNonNegative(sides[0]);
      ParseIntNonNegative(sides[1]);
    } else {
      ParseIntNonNegative(item);
    }
  }

  /**
   * The items parsed in order; `None` when some item raises, which stops
   * either parser at that item.
   */
  function ParseItems(items: seq<string>): (r: Option<seq<Part>>)
    ensures r.Some? ==> |r.value| == |items|
  {
    if items == [] then Some([])
    else
      match ParseItems(items[..|items| - 1])
      case None => None
      case Some(ps) =>
        match ParsePart(items[|items| - 1])
        case None => None
        case Some(p) => Some(ps + [p])
  }

  /** Parsing item by item succeeds exactly when every item parses, and then yields each item's own parse. */
  lemma {:induction false} ParseItemsEach(items: seq<string>)
    ensures ParseItems(items).Some? <==> forall i :: 0 <= i < |items| ==> ParsePart(items[i]).Some?
    ensures ParseItems(items).Some? ==>
      forall i :: 0 <= i < |items| ==> ParsePart(items[i]) == Some(ParseItems(items).value[i])
  {
    if items != [] {
      var init := items[..|items| - 1];
      ParseItemsEach(init);
      assert forall i :: 0 <= i < |init| ==> init[i] == items[i];
    }
  }

  /** Parsing one more item: the earlier items' parts followed by its own, unless either raises. */
  lemma ParseItemsSnoc(items: seq<string>, item: string)
    ensures ParseItems(items + [item]) ==
      if ParseItems(items).Some? && ParsePart(item).Some?
      then Some(ParseItems(items).value + [ParsePart(item).value])
      else None
  {
    assert (items + [item])[..|items|] == items;
  }

  /** Every part of a selection that parses is non-negative. */
  lemma ParsedNonNegative(items: seq<string>)
    requires ParseItems(items).Some?
    ensures forall i :: 0 <= i < |items| ==> NonNegative(ParseItems(items).value[i])
  {
    ParseItemsEach(items);
    forall i | 0 <= i < |items| ensures NonNegative(ParseItems(items).value[i]) {
      ParsePartNonNegative(items[i]);
    }
  }

  /** Reading one more item of `items` extends what the earlier items parsed to, or raises. */
  lemma ParsedPrefixStep(items: seq<string>, i: int, parts: seq<Part>)
    requires 0 <= i < |items| && ParseItems(items[..i]) == Some(parts)
    ensures ParseItems(items[..i + 1]) ==
      if ParsePart(items[i]).Some? then Some(parts + [ParsePart(items[i]).value]) else None
  {
    assert items[..i + 1] == items[..i] + [items[i]];
    ParseItemsSnoc(items[..i], items[i]);
  }

  /** `item` is the first item of `items` that raises: it is one of the items, and every item before it parses. */
  predicate FirstMalformed(items: seq<string>, item: string) {
    exists k :: 0 <= k < |items| && items[k] == item && ParseItems(items[..k]).Some? && ParsePart(item) == None
  }

  /** A selection with an item that raises raises as a whole. */
  lemma FirstMalformedRaises(items: seq<string>, item: string)
    requires FirstMalformed(items, item)
    ensures ParseItems(items).None?
  {
    var k :| 0 <= k < |items| && items[k] == item && ParseItems(items[..k]).Some? && ParsePart(item) == None;
    ParsedPrefixStep(items, k, ParseItems(items[..k]).value);
    MalformedPrefix(items, k + 1);
  }

  /** Once a prefix raises, the whole selection raises. */
  lemma {:induction false} MalformedPrefix(items: seq<string>, i: nat)
    requires i <= |items| && ParseItems(items[..i]).None?
    ensures ParseItems(items).None?
  {
    if i < |items| {
      assert items[..|items| - 1][..i] == items[..i];
      MalformedPrefix(items[..|items| - 1], i);
    } else {
      assert items[..i] == items;
    }
  }

  /** An empty item (`""`, a trailing comma, `"1,,2"`) is rejected. */
  lemma EmptyItemRejected()
    ensures ParsePart("") == None
  {
    ParseIntBlank("");
  }

  /** A leading "-" leaves an empty first side, so `"-3"` is rejected. */
  lemma LeadingDashRejected()
    ensures ParsePart("-3") == None
  {
    assert Split("-3", '-') == ["", "3"] by {
      SplitJoin(["", "3"], '-');
    }
    ParseIntBlank("");
  }

  /** Two dashes give three sides, so `"1-2-3"` is rejected. */
  lemma DoubleDashRejected()
    ensures ParsePart("1-2-3") == None
  {
    assert Split("1-2-3", '-') == ["1", "2", "3"] by {
      SplitJoin(["1", "2", "3"], '-');
      assert Join(["2", "3"], '-') == "2-3";
    }
  }

  /** A range item reads both of its numbers. */
  lemma SpanParsed()
    ensures ParsePart("3-5") == Some(Span(3, 5))
  {
    assert '-' in "3-5" by {
      assert "3-5"[1] == '-';
    }
    assert Split("3-5", '-') == ["3", "5"] by {
      SplitJoin(["3", "5"], '-');
    }
    assert ParseInt("3") == Some(3) by {
      ParseShow(3);
      assert Show(3) == "3";
    }
    assert ParseInt("5") == Some(5) by {
      ParseShow(5);
      assert Show(5) == "5";
    }
  }

  /** `int()` reads back every single page number `str()` prints. */
  lemma ParseSingleShow(n: nat)
    requires |ShowNat(n)| <= MaxStrDigits
    ensures ParsePart(Show(n)) == Some(Single(n))
  {
    assert '-' !in Show(n) by {
      forall i | 0 <= i < |Show(n)| ensures Show(n)[i] != '-' {
        assert IsDigit(ShowNat(n)[i]);
      }
    }
    ParseShow(n);
  }

  /** A range printed as `f"{a}-{b}"` reads back as the range from `a` to `b`. */
  lemma ParseSpanShow(a: nat, b: nat)
    requires |ShowNat(a)| <= MaxStrDigits && |ShowNat(b)| <= MaxStrDigits
    ensures ParsePart(Show(a) + "-" + Show(b)) == Some(Span(a, b))
  {
    var item := Show(a) + "-" + Show(b);
    assert item[|Show(a)|] == '-';
    forall x: nat ensures '-' !in Show(x) {
      forall i | 0 <= i < |Show(x)| ensures Show(x)[i] != '-' {
        assert IsDigit(ShowNat(x)[i]);
      }
    }
    assert Split(item, '-') == [Show(a), Show(b)] by {
      SplitJoin([Show(a), Show(b)], '-');
      assert Join([Show(a), Show(b)], '-') == Show(a) + ['-'] + Show(b);
    }
    ParseShow(a);
    ParseShow(b);
  }

  /**
   * `strip()` of an item keeps a unit separator (code 31) that is not at
   * either end, and `int()` does not skip it: `"1\x1f-3"` raises.
   */
  lemma UnitSeparatorRejected()
    ensures var item := ['1', 31 as char, '-', '3'];
      Strip(item) == item && ParsePart(item) == None
  {
    var item := ['1', 31 as char, '-', '3'];
    StripUnchanged(item, IsSpace);
    assert item[2] == '-';
    var left := ['1', 31 as char];
    assert Split(item, '-') == [left, "3"] by {
      SplitJoin([left, "3"], '-');
      assert Join([left, "3"], '-') == item;
    }
    StripUnchanged(left, IsIntSpace);
  }

  /** A page number written with 4301 digits raises in `int()`, although its value is 1. */
  lemma LongItemRejected()
    ensures var item := seq(MaxStrDigits, _ => '0') + "1";
      Strip(item) == item && ParsePart(item) == None
  {
    var item := seq(MaxStrDigits, _ => '0') + "1";
    assert forall i :: 0 <= i < |item| ==> IsDigit(item[i]);
    StripUnchanged(item, IsSpace);
    assert '-' !in item;
    LongDigitRunRejected(item);
  }
}
