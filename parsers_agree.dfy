/**
 * How the two page-selection parsers relate. Away from the keywords they
 * read the same items, so they raise on the same selections; when both
 * succeed, the split tool's list holds the signing tool's indices in
 * ascending order, plus possibly -1, which only the split tool lets through
 * (from a range starting at 0).
 */
module ParsersAgree {
  import opened Wrappers
  import opened Text
  import opened PageParts
  import opened SplitPages
  import opened SignPages

  /** On non-negative indices, the two parsers' readings of one item agree. */
  lemma SelectsMarks(p: Part, total: int, x: int)
    requires x >= 0
    ensures Selects(p, total, x) <==> x < total && Marks(p, x)
  {
  }

  /**
   * The non-negative indices both parsers return from the same parsed items
   * are the same; since a parsed item holds no negative number, the only
   * other index the split tool can return is -1.
   */
  lemma SameIndices(parts: seq<Part>, total: int, x: int)
    requires x >= 0
    ensures x in SortedSet(Collected(parts, total)) <==> x in InPages(Gathered(parts), total)
  {
    CollectedMembers(parts, total, x);
    SignSelection(parts, total, x);
    if x in InPages(Gathered(parts), total) {
      var i :| 0 <= i < |parts| && Marks(parts[i], x);
      SelectsMarks(parts[i], total, x);
    } else if x in Collected(parts, total) {
      var i :| 0 <= i < |parts| && Selects(parts[i], total, x);
      SelectsMarks(parts[i], total, x);
    }
  }

  /** The signing tool never returns -1 from a list; the split tool does for "0-2". */
  lemma MinusOneOnlyFromSplit(total: int)
    requires total >= 2
    ensures -1 in SortedSet(Collected([Span(0, 2)], total))
    ensures -1 !in InPages(Gathered([Span(0, 2)]), total)
  {
    assert [Span(0, 2)][..0] == [];
    RangeMembers(-1, Min(2, total));
  }

  /** Upper case "ALL" selects every page for the split tool but is an unreadable item for the signing tool. */
  lemma UpperCaseAll()
    ensures Lower("ALL") == "all"
    ensures !IsKeyword("ALL") && ParsePart("ALL") == None
  {
    StripUnchanged("ALL", IsIntSpace);
    assert !IsDigit("ALL"[2]);
  }

  /** "first" is a keyword for the signing tool and an unreadable item for the split tool. */
  lemma FirstOnlyForSigning()
    ensures Lower("first") != "all" && ParsePart("first") == None
  {
    StripUnchanged("first", IsIntSpace);
    assert !IsDigit("first"[4]);
  }
}
