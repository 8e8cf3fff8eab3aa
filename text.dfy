/**
 * The few Python `str` operations the page-selection parsers and the upload
 * validator rely on: `strip()`, `split(sep)`, `lower()`, the `in` test and
 * `int(str)`. Only ASCII whitespace, ASCII letters and ASCII digits are
 * modelled.
 */
module Text {
  import opened Wrappers

  /** The ASCII characters for which Python's `str.isspace()` is true: what `strip()` removes. */
  predicate IsSpace(c: char) {
    c == ' ' || (9 <= c as int <= 13) || (28 <= c as int <= 31)
  }

  /**
   * The characters `int()` skips before and after the digits of an ASCII
   * string: space, tab, line feed, vertical tab, form feed and carriage
   * return. The separators 28..31 are not among them.
   */
  predicate IsIntSpace(c: char) {
    c == ' ' || (9 <= c as int <= 13)
  }

  /** Every character of `s` is one `ws` accepts. */
  predicate AllIn(s: string, ws: char -> bool) {
    forall i :: 0 <= i < |s| ==> ws(s[i])
  }

  predicate AllSpace(s: string) {
    AllIn(s, IsSpace)
  }

  /** `s` without its leading characters from `ws`. */
  function StripLeft(s: string, ws: char -> bool): string {
    if s != [] && ws(s[0]) then StripLeft(s[1..], ws) else s
  }

  /** `s` without its trailing characters from `ws`. */
  function StripRight(s: string, ws: char -> bool): string {
    if s != [] && ws(s[|s| - 1]) then StripRight(s[..|s| - 1], ws) else s
  }

  /** `s` without its leading and trailing characters from `ws`. */
  function StripBy(s: string, ws: char -> bool): string {
    StripRight(StripLeft(s, ws), ws)
  }

  /** `s.strip()`. */
  function Strip(s: string): string {
    StripBy(s, IsSpace)
  }

  lemma {:induction false} StripLeftShape(s: string, ws: char -> bool) returns (i: nat)
    ensures i <= |s| && StripLeft(s, ws) == s[i..]
    ensures AllIn(s[..i], ws)
    ensures i == |s| || !ws(s[i])
  {
    if s != [] && ws(s[0]) {
      var k := StripLeftShape(s[1..], ws);
      i := k + 1;
      assert s[1..][k..] == s[i..];
      assert forall j :: 0 <= j < i ==> s[..i][j] == s[j];
      assert forall j :: 1 <= j < i ==> s[j] == s[1..][..k][j - 1];
    } else {
      i := 0;
    }
  }

  lemma {:induction false} StripRightShape(s: string, ws: char -> bool) returns (j: nat)
    ensures j <= |s| && StripRight(s, ws) == s[..j]
    ensures AllIn(s[j..], ws)
    ensures j == 0 || !ws(s[j - 1])
  {
    if s != [] && ws(s[|s| - 1]) {
      j := StripRightShape(s[..|s| - 1], ws);
      assert s[..|s| - 1][..j] == s[..j];
      assert forall k :: j <= k < |s| - 1 ==> s[k] == s[..|s| - 1][j..][k - j];
    } else {
      j := |s|;
    }
  }

  /**
   * What stripping returns is the slice of `s` left after removing the
   * characters of `ws` at both ends, and it neither starts nor ends with
   * one of them.
   */
  lemma StripShape(s: string, ws: char -> bool) returns (i: nat, j: nat)
    ensures i <= j <= |s| && StripBy(s, ws) == s[i..j]
    ensures AllIn(s[..i], ws) && AllIn(s[j..], ws)
    ensures StripBy(s, ws) == [] || (!ws(s[i]) && !ws(s[j - 1]))
  {
    i := StripLeftShape(s, ws);
    var l := s[i..];
    var k := StripRightShape(l, ws);
    j := i + k;
    assert l[..k] == s[i..j];
    assert forall m :: j <= m < |s| ==> s[m] == l[k..][m - j];
  }

  /** The ASCII case mapping of `str.lower()`. */
  function LowerChar(c: char): (r: char)
    ensures !('A' <= r <= 'Z')
    ensures 'a' <= c <= 'z' ==> r == c
  {
    if 'A' <= c <= 'Z' then (c as int + 32) as char else c
  }

  /** `str.lower()` on ASCII: no upper-case letter is left, and exactly the upper-case letters change. */
  function Lower(s: string): (r: string)
    ensures |r| == |s|
    ensures forall i :: 0 <= i < |r| ==> !('A' <= r[i] <= 'Z')
    ensures forall i :: 0 <= i < |s| ==> (r[i] == s[i] <==> !('A' <= s[i] <= 'Z'))
  {
    seq(|s|, i requires 0 <= i < |s| => LowerChar(s[i]))
  }

  /** Lowering twice is lowering once. */
  lemma LowerIdempotent(s: string)
    ensures Lower(Lower(s)) == Lower(s)
  {
  }

  /** Joins parts with `sep` in between: Python's `sep.join(parts)`. */
  function Join(parts: seq<string>, sep: char): string
    requires |parts| >= 1
  {
    if |parts| == 1 then parts[0] else parts[0] + [sep] + Join(parts[1..], sep)
  }

  /**
   * `s.split(sep)` with an explicit separator: every occurrence of `sep`
   * separates two parts, so the empty string gives one empty part and
   * adjacent separators give an empty part between them.
   */
  function Split(s: string, sep: char): (parts: seq<string>)
    ensures |parts| >= 1
  {
    if s == [] then [[]]
    else
      var rest := Split(s[1..], sep);
      if s[0] == sep then [[]] + rest
      else [[s[0]] + rest[0]] + rest[1..]
  }

  /** Joining the parts with the separator gives back the string. */
  lemma {:induction false} JoinSplit(s: string, sep: char)
    ensures Join(Split(s, sep), sep) == s
  {
    if s != [] {
      JoinSplit(s[1..], sep);
      var rest := Split(s[1..], sep);
      var parts := Split(s, sep);
      assert s == [s[0]] + s[1..];
      if s[0] == sep {
        assert parts[1..] == rest;
        assert Join(parts, sep) == [] + [sep] + Join(rest, sep);
      } else if |rest| == 1 {
        assert parts == [[s[0]] + rest[0]];
      } else {
        assert parts[1..] == rest[1..];
        assert Join(rest, sep) == rest[0] + [sep] + Join(rest[1..], sep);
        assert Join(parts, sep) == [s[0]] + rest[0] + [sep] + Join(rest[1..], sep);
      }
    }
  }

  /** No part holds the separator. */
  lemma {:induction false} SplitAvoidsSep(s: string, sep: char)
    ensures forall i :: 0 <= i < |Split(s, sep)| ==> sep !in Split(s, sep)[i]
  {
    if s != [] {
      SplitAvoidsSep(s[1..], sep);
      var rest := Split(s[1..], sep);
      if s[0] != sep {
        assert Split(s, sep)[1..] == rest[1..];
      } else {
        assert Split(s, sep)[1..] == rest;
      }
    }
  }

  /** The parts of a string that holds no separator is the string itself. */
  lemma {:induction false} SplitNoSep(s: string, sep: char)
    requires sep !in s
    ensures Split(s, sep) == [s]
  {
    if s != [] {
      SplitNoSep(s[1..], sep);
      assert [s[0]] + s[1..] == s;
    }
  }

  lemma {:induction false} SplitAfterPart(p: string, sep: char, rest: string)
    requires sep !in p
    ensures Split(p + [sep] + rest, sep) == [p] + Split(rest, sep)
  {
    if p != [] {
      assert (p + [sep] + rest)[1..] == p[1..] + [sep] + rest;
      SplitAfterPart(p[1..], sep, rest);
      assert [p[0]] + p[1..] == p;
    } else {
      assert (p + [sep] + rest)[1..] == rest;
    }
  }

  /** Splitting undoes joining when no part contains the separator. */
  lemma {:induction false} SplitJoin(parts: seq<string>, sep: char)
    requires |parts| >= 1
    requires forall i :: 0 <= i < |parts| ==> sep !in parts[i]
    ensures Split(Join(parts, sep), sep) == parts
  {
    if |parts| == 1 {
      SplitNoSep(parts[0], sep);
    } else {
      SplitJoin(parts[1..], sep);
      SplitAfterPart(parts[0], sep, Join(parts[1..], sep));
      assert [parts[0]] + parts[1..] == parts;
    }
  }

  // ---------------------------------------------------------------------
  // int(str) in base 10

  predicate IsDigit(c: char) {
    '0' <= c <= '9'
  }

  function DigitValue(c: char): nat
    requires IsDigit(c)
  {
    c as int - '0' as int
  }

  /**
   * A run of decimal digits in which single underscores may separate
   * digits, as Python's `int()` accepts (`"1_000"`, but not `"_1"`, `"1_"`
   * or `"1__0"`).
   */
  predicate IsDigitGroup(s: string) {
    && |s| > 0
    && IsDigit(s[|s| - 1])
    && (|s| == 1 ||
        if s[|s| - 2] == '_' then |s| >= 3 && IsDigitGroup(s[..|s| - 2])
        else IsDigitGroup(s[..|s| - 1]))
  }

  /** The decimal value of the digits of `s`, underscores ignored. */
  function DigitsValue(s: string): nat
    requires IsDigitGroup(s)
  {
    var d := DigitValue(s[|s| - 1]);
    if |s| == 1 then d
    else if s[|s| - 2] == '_' then DigitsValue(s[..|s| - 2]) * 10 + d
    else DigitsValue(s[..|s| - 1]) * 10 + d
  }

  /**
   * The default limit on the number of decimal digits `int()` converts
   * and `str()` prints (`sys.get_int_max_str_digits()`, CPython 3.11 and
   * the 3.10.7 and 3.9.14 security releases onwards).
   */
  const MaxStrDigits := 4300

  /** The number of decimal digits in `s`: underscores and signs are not counted, leading zeros are. */
  function DigitCount(s: string): (r: nat)
    ensures r <= |s|
  {
    if s == [] then 0
    else DigitCount(s[..|s| - 1]) + (if IsDigit(s[|s| - 1]) then 1 else 0)
  }

  lemma {:induction false} DigitCountAllDigits(s: string)
    requires forall i :: 0 <= i < |s| ==> IsDigit(s[i])
    ensures DigitCount(s) == |s|
  {
    if s != [] {
      DigitCountAllDigits(s[..|s| - 1]);
    }
  }

  /** The value of a digit group, or the `ValueError` of a group longer than `MaxStrDigits` digits. */
  function GroupValue(g: string): Option<nat>
    requires IsDigitGroup(g)
  {
    if DigitCount(g) > MaxStrDigits then None else Some(DigitsValue(g))
  }

  /**
   * Python's `int(s)` for an ASCII string: surrounding space, tab, line
   * feed, vertical tab, form feed and carriage return are ignored, an
   * optional sign precedes the digits. `None` stands for the `ValueError`
   * that `int()` raises on anything else: the empty string, and digits
   * beyond `MaxStrDigits`.
   */
  function ParseInt(s: string): (r: Option<int>)
  {
    var t := StripBy(s, IsIntSpace);
    if |t| > 0 && (t[0] == '+' || t[0] == '-') then
      if IsDigitGroup(t[1..]) then
        match GroupValue(t[1..])
        case None => None
        case Some(v) => if t[0] == '-' then Some(-(v as int)) else Some(v)
      else None
    else if IsDigitGroup(t) then
      match GroupValue(t)
      case None => None
      case Some(v) => Some(v)
    else None
  }

  /** Only a minus sign makes `int()` negative. */
  lemma ParseIntNonNegative(s: string)
    requires '-' !in s && ParseInt(s).Some?
    ensures ParseInt(s).value >= 0
  {
    var i, j := StripShape(s, IsIntSpace);
  }

  /** `int("")`, and `int()` of anything `str.isspace()` accepts, raise. */
  lemma ParseIntBlank(s: string)
    requires AllSpace(s)
    ensures ParseInt(s) == None
  {
    var i, j := StripShape(s, IsIntSpace);
    if i < j {
      assert s[i] == s[..j][i];
    }
  }

  /** The decimal digits of `n`, most significant first, as `str(n)` prints them. */
  function ShowNat(n: nat): (r: string)
    ensures |r| > 0
    ensures forall i :: 0 <= i < |r| ==> IsDigit(r[i])
    ensures IsDigitGroup(r)
  {
    var d := ['0' + (n % 10) as char];
    if n < 10 then d else ShowNat(n / 10) + d
  }

  /** `str(n)` for any integer. */
  function Show(n: int): string {
    if n < 0 then "-" + ShowNat(-n) else ShowNat(n)
  }

  lemma {:induction false} ShowNatValue(n: nat)
    ensures DigitsValue(ShowNat(n)) == n
  {
    var r := ShowNat(n);
    if n >= 10 {
      ShowNatValue(n / 10);
      assert r[..|r| - 1] == ShowNat(n / 10);
    }
  }

  lemma StripUnchanged(s: string, ws: char -> bool)
    requires s == [] || (!ws(s[0]) && !ws(s[|s| - 1]))
    ensures StripBy(s, ws) == s
  {
    var i, j := StripShape(s, ws);
  }

  lemma {:induction false} DigitGroupStartsWithDigit(s: string)
    requires IsDigitGroup(s)
    ensures IsDigit(s[0])
  {
    if |s| > 1 {
      if s[|s| - 2] == '_' {
        DigitGroupStartsWithDigit(s[..|s| - 2]);
      } else {
        DigitGroupStartsWithDigit(s[..|s| - 1]);
      }
    }
  }

  lemma ParseUnsigned(t: string)
    requires StripBy(t, IsIntSpace) == t && IsDigitGroup(t)
    ensures ParseInt(t) == if DigitCount(t) <= MaxStrDigits then Some(DigitsValue(t)) else None
  {
    DigitGroupStartsWithDigit(t);
  }

  lemma ParseNegative(t: string)
    requires StripBy(t, IsIntSpace) == t && |t| > 0 && t[0] == '-' && IsDigitGroup(t[1..])
    ensures ParseInt(t) == if DigitCount(t[1..]) <= MaxStrDigits then Some(-(DigitsValue(t[1..]) as int)) else None
  {
  }

  /** `int()` reads back every integer `str()` prints; `str()` itself raises beyond `MaxStrDigits` digits. */
  lemma ParseShow(n: int)
    requires |ShowNat(if n < 0 then -n else n)| <= MaxStrDigits
    ensures ParseInt(Show(n)) == Some(n)
  {
    var m: nat := if n < 0 then -n else n;
    var digits := ShowNat(m);
    ShowNatValue(m);
    DigitCountAllDigits(digits);
    var t := Show(n);
    StripUnchanged(t, IsIntSpace);
    if n < 0 {
      assert t[1..] == digits;
      ParseNegative(t);
    } else {
      assert t == digits;
      ParseUnsigned(t);
    }
  }

  /** A run of more than `MaxStrDigits` decimal digits raises, whatever its value: leading zeros count. */
  lemma LongDigitRunRejected(s: string)
    requires |s| > MaxStrDigits && forall i :: 0 <= i < |s| ==> IsDigit(s[i])
    ensures ParseInt(s) == None
  {
    StripUnchanged(s, IsIntSpace);
    DigitCountAllDigits(s);
  }
}
