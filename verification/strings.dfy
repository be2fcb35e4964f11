/**
 * The `Strings` helpers: `split` (PHP `explode`, then optional `trim`, then
 * the `notEmpty` filter), `toInt` (an `(int)` cast) and `join` (`implode`).
 */
module Strings {
  import opened Iterables

  // ---------------------------------------------------------------------
  // explode / implode
  // ---------------------------------------------------------------------

  /**
   * PHP `explode`: cut the text at every occurrence of the separator,
   * scanning left to right, so overlapping occurrences are not cut twice.
   * An empty separator throws in PHP, so callers must pass a non-empty one.
   */
  function Explode(text: string, sep: string): (parts: seq<string>)
    requires |sep| > 0
    ensures |parts| >= 1
    decreases |text|
  {
    if |text| < |sep| then [text]
    else if text[..|sep|] == sep then [""] + Explode(text[|sep|..], sep)
    else
      var rest := Explode(text[1..], sep);
      [[text[0]] + rest[0]] + rest[1..]
  }

  /** PHP `implode`: the parts with the separator between neighbours. */
  function Implode(parts: seq<string>, sep: string): string {
    if |parts| == 0 then ""
    else if |parts| == 1 then parts[0]
    else parts[0] + sep + Implode(parts[1..], sep)
  }

  /** Number of occurrences of `sep` found by a left-to-right non-overlapping scan. */
  function Occurrences(text: string, sep: string): nat
    requires |sep| > 0
    decreases |text|
  {
    if |text| < |sep| then 0
    else if text[..|sep|] == sep then 1 + Occurrences(text[|sep|..], sep)
    else Occurrences(text[1..], sep)
  }

  lemma ImplodeConsChar(c: char, parts: seq<string>, sep: string)
    requires |parts| >= 1
    ensures Implode([[c] + parts[0]] + parts[1..], sep) == [c] + Implode(parts, sep)
  {
    var q := [[c] + parts[0]] + parts[1..];
    if |parts| > 1 {
      assert q[1..] == parts[1..];
    }
  }

  /** `implode` undoes `explode`, and there is one more part than separators. */
  lemma {:induction false} ExplodeImplode(text: string, sep: string)
    requires |sep| > 0
    ensures Implode(Explode(text, sep), sep) == text
    ensures |Explode(text, sep)| == Occurrences(text, sep) + 1
    decreases |text|
  {
    if |text| < |sep| {
    } else if text[..|sep|] == sep {
      ExplodeImplode(text[|sep|..], sep);
      ExplodeImplodeAtSeparator(text, sep);
    } else {
      ExplodeImplode(text[1..], sep);
      ExplodeImplodeAtChar(text, sep);
    }
  }

  /** The step of `ExplodeImplode` where the text starts with the separator. */
  lemma ExplodeImplodeAtSeparator(text: string, sep: string)
    requires |sep| > 0 && |text| >= |sep| && text[..|sep|] == sep
    requires Implode(Explode(text[|sep|..], sep), sep) == text[|sep|..]
    requires |Explode(text[|sep|..], sep)| == Occurrences(text[|sep|..], sep) + 1
    ensures Implode(Explode(text, sep), sep) == text
    ensures |Explode(text, sep)| == Occurrences(text, sep) + 1
  {
    var tail := text[|sep|..];
    var rest := Explode(tail, sep);
    ExplodeSeparatorStep(text, sep);
    ImplodeEmptyHead(rest, sep);
    SplitAtPrefix(text, |sep|);
  }

  /** Text that starts with the separator explodes to an empty part, then the rest. */
  lemma ExplodeSeparatorStep(text: string, sep: string)
    requires |sep| > 0 && |text| >= |sep| && text[..|sep|] == sep
    ensures Explode(text, sep) == [""] + Explode(text[|sep|..], sep)
    ensures Occurrences(text, sep) == 1 + Occurrences(text[|sep|..], sep)
  {
  }

  /** An empty first part contributes only the separator after it. */
  lemma ImplodeEmptyHead(rest: seq<string>, sep: string)
    requires |rest| >= 1
    ensures Implode([""] + rest, sep) == sep + Implode(rest, sep)
  {
    assert ([""] + rest)[1..] == rest;
    assert "" + sep == sep;
  }

  /** A string is its prefix followed by its suffix. */
  lemma SplitAtPrefix(s: string, k: nat)
    requires k <= |s|
    ensures s == s[..k] + s[k..]
  {
  }

  /** The step of `ExplodeImplode` where the text starts with an ordinary character. */
  lemma ExplodeImplodeAtChar(text: string, sep: string)
    requires |sep| > 0 && |text| >= |sep| && text[..|sep|] != sep
    requires Implode(Explode(text[1..], sep), sep) == text[1..]
    requires |Explode(text[1..], sep)| == Occurrences(text[1..], sep) + 1
    ensures Implode(Explode(text, sep), sep) == text
    ensures |Explode(text, sep)| == Occurrences(text, sep) + 1
  {
    var rest := Explode(text[1..], sep);
    ImplodeConsChar(text[0], rest, sep);
    assert text == [text[0]] + text[1..];
  }

  /** Exploding on a single character that the text does not hold gives the text. */
  lemma {:induction false} ExplodeNoSeparator(text: string, c: char)
    requires c !in text
    ensures Explode(text, [c]) == [text]
    decreases |text|
  {
    if |text| >= 1 {
      assert text[..1] == [text[0]];
      ExplodeNoSeparator(text[1..], c);
      assert [text[0]] + text[1..] == text;
    }
  }

  /** Exploding `x + c + y` on the character `c`, where `x` holds no `c`. */
  lemma {:induction false} ExplodeAtFirst(x: string, c: char, y: string)
    requires c !in x
    ensures Explode(x + [c] + y, [c]) == [x] + Explode(y, [c])
    decreases |x|
  {
    var t := x + [c] + y;
    if |x| == 0 {
      assert t[..1] == [c];
      assert t[1..] == y;
    } else {
      assert t[..1] == [x[0]];
      assert t[1..] == x[1..] + [c] + y;
      ExplodeAtFirst(x[1..], c, y);
      assert [x[0]] + x[1..] == x;
    }
  }

  // ---------------------------------------------------------------------
  // trim
  // ---------------------------------------------------------------------

  /** The characters PHP `trim` strips by default: space, tab, LF, CR, NUL, vertical tab. */
  predicate IsWhitespace(c: char) {
    c == ' ' || c == '\t' || c == '\n' || c == '\r' || c == '\0' || c == '\U{0B}'
  }

  predicate AllWhitespace(s: string) {
    forall i :: 0 <= i < |s| ==> IsWhitespace(s[i])
  }

  /** Neither end of the string is a whitespace character. */
  predicate Trimmed(s: string) {
    |s| == 0 || (!IsWhitespace(s[0]) && !IsWhitespace(s[|s| - 1]))
  }

  /** Scans forward from `i` past whitespace; the index of the first other character, or `|s|`. */
  function SkipForward(s: string, i: nat): (k: nat)
    requires i <= |s|
    ensures i <= k <= |s|
    ensures forall j :: i <= j < k ==> IsWhitespace(s[j])
    ensures k == |s| || !IsWhitespace(s[k])
    decreases |s| - i
  {
    if i < |s| && IsWhitespace(s[i]) then SkipForward(s, i + 1) else i
  }

  /** Scans backward from `j` past whitespace; one past the last other character, or 0. */
  function SkipBackward(s: string, j: nat): (k: nat)
    requires j <= |s|
    ensures k <= j
    ensures forall i :: k <= i < j ==> IsWhitespace(s[i])
    ensures k == 0 || !IsWhitespace(s[k - 1])
  {
    if j > 0 && IsWhitespace(s[j - 1]) then SkipBackward(s, j - 1) else j
  }

  function TrimLeft(s: string): (r: string)
    ensures |r| <= |s| && r == s[|s| - |r|..]
    ensures AllWhitespace(s[..|s| - |r|])
    ensures |r| == 0 || !IsWhitespace(r[0])
  {
    s[SkipForward(s, 0)..]
  }

  function TrimRight(s: string): (r: string)
    ensures |r| <= |s| && r == s[..|r|]
    ensures AllWhitespace(s[|r|..])
    ensures |r| == 0 || !IsWhitespace(r[|r| - 1])
  {
    s[..SkipBackward(s, |s|)]
  }

  /** `r` sits inside `s` with nothing but whitespace before and after it. */
  ghost predicate WhitespaceMargins(s: string, r: string) {
    exists lo :: 0 <= lo <= |s| - |r| && s[lo..lo + |r|] == r
      && AllWhitespace(s[..lo]) && AllWhitespace(s[lo + |r|..])
  }

  /**
   * PHP `trim`: the infix left after stripping whitespace from both ends;
   * the text strictly before and after it is all whitespace.
   */
  function Trim(s: string): (r: string)
    ensures Trimmed(r)
    ensures |r| <= |s|
    ensures WhitespaceMargins(s, r)
    ensures r == "" <==> AllWhitespace(s)
    ensures Trimmed(s) ==> r == s
  {
    TrimMargins(s);
    TrimEmpty(s);
    TrimIdentity(s);
    TrimRight(TrimLeft(s))
  }

  /** The infix `TrimRight(TrimLeft(s))` starts where the leading whitespace ends. */
  lemma TrimMargins(s: string)
    ensures Trimmed(TrimRight(TrimLeft(s)))
    ensures WhitespaceMargins(s, TrimRight(TrimLeft(s)))
  {
    var lo := SkipForward(s, 0);
    var r := TrimRight(TrimLeft(s));
    assert s[lo..lo + |r|] == r;
  }

  lemma {:induction false} TrimEmpty(s: string)
    ensures TrimRight(TrimLeft(s)) == "" <==> AllWhitespace(s)
  {
    var l := TrimLeft(s);
    var lo := |s| - |l|;
    if TrimRight(l) == "" {
      assert AllWhitespace(l);
      assert l == "";
      assert s[..lo] == s;
    }
  }

  lemma {:induction false} TrimIdentity(s: string)
    ensures Trimmed(s) ==> TrimRight(TrimLeft(s)) == s
  {
    if Trimmed(s) && |s| > 0 {
      assert SkipForward(s, 0) == 0;
      assert TrimLeft(s) == s;
      assert SkipBackward(s, |s|) == |s|;
    }
  }

  // ---------------------------------------------------------------------
  // split
  // ---------------------------------------------------------------------

  /** `notEmpty`: PHP `!empty($value)`, which is false for "" and also for "0". */
  function NotEmpty(s: string): (r: bool)
    ensures r ==> |s| >= 1
    ensures |s| >= 2 ==> r
    ensures s == "0" ==> !r
  {
    !(s == "" || s == "0")
  }

  /**
   * `split`: explode, then trim every part when asked, then drop empty
   * parts when asked; the surviving parts keep their text order.
   */
  function Split(text: string, sep: string, trim: bool, noEmpty: bool): (r: seq<string>)
    requires |sep| > 0
    ensures IsSubsequence(r, if trim then Map(Explode(text, sep), Trim) else Explode(text, sep))
    ensures !noEmpty ==> |r| == Occurrences(text, sep) + 1
  {
    ExplodeImplode(text, sep);
    var parts := Explode(text, sep);
    var trimmed := if trim then Map(parts, Trim) else parts;
    IsSubsequenceReflexive(trimmed);
    if noEmpty then Filter(trimmed, NotEmpty) else trimmed
  }

  /**
   * With `noEmpty` the filter keeps everything else: a token other than
   * "" and "0" occurs in the result as often as among the (trimmed) parts.
   */
  lemma SplitKeepsNonEmpty(text: string, sep: string, trim: bool)
    requires |sep| > 0
    ensures forall v :: (multiset(Split(text, sep, trim, true))[v]
      == if NotEmpty(v) then multiset(if trim then Map(Explode(text, sep), Trim) else Explode(text, sep))[v] else 0)
  {
    FilterMultiset(if trim then Map(Explode(text, sep), Trim) else Explode(text, sep), NotEmpty);
  }

  /**
   * Numbers separated by runs of three spaces, as in the puzzle input
   * `3   1   2`, split into exactly those numbers.
   */
  lemma SplitColumns(x: string, y: string, z: string)
    requires IsDigits(x) && IsDigits(y) && IsDigits(z)
    requires x != "0" && y != "0" && z != "0"
    ensures Split(x + "   " + y + "   " + z, " ", true, true) == [x, y, z]
  {
    DigitsAreTrimmedWords(x, ' ');
    DigitsAreTrimmedWords(y, ' ');
    DigitsAreTrimmedWords(z, ' ');
    var parts := [x, "", "", y, "", "", z];
    ExplodeColumns(x, y, z);
    TrimWords(parts);
    FilterColumns(x, y, z);
  }

  /** Three words with three-space gaps explode to the words and four empty parts. */
  lemma ExplodeColumns(x: string, y: string, z: string)
    requires ' ' !in x && ' ' !in y && ' ' !in z
    ensures Explode(x + "   " + y + "   " + z, " ") == [x, "", "", y, "", "", z]
  {
    assert x + "   " + y + "   " + z == x + "   " + (y + "   " + z);
    ExplodeGap(x, y + "   " + z);
    ExplodeGap(y, z);
    ExplodeNoSeparator(z, ' ');
  }

  /** The empty filter keeps the three words and drops the gaps between them. */
  lemma FilterColumns(x: string, y: string, z: string)
    requires NotEmpty(x) && NotEmpty(y) && NotEmpty(z)
    ensures Filter([x, "", "", y, "", "", z], NotEmpty) == [x, y, z]
  {
    assert [x, "", "", y, "", "", z] == [x, "", ""] + ([y, "", ""] + [z]);
    FilterGap(x, [y, "", ""] + [z]);
    FilterGap(y, [z]);
    assert [z][1..] == [];
  }

  /** Trimming parts that are already trimmed changes none of them. */
  lemma TrimWords(parts: seq<string>)
    requires forall i :: 0 <= i < |parts| ==> Trimmed(parts[i])
    ensures Map(parts, Trim) == parts
  {
    forall i | 0 <= i < |parts| ensures Trim(parts[i]) == parts[i] {
      TrimIdentity(parts[i]);
    }
  }

  /** A digit string holds no separator character other than a digit, and is its own trim. */
  lemma DigitsAreTrimmedWords(s: string, sep: char)
    requires IsDigits(s) && !IsDigit(sep)
    ensures sep !in s
    ensures Trimmed(s)
  {
  }

  /** A word followed by a space explodes to the word, then the parts of the rest. */
  lemma ExplodeAtSpace(x: string, rest: string)
    requires ' ' !in x
    ensures Explode(x + " " + rest, " ") == [x] + Explode(rest, " ")
  {
    ExplodeAtFirst(x, ' ', rest);
  }

  /** A leading space explodes to an empty part, then the parts of the rest. */
  lemma ExplodeLeadingSpace(rest: string)
    ensures Explode(" " + rest, " ") == [""] + Explode(rest, " ")
  {
    assert " " + rest == "" + " " + rest;
    ExplodeAtSpace("", rest);
  }

  /** A word followed by three spaces explodes to the word and two empty parts. */
  lemma ExplodeGap(x: string, rest: string)
    requires ' ' !in x
    ensures Explode(x + "   " + rest, " ") == [x, "", ""] + Explode(rest, " ")
  {
    var r2 := " " + rest;
    var r1 := " " + r2;
    GapAsSpaces(x, rest);
    ExplodeAtSpace(x, r1);
    ExplodeLeadingSpace(r2);
    ExplodeLeadingSpace(rest);
    TwoEmptyParts(x, Explode(rest, " "));
  }

  /** Three spaces are three single spaces. */
  lemma GapAsSpaces(x: string, rest: string)
    ensures x + "   " + rest == x + " " + (" " + (" " + rest))
  {
  }

  /** Regrouping a word and two empty parts ahead of the rest. */
  lemma TwoEmptyParts(x: string, e: seq<string>)
    ensures [x] + ([""] + ([""] + e)) == [x, "", ""] + e
  {
  }

  /** The empty filter keeps the word and drops the two empty parts after it. */
  lemma FilterGap(x: string, rest: seq<string>)
    requires NotEmpty(x)
    ensures Filter([x, "", ""] + rest, NotEmpty) == [x] + Filter(rest, NotEmpty)
  {
    var s := [x, "", ""] + rest;
    var s1 := ["", ""] + rest;
    var s2 := [""] + rest;
    assert s[1..] == s1 && s1[1..] == s2 && s2[1..] == rest;
    assert Filter(s2, NotEmpty) == Filter(rest, NotEmpty);
    assert Filter(s1, NotEmpty) == Filter(rest, NotEmpty);
  }

  /** With `noEmpty` (the default) no token is "" or "0". */
  lemma SplitDropsEmpty(text: string, sep: string, trim: bool)
    requires |sep| > 0
    ensures forall i :: 0 <= i < |Split(text, sep, trim, true)| ==>
      Split(text, sep, trim, true)[i] != "" && Split(text, sep, trim, true)[i] != "0"
  {
    var r := Split(text, sep, trim, true);
    forall i | 0 <= i < |r| ensures r[i] != "" && r[i] != "0" {
      assert NotEmpty(r[i]);
    }
  }

  /**
   * With `trim` no token starts or ends with whitespace; as trimming comes
   * before the empty filter, with `noEmpty` too no token is whitespace only.
   */
  lemma SplitTrims(text: string, sep: string, noEmpty: bool)
    requires |sep| > 0
    ensures forall i :: 0 <= i < |Split(text, sep, true, noEmpty)| ==>
      Trimmed(Split(text, sep, true, noEmpty)[i])
    ensures noEmpty ==> forall i :: 0 <= i < |Split(text, sep, true, noEmpty)| ==>
      !AllWhitespace(Split(text, sep, true, noEmpty)[i])
  {
    var trimmed := Map(Explode(text, sep), Trim);
    var r := Split(text, sep, true, noEmpty);
    assert forall i :: 0 <= i < |trimmed| ==> Trimmed(trimmed[i]);
    if noEmpty {
      FilterMultiset(trimmed, NotEmpty);
      forall i | 0 <= i < |r| ensures Trimmed(r[i]) && !AllWhitespace(r[i]) {
        assert multiset(r)[r[i]] > 0;
        assert r[i] in multiset(trimmed);
      }
    }
  }

  /** Without trimming or filtering, joining the parts with the separator restores the text. */
  lemma SplitJoinRoundTrip(text: string, sep: string)
    requires |sep| > 0
    ensures Join(Split(text, sep, false, false), sep) == text
    ensures |Split(text, sep, false, false)| == Occurrences(text, sep) + 1
  {
    ExplodeImplode(text, sep);
  }

  // ---------------------------------------------------------------------
  // join
  // ---------------------------------------------------------------------

  /** `join`: PHP `implode` with the separator between the values. */
  function Join(values: seq<string>, sep: string): string {
    Implode(values, sep)
  }

  /** Plain concatenation of the values. */
  function Concat(values: seq<string>): string {
    if |values| == 0 then "" else values[0] + Concat(values[1..])
  }

  /** With the default "" separator, `join` concatenates; one value joins to itself. */
  lemma {:induction false} JoinDefaultSeparator(values: seq<string>)
    ensures Join(values, "") == Concat(values)
    ensures |values| == 1 ==> Join(values, "") == values[0]
    decreases |values|
  {
    if |values| == 1 {
      assert values[1..] == [];
      assert values[0] + "" == values[0];
    } else if |values| > 1 {
      JoinDefaultSeparator(values[1..]);
    }
  }

  // ---------------------------------------------------------------------
  // toInt
  // ---------------------------------------------------------------------

  predicate IsDigit(c: char) { '0' <= c <= '9' }

  predicate IsDigits(s: string) {
    |s| > 0 && forall i :: 0 <= i < |s| ==> IsDigit(s[i])
  }

  /** A decimal integer literal: digits with an optional leading '-'. */
  predicate IsDecimal(s: string) {
    IsDigits(s) || (|s| >= 2 && s[0] == '-' && IsDigits(s[1..]))
  }

  function DigitValue(c: char): int
    requires IsDigit(c)
  {
    c as int - '0' as int
  }

  /** Value of a run of digits, read left to right as PHP does. */
  function DigitsValue(s: string): (n: nat)
    requires forall i :: 0 <= i < |s| ==> IsDigit(s[i])
    decreases |s|
  {
    if |s| == 0 then 0 else DigitsValue(s[..|s| - 1]) * 10 + DigitValue(s[|s| - 1])
  }

  /** `toInt`: the `(int)` cast, on decimal literals. */
  function ToInt(s: string): (n: int)
    requires IsDecimal(s)
    ensures IsDigits(s) <==> (n >= 0 && s[0] != '-')
    ensures s[0] == '-' ==> n <= 0
  {
    if s[0] == '-' then -(DigitsValue(s[1..]) as int) else DigitsValue(s)
  }

  function DigitChar(d: int): (c: char)
    requires 0 <= d <= 9
    ensures IsDigit(c) && DigitValue(c) == d
  {
    ('0' as int + d) as char
  }

  /** Canonical decimal digits of a natural number, as PHP prints it. */
  function NatToDigits(n: nat): (s: string)
    ensures IsDigits(s)
  {
    if n < 10 then [DigitChar(n)] else NatToDigits(n / 10) + [DigitChar(n % 10)]
  }

  /** PHP's decimal rendering of an integer. */
  function IntToString(n: int): (s: string)
    ensures IsDecimal(s)
  {
    if n < 0 then "-" + NatToDigits(-n) else NatToDigits(n)
  }

  lemma {:induction false} DigitsValueOfNat(n: nat)
    ensures DigitsValue(NatToDigits(n)) == n
    decreases n
  {
    var s := NatToDigits(n);
    if n >= 10 {
      DigitsValueOfNat(n / 10);
      assert s[..|s| - 1] == NatToDigits(n / 10);
    }
  }

  /** A leading zero does not change the value of a run of digits. */
  lemma {:induction false} DigitsValueLeadingZero(s: string)
    requires forall i :: 0 <= i < |s| ==> IsDigit(s[i])
    ensures DigitsValue("0" + s) == DigitsValue(s)
    decreases |s|
  {
    var t := "0" + s;
    if |s| == 0 {
      assert t[..0] == "";
    } else {
      DigitsValueLeadingZero(s[..|s| - 1]);
      assert t[..|t| - 1] == "0" + s[..|s| - 1];
      assert t[|t| - 1] == s[|s| - 1];
    }
  }

  /**
   * Spellings that are not canonical cast like PHP's `(int)`: leading
   * zeros are ignored, with or without a sign, and "-0" is 0.
   */
  lemma ToIntLeadingZero(s: string)
    requires IsDigits(s)
    ensures ToInt("0" + s) == ToInt(s)
    ensures ToInt("-0" + s) == -ToInt(s)
    ensures ToInt("-0") == 0
  {
    DigitsValueLeadingZero(s);
    var t := "-0" + s;
    assert t[1..] == "0" + s;
    assert ("-0")[1..] == "0";
  }

  /** `toInt` reads back every integer PHP prints. */
  lemma ToIntOfIntToString(n: int)
    ensures ToInt(IntToString(n)) == n
  {
    var s := IntToString(n);
    if n < 0 {
      assert s[1..] == NatToDigits(-n);
      DigitsValueOfNat(-n);
    } else {
      DigitsValueOfNat(n);
    }
  }

  // ---------------------------------------------------------------------
  // the line-to-integers idiom of the day scripts
  // ---------------------------------------------------------------------

  /** Every token the split produces is a decimal literal. */
  predicate DecimalTokens(tokens: seq<string>) {
    forall i :: 0 <= i < |tokens| ==> IsDecimal(tokens[i])
  }

  /**
   * `collect(map(split($line, ' ', trim: true), toInt))`: the integers
   * written on one line, separated by runs of spaces.
   */
  function ParseRow(line: string): (row: seq<int>)
    requires DecimalTokens(Split(line, " ", true, true))
    ensures |row| == |Split(line, " ", true, true)|
    ensures forall i :: 0 <= i < |row| ==> row[i] == ToInt(Split(line, " ", true, true)[i])
  {
    Map(Split(line, " ", true, true), ToInt)
  }

  /** The per-line parse of the puzzle input: one row of integers per line, in order. */
  function ParseLines(lines: seq<string>): (rows: seq<seq<int>>)
    requires forall i :: 0 <= i < |lines| ==> DecimalTokens(Split(lines[i], " ", true, true))
    ensures |rows| == |lines|
    ensures forall i :: 0 <= i < |lines| ==> rows[i] == ParseRow(lines[i])
  {
    Map(lines, ParseRow)
  }
}
