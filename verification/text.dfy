/**
 * The handful of `java.lang.String` / `Double` behaviours the services rely on,
 * restricted to ASCII where Java consults Unicode tables: case mapping,
 * `equalsIgnoreCase`, `trim`, `split`, `compareTo`, integer printing and
 * decimal parsing.
 */
module Text {
  import opened Wrappers

  // ---------------------------------------------------------------------------
  // Case mapping (ASCII letters only)
  // ---------------------------------------------------------------------------

  predicate IsUpperAscii(c: char) { 'A' <= c <= 'Z' }
  predicate IsLowerAscii(c: char) { 'a' <= c <= 'z' }

  function ToLowerChar(c: char): char {
    if IsUpperAscii(c) then (c as int + 32) as char else c
  }

  function ToUpperChar(c: char): char {
    if IsLowerAscii(c) then (c as int - 32) as char else c
  }

  /** `String.toLowerCase()` */
  function Lower(s: string): (r: string)
    ensures |r| == |s|
    ensures forall i :: 0 <= i < |s| ==> r[i] == ToLowerChar(s[i])
  {
    seq(|s|, i requires 0 <= i < |s| => ToLowerChar(s[i]))
  }

  /** `String.toUpperCase()` */
  function Upper(s: string): (r: string)
    ensures |r| == |s|
    ensures forall i :: 0 <= i < |s| ==> r[i] == ToUpperChar(s[i])
  {
    seq(|s|, i requires 0 <= i < |s| => ToUpperChar(s[i]))
  }

  /** One step of `String.regionMatches(ignoreCase = true, ...)`: equal chars,
      equal upper-case forms, or equal lower-case forms of the upper-case forms. */
  predicate CharsEqualIgnoringCase(a: char, b: char) {
    || a == b
    || ToUpperChar(a) == ToUpperChar(b)
    || ToLowerChar(ToUpperChar(a)) == ToLowerChar(ToUpperChar(b))
  }

  /** `String.equalsIgnoreCase`: same length and pairwise case-insensitive chars. */
  predicate EqualsIgnoreCase(a: string, b: string) {
    |a| == |b| && forall i :: 0 <= i < |a| ==> CharsEqualIgnoringCase(a[i], b[i])
  }

  lemma CharsEqualIgnoringCaseIffSameLower(a: char, b: char)
    ensures CharsEqualIgnoringCase(a, b) <==> ToLowerChar(a) == ToLowerChar(b)
  {
  }

  /** The store keys records by `toLowerCase()` but compares emails with
      `equalsIgnoreCase()`; the two agree. */
  lemma EqualsIgnoreCaseIffSameLower(a: string, b: string)
    ensures EqualsIgnoreCase(a, b) <==> Lower(a) == Lower(b)
  {
    if EqualsIgnoreCase(a, b) {
      forall i | 0 <= i < |a|
        ensures Lower(a)[i] == Lower(b)[i]
      {
        CharsEqualIgnoringCaseIffSameLower(a[i], b[i]);
      }
    }
    if Lower(a) == Lower(b) {
      forall i | 0 <= i < |a|
        ensures CharsEqualIgnoringCase(a[i], b[i])
      {
        assert Lower(a)[i] == Lower(b)[i];
        CharsEqualIgnoringCaseIffSameLower(a[i], b[i]);
      }
    }
  }

  /** `equalsIgnoreCase` is an equivalence relation. */
  lemma EqualsIgnoreCaseIsEquivalence(a: string, b: string, c: string)
    ensures EqualsIgnoreCase(a, a)
    ensures EqualsIgnoreCase(a, b) ==> EqualsIgnoreCase(b, a)
    ensures EqualsIgnoreCase(a, b) && EqualsIgnoreCase(b, c) ==> EqualsIgnoreCase(a, c)
  {
    EqualsIgnoreCaseIffSameLower(a, a);
    EqualsIgnoreCaseIffSameLower(a, b);
    EqualsIgnoreCaseIffSameLower(b, a);
    EqualsIgnoreCaseIffSameLower(b, c);
    EqualsIgnoreCaseIffSameLower(a, c);
  }

  lemma LowerOfUpper(s: string)
    ensures Lower(Upper(s)) == Lower(s)
  {
  }

  /** A string with no lower-case ASCII letter is its own upper-case form. */
  lemma UpperOfUpperCase(s: string)
    requires forall i :: 0 <= i < |s| ==> !IsLowerAscii(s[i])
    ensures Upper(s) == s
  {
  }

  /** For a name written in upper case, matching the upper-cased input is the
      same as comparing ignoring case. */
  lemma UpperMatchIffEqualsIgnoreCase(s: string, name: string)
    requires forall i :: 0 <= i < |name| ==> !IsLowerAscii(name[i])
    ensures Upper(s) == name <==> EqualsIgnoreCase(s, name)
  {
    EqualsIgnoreCaseIffSameLower(s, name);
    if Upper(s) == name {
      LowerOfUpper(s);
    }
    if Lower(s) == Lower(name) {
      forall i | 0 <= i < |s|
        ensures Upper(s)[i] == name[i]
      {
        assert ToLowerChar(s[i]) == ToLowerChar(name[i]);
      }
    }
  }

  predicate StartsWith(s: string, prefix: string) {
    |prefix| <= |s| && s[..|prefix|] == prefix
  }

  predicate EndsWith(s: string, suffix: string) {
    |suffix| <= |s| && s[|s| - |suffix|..] == suffix
  }

  // ---------------------------------------------------------------------------
  // trim()
  // ---------------------------------------------------------------------------

  /** `String.trim()` strips every char whose code is at most U+0020. */
  predicate IsTrimmable(c: char) { c <= ' ' }

  /** Neither end can be trimmed. */
  predicate IsTrimmed(s: string) {
    |s| == 0 || (!IsTrimmable(s[0]) && !IsTrimmable(s[|s| - 1]))
  }

  /** Index of the first char at or after `lo` that `trim` keeps, `|s|` when none is. */
  function TrimStartIndex(s: string, lo: nat): (k: nat)
    requires lo <= |s|
    ensures lo <= k <= |s|
    ensures forall i :: lo <= i < k ==> IsTrimmable(s[i])
    ensures k < |s| ==> !IsTrimmable(s[k])
    decreases |s| - lo
  {
    if lo == |s| || !IsTrimmable(s[lo]) then lo else TrimStartIndex(s, lo + 1)
  }

  /** Index just past the last char before `hi` and not before `lo` that `trim` keeps, `lo` when none is. */
  function TrimEndIndex(s: string, lo: nat, hi: nat): (k: nat)
    requires lo <= hi <= |s|
    ensures lo <= k <= hi
    ensures forall i :: k <= i < hi ==> IsTrimmable(s[i])
    ensures k > lo ==> !IsTrimmable(s[k - 1])
    decreases hi
  {
    if hi == lo || !IsTrimmable(s[hi - 1]) then hi else TrimEndIndex(s, lo, hi - 1)
  }

  /** `s.trim().isEmpty()`: every char is trimmable (see `Trim`). */
  predicate IsBlank(s: string) {
    forall i :: 0 <= i < |s| ==> IsTrimmable(s[i])
  }

  /** `r` is what is left of `s` once a blank prefix of length `a` and a blank
      suffix are dropped. */
  predicate TrimsTo(s: string, a: nat, r: string) {
    && a + |r| <= |s| && r == s[a..a + |r|]
    && (forall i :: 0 <= i < a ==> IsTrimmable(s[i]))
    && (forall i :: a + |r| <= i < |s| ==> IsTrimmable(s[i]))
  }

  /** `String.trim()`: the slice of `s` left after dropping trimmable chars at both ends. */
  function Trim(s: string): (r: string)
    ensures exists a: nat :: TrimsTo(s, a, r)
    ensures IsTrimmed(r)
    ensures |r| == 0 <==> IsBlank(s)
    ensures IsTrimmed(s) ==> r == s
  {
    var a := TrimStartIndex(s, 0);
    var b := TrimEndIndex(s, a, |s|);
    assert TrimsTo(s, a, s[a..b]);
    s[a..b]
  }


  // ---------------------------------------------------------------------------
  // split
  // ---------------------------------------------------------------------------

  /** `\s` in a Java regular expression: space, tab, newline, vertical tab,
      form feed and carriage return. */
  predicate IsRegexSpace(c: char) {
    c == ' ' || ('\t' <= c <= '\r')
  }

  /** The last element of `t.split("\\s+")` for a trimmed `t`: the longest
      suffix free of `\s` characters. */
  function LastToken(t: string): (r: string)
    ensures |r| <= |t| && r == t[|t| - |r|..]
    ensures forall i :: 0 <= i < |r| ==> !IsRegexSpace(r[i])
    ensures |r| < |t| ==> IsRegexSpace(t[|t| - |r| - 1])
  {
    t[RunStart(t, IsRegexSpace, |t|)..]
  }

  /** Trimmed text ends in a character that is not `\s`, so its last token is
      empty only when the text is. */
  lemma LastTokenOfTrimmed(t: string)
    requires IsTrimmed(t)
    ensures |LastToken(t)| == 0 <==> |t| == 0
  {
    if |t| > 0 {
      assert !IsRegexSpace(t[|t| - 1]);
    }
  }

  /** The last token starts right after the last `\s` character. */
  lemma LastTokenAfterSpace(t: string, k: nat)
    requires 0 < k <= |t| && IsRegexSpace(t[k - 1])
    requires forall i :: k <= i < |t| ==> !IsRegexSpace(t[i])
    ensures LastToken(t) == t[k..]
  {
  }

  /** Where the run of characters that are not separators (`isSep`) and ends
      at `hi` begins: just past the last separator before `hi`, or 0. */
  function RunStart(t: string, isSep: char -> bool, hi: nat): (k: nat)
    requires hi <= |t|
    ensures k <= hi
    ensures forall i :: k <= i < hi ==> !isSep(t[i])
    ensures k > 0 ==> isSep(t[k - 1])
    decreases hi
  {
    if hi == 0 || isSep(t[hi - 1]) then hi else RunStart(t, isSep, hi - 1)
  }

  /** `RunStart` looks only at the characters before `hi`. */
  lemma {:induction false} RunStartOfPrefix(t: string, u: string, isSep: char -> bool, hi: nat)
    requires hi <= |t| && hi <= |u| && t[..hi] == u[..hi]
    ensures RunStart(t, isSep, hi) == RunStart(u, isSep, hi)
    decreases hi
  {
    if hi > 0 {
      assert t[hi - 1] == t[..hi][hi - 1] && u[hi - 1] == u[..hi][hi - 1];
      assert t[..hi - 1] == t[..hi][..hi - 1] && u[..hi - 1] == u[..hi][..hi - 1];
      RunStartOfPrefix(t, u, isSep, hi - 1);
    }
  }

  /** Concatenation with `sep` between consecutive pieces. */
  function Join(ps: seq<string>, sep: char): string
    decreases |ps|
  {
    if |ps| == 0 then ""
    else if |ps| == 1 then ps[0]
    else ps[0] + [sep] + Join(ps[1..], sep)
  }

  /** Every piece between separators, empty pieces included (`split(sep, -1)`). */
  function Pieces(s: string, sep: char): (ps: seq<string>)
    ensures |ps| >= 1
    ensures forall i :: 0 <= i < |ps| ==> sep !in ps[i]
    ensures Join(ps, sep) == s
    decreases |s|
  {
    if |s| == 0 then [""]
    else if s[0] == sep then
      var rest := Pieces(s[1..], sep);
      assert s == [sep] + s[1..];
      [""] + rest
    else
      var rest := Pieces(s[1..], sep);
      var ps := [[s[0]] + rest[0]] + rest[1..];
      assert ps[1..] == rest[1..];
      assert s == [s[0]] + s[1..];
      ps
  }

  lemma {:induction false} PiecesOfSepFree(s: string, sep: char)
    requires sep !in s
    ensures Pieces(s, sep) == [s]
    decreases |s|
  {
    if |s| > 0 {
      PiecesOfSepFree(s[1..], sep);
      assert [s[0]] + s[1..] == s;
    }
  }

  /** A separator-free head followed by the separator splits off exactly that head. */
  lemma {:induction false} PiecesOfHead(a: string, b: string, sep: char)
    requires sep !in a
    ensures Pieces(a + [sep] + b, sep) == [a] + Pieces(b, sep)
    decreases |a|
  {
    var s := a + [sep] + b;
    if |a| == 0 {
      assert s[1..] == b;
    } else {
      assert s[0] == a[0];
      assert s[1..] == a[1..] + [sep] + b;
      PiecesOfHead(a[1..], b, sep);
      assert [a[0]] + a[1..] == a;
    }
  }

  /** Splitting undoes joining separator-free pieces. */
  lemma {:induction false} PiecesOfJoin(ps: seq<string>, sep: char)
    requires |ps| >= 1
    requires forall i :: 0 <= i < |ps| ==> sep !in ps[i]
    ensures Pieces(Join(ps, sep), sep) == ps
    decreases |ps|
  {
    if |ps| == 1 {
      PiecesOfSepFree(ps[0], sep);
    } else {
      PiecesOfJoin(ps[1..], sep);
      PiecesOfHead(ps[0], Join(ps[1..], sep), sep);
      assert [ps[0]] + ps[1..] == ps;
    }
  }

  function DropTrailingEmpty(ps: seq<string>): (r: seq<string>)
    ensures |r| <= |ps| && r == ps[..|r|]
    ensures forall i :: |r| <= i < |ps| ==> ps[i] == ""
    ensures |r| > 0 ==> r[|r| - 1] != ""
    decreases |ps|
  {
    if |ps| > 0 && ps[|ps| - 1] == "" then DropTrailingEmpty(ps[..|ps| - 1]) else ps
  }

  /** `s.split(String.valueOf(sep))` for a separator that is not a regex
      metacharacter: the pieces with trailing empty ones removed, except that a
      string without the separator comes back whole (so `""` gives `[""]`). */
  function JavaSplit(s: string, sep: char): (fields: seq<string>)
    ensures sep !in s ==> fields == [s]
    ensures sep in s ==> |fields| <= |Pieces(s, sep)| && fields == Pieces(s, sep)[..|fields|]
    ensures sep in s ==> forall i :: |fields| <= i < |Pieces(s, sep)| ==> Pieces(s, sep)[i] == ""
    ensures sep in s && |fields| > 0 ==> fields[|fields| - 1] != ""
  {
    if sep !in s then [s] else DropTrailingEmpty(Pieces(s, sep))
  }

  /** Joining separator-free fields whose last one is non-empty and splitting
      again gives the fields back. */
  lemma JavaSplitOfJoin(fields: seq<string>, sep: char)
    requires |fields| >= 1
    requires forall i :: 0 <= i < |fields| ==> sep !in fields[i]
    requires fields[|fields| - 1] != ""
    ensures JavaSplit(Join(fields, sep), sep) == fields
  {
    PiecesOfJoin(fields, sep);
    if |fields| == 1 {
      assert sep !in Join(fields, sep);
    } else {
      assert Join(fields, sep) == fields[0] + [sep] + Join(fields[1..], sep);
      assert sep in Join(fields, sep);
    }
  }

  // ---------------------------------------------------------------------------
  // Numbers
  // ---------------------------------------------------------------------------

  predicate IsDigit(c: char) { '0' <= c <= '9' }

  predicate AllDigits(s: string) {
    forall i :: 0 <= i < |s| ==> IsDigit(s[i])
  }

  function DigitChar(d: nat): (c: char)
    requires d < 10
    ensures IsDigit(c)
  {
    ('0' as int + d) as char
  }

  function DigitValue(c: char): (d: nat)
    requires IsDigit(c)
    ensures d < 10
  {
    c as int - '0' as int
  }

  /** The decimal text Java produces for a non-negative `int` (`"" + n`). */
  function NatToString(n: nat): (s: string)
    ensures |s| >= 1 && AllDigits(s)
    decreases n
  {
    if n < 10 then [DigitChar(n)] else NatToString(n / 10) + [DigitChar(n % 10)]
  }

  /** Value of a digit string, most significant digit first. */
  function DigitsValue(s: string): nat
    requires AllDigits(s)
    decreases |s|
  {
    if |s| == 0 then 0 else DigitsValue(s[..|s| - 1]) * 10 + DigitValue(s[|s| - 1])
  }

  /** Value of the digits after a decimal point: 0.d0 d1 d2 ... */
  function FractionValue(s: string): (v: real)
    requires AllDigits(s)
    ensures 0.0 <= v <= 1.0
    decreases |s|
  {
    if |s| == 0 then 0.0 else (DigitValue(s[0]) as real + FractionValue(s[1..])) / 10.0
  }

  lemma {:induction false} DigitsValueOfNatToString(n: nat)
    ensures DigitsValue(NatToString(n)) == n
    decreases n
  {
    if n >= 10 {
      var s := NatToString(n);
      DigitsValueOfNatToString(n / 10);
      assert s[..|s| - 1] == NatToString(n / 10);
    }
  }

  /** The digits `[0-9]* ('.' [0-9]*)?` with at least one digit, as parsed by
      `Double.parseDouble`. */
  function ParseUnsignedDecimal(m: string): (r: Option<real>)
    ensures r.Some? ==> 0.0 <= r.value
    ensures r.Some? ==> exists i :: 0 <= i < |m| && IsDigit(m[i])
  {
    var parts := Pieces(m, '.');
    if |parts| == 1 && |m| > 0 && AllDigits(m) then
      assert IsDigit(m[0]);
      Some(DigitsValue(m) as real)
    else if |parts| == 2 && AllDigits(parts[0]) && AllDigits(parts[1]) && |parts[0]| + |parts[1]| > 0 then
      assert Join(parts, '.') == parts[0] + ['.'] + parts[1];
      assert |parts[0]| > 0 ==> m[0] == parts[0][0];
      assert |parts[0]| == 0 ==> m[1] == parts[1][0];
      Some(DigitsValue(parts[0]) as real + FractionValue(parts[1]))
    else None
  }

  /** `Double.parseDouble` on plain decimal text: surrounding trimmable chars,
      an optional sign, digits with an optional point, and an optional
      `f`/`F`/`d`/`D` type suffix. Exponents, hexadecimal, `NaN` and `Infinity`
      are not accepted here. */
  function ParseDecimal(s: string): (r: Option<real>)
    ensures r.Some? ==> exists i :: 0 <= i < |s| && IsDigit(s[i])
  {
    var t := Trim(s);
    var r := ParseSignedDecimal(t);
    if r.Some? then
      var a: nat :| TrimsTo(s, a, t);
      var i :| 0 <= i < |t| && IsDigit(t[i]);
      assert s[a + i] == t[i];
      r
    else r
  }

  /** The sign and type-suffix part of `ParseDecimal`, on text already trimmed. */
  function ParseSignedDecimal(t: string): (r: Option<real>)
    ensures r.Some? ==> exists i :: 0 <= i < |t| && IsDigit(t[i])
  {
    var negative := |t| > 0 && t[0] == '-';
    var unsigned := if |t| > 0 && (t[0] == '-' || t[0] == '+') then t[1..] else t;
    var mantissa :=
      if |unsigned| > 0 && unsigned[|unsigned| - 1] in "fFdD" then unsigned[..|unsigned| - 1]
      else unsigned;
    match ParseUnsignedDecimal(mantissa)
    case None => None
    case Some(v) =>
      var i :| 0 <= i < |mantissa| && IsDigit(mantissa[i]);
      assert IsDigit(t[if unsigned == t then i else i + 1]);
      Some(if negative then -v else v)
  }

  /** Printed digits, read as an unsigned decimal without a point, give the count back. */
  lemma ParseUnsignedOfNatToString(n: nat)
    ensures ParseUnsignedDecimal(NatToString(n)) == Some(n as real)
  {
    var s := NatToString(n);
    assert '.' !in s;
    PiecesOfSepFree(s, '.');
    DigitsValueOfNatToString(n);
  }

  /** Text that starts and ends with a digit has nothing to trim, no sign and
      no type suffix, so it parses as an unsigned decimal. */
  lemma ParseDecimalOfDigitEnds(s: string)
    requires |s| > 0 && IsDigit(s[0]) && IsDigit(s[|s| - 1])
    ensures ParseDecimal(s) == ParseUnsignedDecimal(s)
  {
    TrimOfDigitEnds(s);
    ParseSignedOfDigitEnds(s);
  }

  lemma TrimOfDigitEnds(s: string)
    requires |s| > 0 && IsDigit(s[0]) && IsDigit(s[|s| - 1])
    ensures Trim(s) == s
  {
    assert IsTrimmed(s);
  }

  lemma ParseSignedOfDigitEnds(s: string)
    requires |s| > 0 && IsDigit(s[0]) && IsDigit(s[|s| - 1])
    ensures ParseSignedDecimal(s) == ParseUnsignedDecimal(s)
  {
    assert s[0] != '-' && s[0] != '+';
    assert s[|s| - 1] !in "fFdD";
    match ParseUnsignedDecimal(s)
    case None =>
    case Some(v) =>
  }

  /** Printing a count and parsing it back as a salary gives the same value. */
  lemma ParseDecimalOfNatToString(n: nat)
    ensures ParseDecimal(NatToString(n)) == Some(n as real)
  {
    var s := NatToString(n);
    ParseDecimalOfDigitEnds(s);
    ParseUnsignedOfNatToString(n);
  }

  // ---------------------------------------------------------------------------
  // compareTo
  // ---------------------------------------------------------------------------

  /** `a.compareTo(b) <= 0`: lexicographic by character, a proper prefix first. */
  predicate StrLeq(a: string, b: string)
    decreases |a|
  {
    |a| == 0 || (|b| > 0 && (a[0] < b[0] || (a[0] == b[0] && StrLeq(a[1..], b[1..]))))
  }

  /** `a.compareTo(b) < 0` */
  predicate StrLess(a: string, b: string) {
    StrLeq(a, b) && a != b
  }

  lemma {:induction false} StrLeqTotal(a: string, b: string)
    ensures StrLeq(a, b) || StrLeq(b, a)
    decreases |a|
  {
    if |a| > 0 && |b| > 0 && a[0] == b[0] {
      StrLeqTotal(a[1..], b[1..]);
    }
  }

  lemma {:induction false} StrLeqAntisymmetric(a: string, b: string)
    ensures StrLeq(a, b) && StrLeq(b, a) ==> a == b
    decreases |a|
  {
    if |a| > 0 && |b| > 0 && a[0] == b[0] {
      StrLeqAntisymmetric(a[1..], b[1..]);
      assert a == [a[0]] + a[1..];
      assert b == [b[0]] + b[1..];
    }
  }

  lemma {:induction false} StrLeqTransitive(a: string, b: string, c: string)
    ensures StrLeq(a, b) && StrLeq(b, c) ==> StrLeq(a, c)
    decreases |a|
  {
    if |a| > 0 && |b| > 0 && |c| > 0 && a[0] == b[0] && b[0] == c[0] {
      StrLeqTransitive(a[1..], b[1..], c[1..]);
    }
  }
}
