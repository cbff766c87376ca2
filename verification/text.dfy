/** The handful of `str` operations the proxy's parsers are built from:
    searching, splitting, trimming, ASCII case folding and decimal
    numerals.  Strings are sequences of Unicode scalar values. */
module Text {
  import opened Wrappers

  predicate IsAsciiDigit(c: char) { '0' <= c <= '9' }

  predicate AllAsciiDigits(s: string) {
    forall i :: 0 <= i < |s| ==> IsAsciiDigit(s[i])
  }

  /** `char::to_ascii_lowercase` */
  function AsciiLower(c: char): (r: char)
    ensures 'A' <= c <= 'Z' ==> r as int == c as int + 32
    ensures !('A' <= c <= 'Z') ==> r == c
  {
    if 'A' <= c <= 'Z' then (c as int + 32) as char else c
  }

  /** Lower-casing of a whole string.  Only ASCII letters change: see the
      README for the Unicode case mappings this leaves out. */
  function ToLower(s: string): (r: string)
    ensures |r| == |s|
    ensures forall i :: 0 <= i < |s| ==> r[i] == AsciiLower(s[i])
  {
    if |s| == 0 then [] else [AsciiLower(s[0])] + ToLower(s[1..])
  }

  /** Every character is ASCII (below U+0080). */
  predicate IsAsciiText(s: string) {
    forall i :: 0 <= i < |s| ==> s[i] as int < 0x80
  }

  /** `str::eq_ignore_ascii_case` */
  predicate EqIgnoreAsciiCase(a: string, b: string) {
    ToLower(a) == ToLower(b)
  }

  /** `char::is_whitespace`: the Unicode White_Space property. */
  predicate IsWhitespace(c: char) {
    var n := c as int;
    (0x09 <= n <= 0x0D) || n == 0x20 || n == 0x85 || n == 0xA0 || n == 0x1680
    || (0x2000 <= n <= 0x200A) || n == 0x2028 || n == 0x2029 || n == 0x202F
    || n == 0x205F || n == 0x3000
  }

  /** `pat` occurs in `s` starting at index i. */
  predicate OccursAt(s: string, pat: string, i: int) {
    0 <= i && i + |pat| <= |s| && s[i..i + |pat|] == pat
  }

  predicate Contains(s: string, pat: string) {
    exists i :: 0 <= i <= |s| && OccursAt(s, pat, i)
  }

  predicate ContainsChar(s: string, c: char) {
    c in s
  }

  /** `str::find`: the first occurrence of a non-empty pattern at or
      after `from`. */
  function FindFrom(s: string, pat: string, from: nat): (r: Option<nat>)
    requires |pat| > 0
    ensures r.Some? ==> from <= r.value && OccursAt(s, pat, r.value)
    ensures r.Some? ==> forall j :: from <= j < r.value ==> !OccursAt(s, pat, j)
    ensures r.None? ==> forall j :: from <= j ==> !OccursAt(s, pat, j)
    decreases |s| - from
  {
    if from + |pat| > |s| then None
    else if s[from..from + |pat|] == pat then Some(from)
    else FindFrom(s, pat, from + 1)
  }

  function Find(s: string, pat: string): (r: Option<nat>)
    requires |pat| > 0
    ensures r.Some? <==> Contains(s, pat)
    ensures r.Some? ==> OccursAt(s, pat, r.value)
    ensures r.Some? ==> forall j :: 0 <= j < r.value ==> !OccursAt(s, pat, j)
  {
    FindFrom(s, pat, 0)
  }

  /** `str::split_once`: the text before and after the first occurrence. */
  function SplitOnce(s: string, pat: string): (r: Option<(string, string)>)
    requires |pat| > 0
    ensures r.Some? <==> Contains(s, pat)
    ensures r.Some? ==> s == r.value.0 + pat + r.value.1 && !Contains(r.value.0, pat)
  {
    match Find(s, pat)
    case None => None
    case Some(i) =>
      var before := s[..i];
      assert s == before + pat + s[i + |pat|..];
      assert !Contains(before, pat) by {
        forall j | OccursAt(before, pat, j) ensures false {
          assert OccursAt(s, pat, j);
        }
      }
      Some((before, s[i + |pat|..]))
  }

  /** The text before the first occurrence of `pat`, or all of `s` when
      there is none (`&s[..idx]` after a successful `find`). */
  function Before(s: string, pat: string): (r: string)
    requires |pat| > 0
    ensures r <= s && !Contains(r, pat)
    ensures !Contains(s, pat) ==> r == s
  {
    match SplitOnce(s, pat)
    case None => s
    case Some((before, _)) => before
  }

  /** A one-character pattern occurs exactly when the character does. */
  lemma CharContains(s: string, c: char)
    ensures Contains(s, [c]) <==> c in s
  {
    if c in s {
      var i :| 0 <= i < |s| && s[i] == c;
      assert OccursAt(s, [c], i);
    }
    if Contains(s, [c]) {
      var i :| 0 <= i <= |s| && OccursAt(s, [c], i);
      assert s[i..i + 1][0] == c;
    }
  }

  /** An occurrence in a piece of a text is an occurrence in the text. */
  lemma InfixContains(s: string, pat: string, i: nat, j: nat)
    requires i <= j <= |s|
    ensures Contains(s[i..j], pat) ==> Contains(s, pat)
  {
    if Contains(s[i..j], pat) {
      var t := s[i..j];
      var k :| 0 <= k <= |t| && OccursAt(t, pat, k);
      forall m | 0 <= m < |pat| ensures s[i + k..i + k + |pat|][m] == pat[m] {
        assert pat[m] == t[k..k + |pat|][m];
      }
      assert s[i + k..i + k + |pat|] == pat;
      assert OccursAt(s, pat, i + k);
    }
  }

  /** The index of the last occurrence of `c`. */
  function RFindChar(s: string, c: char): (r: Option<nat>)
    ensures r.Some? <==> c in s
    ensures r.Some? ==> r.value < |s| && s[r.value] == c && c !in s[r.value + 1..]
  {
    if |s| == 0 then None
    else if s[|s| - 1] == c then Some(|s| - 1)
    else
      var r := RFindChar(s[..|s| - 1], c);
      assert s == s[..|s| - 1] + [s[|s| - 1]];
      r
  }

  /** `str::rsplit_once` on a single character. */
  function RSplitOnceChar(s: string, c: char): (r: Option<(string, string)>)
    ensures r.Some? <==> c in s
    ensures r.Some? ==> s == r.value.0 + [c] + r.value.1 && c !in r.value.1
  {
    match RFindChar(s, c)
    case None => None
    case Some(i) =>
      assert s == s[..i] + [c] + s[i + 1..];
      Some((s[..i], s[i + 1..]))
  }

  /** `str::split` with a non-empty pattern: the pieces between occurrences,
      always at least one. */
  function Split(s: string, pat: string): (r: seq<string>)
    requires |pat| > 0
    ensures |r| >= 1
    ensures forall k :: 0 <= k < |r| ==> !Contains(r[k], pat)
    decreases |s|
  {
    match SplitOnce(s, pat)
    case None => [s]
    case Some((before, after)) => [before] + Split(after, pat)
  }

  /** Glue `parts` together with `sep` between each pair: the inverse of `Split`. */
  function Join(parts: seq<string>, sep: string): (r: string)
    requires |parts| >= 1
  {
    if |parts| == 1 then parts[0] else parts[0] + sep + Join(parts[1..], sep)
  }

  /** Pieces in which the separator's first character never occurs come
      back whole from `Split`. */
  lemma {:induction false} SplitJoin(parts: seq<string>, sep: string)
    requires |sep| > 0 && |parts| >= 1
    requires forall k :: 0 <= k < |parts| ==> sep[0] !in parts[k]
    ensures Split(Join(parts, sep), sep) == parts
  {
    var s := Join(parts, sep);
    if |parts| == 1 {
      NoFirstCharNoOccurrence(s, sep);
      assert SplitOnce(s, sep).None?;
    } else {
      var rest := Join(parts[1..], sep);
      SplitOnceAfterFreePrefix(parts[0], sep, rest);
      SplitJoin(parts[1..], sep);
    }
  }

  lemma NoFirstCharNoOccurrence(s: string, sep: string)
    requires |sep| > 0 && sep[0] !in s
    ensures !Contains(s, sep)
  {
    OccurrenceStartsWithFirstChar(s, sep);
  }

  lemma OccurrenceStartsWithFirstChar(s: string, sep: string)
    requires |sep| > 0
    ensures forall j :: OccursAt(s, sep, j) ==> s[j] == sep[0]
  {
    forall j | OccursAt(s, sep, j) ensures s[j] == sep[0] {
      assert s[j] == s[j..j + |sep|][0];
    }
  }

  /** Splitting once after a prefix free of the separator's first character
      cuts exactly at the end of that prefix. */
  lemma SplitOnceAfterFreePrefix(a: string, sep: string, b: string)
    requires |sep| > 0 && sep[0] !in a
    ensures SplitOnce(a + sep + b, sep) == Some((a, b))
  {
    var s := a + sep + b;
    assert OccursAt(s, sep, |a|) by {
      assert s[|a|..|a| + |sep|] == sep;
    }
    var i := Find(s, sep).value;
    assert i == |a| by {
      OccurrenceStartsWithFirstChar(s, sep);
    }
    assert s[..i] == a && s[i + |sep|..] == b;
  }

  /** The pieces of `s` around runs of whitespace (`str::split_whitespace`). */
  function SplitWhitespace(s: string): (r: seq<string>)
    ensures forall k :: 0 <= k < |r| ==> |r[k]| > 0
    ensures forall k, j :: 0 <= k < |r| && 0 <= j < |r[k]| ==> !IsWhitespace(r[k][j])
    decreases |s|
  {
    if |s| == 0 then []
    else if IsWhitespace(s[0]) then SplitWhitespace(s[1..])
    else
      var w := WordLength(s);
      [s[..w]] + SplitWhitespace(s[w..])
  }

  /** The length of the leading run of non-whitespace characters. */
  function WordLength(s: string): (n: nat)
    ensures n <= |s|
    ensures forall j :: 0 <= j < n ==> !IsWhitespace(s[j])
    ensures n < |s| ==> IsWhitespace(s[n])
  {
    if |s| == 0 || IsWhitespace(s[0]) then 0 else 1 + WordLength(s[1..])
  }

  /** The index of the first character not satisfying the strip condition
      (`TrimStart` keeps `s[TrimStartIndex(s, ..)..]`). */
  function TrimStartIndex(s: string, strip: char -> bool): (i: nat)
    ensures i <= |s|
    ensures forall j :: 0 <= j < i ==> strip(s[j])
    ensures i < |s| ==> !strip(s[i])
  {
    if |s| == 0 || !strip(s[0]) then 0 else 1 + TrimStartIndex(s[1..], strip)
  }

  /** One past the last character not satisfying the strip condition. */
  function TrimEndIndex(s: string, strip: char -> bool): (i: nat)
    ensures i <= |s|
    ensures forall j :: i <= j < |s| ==> strip(s[j])
    ensures i > 0 ==> !strip(s[i - 1])
  {
    if |s| == 0 || !strip(s[|s| - 1]) then |s| else TrimEndIndex(s[..|s| - 1], strip)
  }

  /** Strip every leading and trailing character satisfying `strip`
      (`str::trim` for whitespace, `str::trim_matches` for one character). */
  function TrimBy(s: string, strip: char -> bool): (r: string)
    ensures |r| == 0 || (!strip(r[0]) && !strip(r[|r| - 1]))
    ensures exists i, j :: 0 <= i <= j <= |s| && r == s[i..j]
              && (forall k :: 0 <= k < i ==> strip(s[k]))
              && (forall k :: j <= k < |s| ==> strip(s[k]))
  {
    var i := TrimStartIndex(s, strip);
    var t := s[i..];
    var j := TrimEndIndex(t, strip);
    assert t[..j] == s[i..i + j];
    t[..j]
  }

  function Trim(s: string): (r: string)
    ensures |r| == 0 || (!IsWhitespace(r[0]) && !IsWhitespace(r[|r| - 1]))
  {
    TrimBy(s, IsWhitespace)
  }

  function TrimMatches(s: string, c: char): (r: string)
    ensures |r| == 0 || (r[0] != c && r[|r| - 1] != c)
  {
    TrimBy(s, x => x == c)
  }

  /** `str::replace` of every non-overlapping occurrence, left to right. */
  function Replace(s: string, pat: string, with: string): (r: string)
    requires |pat| > 0
    ensures !Contains(s, pat) ==> r == s
    decreases |s|
  {
    match SplitOnce(s, pat)
    case None => s
    case Some((before, after)) => before + with + Replace(after, pat, with)
  }

  /** The value of a string of ASCII digits, read as a decimal numeral. */
  function DigitsValue(s: string): nat
    requires AllAsciiDigits(s)
  {
    if |s| == 0 then 0
    else DigitsValue(s[..|s| - 1]) * 10 + (s[|s| - 1] as int - '0' as int)
  }

  /** `str::parse` into an unsigned integer type whose maximum is `max`:
      an optional `+` followed by at least one ASCII digit, value in range. */
  function ParseUnsigned(s: string, max: nat): (r: Option<nat>)
    ensures r.Some? ==> r.value <= max
    ensures r.Some? ==> |s| > 0 && (s[0] == '+' || IsAsciiDigit(s[0]))
  {
    var digits := if |s| > 0 && s[0] == '+' then s[1..] else s;
    if |digits| == 0 || !AllAsciiDigits(digits) then None
    else if DigitsValue(digits) > max then None
    else Some(DigitsValue(digits))
  }

  /** `str::parse` into a signed integer type ranging over [min, max]:
      an optional sign followed by at least one ASCII digit. */
  function ParseSigned(s: string, min: int, max: int): (r: Option<int>)
    requires min <= 0 <= max
    ensures r.Some? ==> min <= r.value <= max
  {
    if |s| > 0 && s[0] == '-' then
      var digits := s[1..];
      if |digits| == 0 || !AllAsciiDigits(digits) then None
      else if 0 - DigitsValue(digits) < min then None
      else Some(0 - DigitsValue(digits))
    else
      ParseUnsigned(s, max)
  }

  function DigitChar(d: nat): (c: char)
    requires d < 10
    ensures IsAsciiDigit(c) && c as int - '0' as int == d
  {
    ('0' as int + d) as char
  }

  /** The decimal numeral of a natural number (`Display` for integers). */
  function NatToString(n: nat): (r: string)
    ensures |r| > 0 && AllAsciiDigits(r) && DigitsValue(r) == n
    ensures r[0] != '+'
  {
    var last := [DigitChar(n % 10)];
    if n < 10 then last
    else
      var r := NatToString(n / 10) + last;
      assert r[..|r| - 1] == NatToString(n / 10);
      r
  }

  lemma ParseNatToString(n: nat, max: nat)
    requires n <= max
    ensures ParseUnsigned(NatToString(n), max) == Some(n)
  {
  }

  /** A numeral as `Display` writes one: ASCII digits without a leading
      zero, unless it is the single digit `0`. */
  predicate IsCanonicalNumeral(t: string) {
    |t| > 0 && AllAsciiDigits(t) && (|t| == 1 || t[0] != '0')
  }

  lemma {:induction false} NatToStringLeadingDigit(n: nat)
    ensures n > 0 ==> NatToString(n)[0] != '0'
  {
    if n >= 10 {
      NatToStringLeadingDigit(n / 10);
      assert NatToString(n)[0] == NatToString(n / 10)[0];
    }
  }

  lemma NatToStringCanonical(n: nat)
    ensures IsCanonicalNumeral(NatToString(n))
  {
    NatToStringLeadingDigit(n);
  }

  lemma {:induction false} NatToStringLength(n: nat)
    ensures n < 10 ==> |NatToString(n)| == 1
    ensures n < 100 ==> |NatToString(n)| <= 2
    ensures n < 1000 ==> |NatToString(n)| <= 3
    ensures n < 10000 ==> |NatToString(n)| <= 4
    ensures n < 100000 ==> |NatToString(n)| <= 5
  {
    if n >= 10 {
      NatToStringLength(n / 10);
    }
  }

  lemma {:induction false} LeadingNonzeroPositive(t: string)
    requires |t| > 0 && AllAsciiDigits(t) && t[0] != '0'
    ensures DigitsValue(t) > 0
  {
    if |t| > 1 {
      LeadingNonzeroPositive(t[..|t| - 1]);
    }
  }

  /** A canonical numeral is the one `NatToString` writes for its value:
      decimal numerals without leading zeros are unique. */
  lemma {:induction false} CanonicalNumeralValue(t: string)
    requires IsCanonicalNumeral(t)
    ensures NatToString(DigitsValue(t)) == t
  {
    if |t| > 1 {
      var init := t[..|t| - 1];
      LeadingNonzeroPositive(init);
      CanonicalNumeralValue(init);
      var n := DigitsValue(t);
      assert n / 10 == DigitsValue(init) && n % 10 == t[|t| - 1] as int - '0' as int;
      assert t == init + [t[|t| - 1]];
    }
  }

  /** Splitting and joining again with the same separator gives back the
      original text. */
  lemma {:induction false} JoinSplit(s: string, sep: string)
    requires |sep| > 0
    ensures Join(Split(s, sep), sep) == s
    decreases |s|
  {
    match SplitOnce(s, sep)
    case None =>
    case Some((before, after)) =>
      JoinSplit(after, sep);
  }

  /** `Join` unfolded once, and for three and six pieces. */
  lemma JoinThree(parts: seq<string>, sep: string)
    requires |parts| == 3
    ensures Join(parts, sep) == parts[0] + sep + parts[1] + sep + parts[2]
  {
    JoinCons(parts, sep);
    JoinCons(parts[1..], sep);
    assert parts[1..][1..] == [parts[2]];
  }

  lemma JoinSix(parts: seq<string>, sep: string)
    requires |parts| == 6
    ensures Join(parts, sep)
         == parts[0] + sep + parts[1] + sep + parts[2] + sep + parts[3] + sep + parts[4] + sep + parts[5]
  {
    JoinCons(parts, sep);
    JoinCons(parts[1..], sep);
    JoinCons(parts[2..], sep);
    assert parts[1..][1..] == parts[2..];
    JoinThree(parts[3..], sep);
    assert parts[2..][1..] == parts[3..];
  }

  lemma JoinCons(parts: seq<string>, sep: string)
    requires |parts| >= 2
    ensures Join(parts, sep) == parts[0] + sep + Join(parts[1..], sep)
  {
  }

  lemma {:induction false} JoinAsciiText(parts: seq<string>, sep: string)
    requires |parts| >= 1 && IsAsciiText(sep)
    requires forall k :: 0 <= k < |parts| ==> IsAsciiText(parts[k])
    ensures IsAsciiText(Join(parts, sep))
  {
    if |parts| > 1 {
      JoinAsciiText(parts[1..], sep);
    }
  }

  /** The decimal numeral of an integer, with a leading `-` when negative. */
  function IntToString(n: int): (r: string)
    ensures |r| > 0
    ensures forall i :: 0 <= i < |r| ==> IsAsciiDigit(r[i]) || r[i] == '-'
  {
    if n < 0 then "-" + NatToString(-n) else NatToString(n)
  }

  /** The numeral of an integer reads back as that integer. */
  lemma ParseIntToString(n: int, min: int, max: int)
    requires min <= 0 <= max && min <= n <= max
    ensures ParseSigned(IntToString(n), min, max) == Some(n)
  {
    if n < 0 {
      assert IntToString(n)[1..] == NatToString(-n);
    } else {
      ParseNatToString(n, max);
    }
  }
}
