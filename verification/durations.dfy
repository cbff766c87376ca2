/** The ban command's duration helpers (crates/infrarust/src/cli/commands/ban.rs):
    "30m", "2h", "1mo" into seconds, and seconds back into words.
    Durations are whole seconds; a product that does not fit a `u64`
    wraps, as it does in a release build. */
module Durations {
  import opened Wrappers
  import opened Bytes
  import opened Text

  const U64_LIMIT: nat := 0x1_0000_0000_0000_0000

  /** Why `parse_duration` refused its input. */
  datatype DurationError =
    | EmptyDuration
    | NoNumericValue
    | InvalidNumericValue
    | UnknownUnit(unit: string)

  /** The ASCII digits of `s`, in order. */
  function DigitsOf(s: string): (r: string)
    ensures AllAsciiDigits(r) && |r| <= |s|
    ensures (forall i :: 0 <= i < |s| ==> !IsAsciiDigit(s[i])) <==> r == []
  {
    if s == [] then []
    else (if IsAsciiDigit(s[0]) then [s[0]] else []) + DigitsOf(s[1..])
  }

  /** The other characters of `s`, in order. */
  function OthersOf(s: string): (r: string)
    ensures forall i :: 0 <= i < |r| ==> !IsAsciiDigit(r[i])
    ensures |DigitsOf(s)| + |r| == |s|
  {
    if s == [] then []
    else (if IsAsciiDigit(s[0]) then [] else [s[0]]) + OthersOf(s[1..])
  }

  /** Splitting distributes over concatenation. */
  lemma DigitsOthersAppend(a: string, b: string)
    ensures DigitsOf(a + b) == DigitsOf(a) + DigitsOf(b)
    ensures OthersOf(a + b) == OthersOf(a) + OthersOf(b)
  {
    DigitsAppend(a, b);
    OthersAppend(a, b);
  }

  lemma {:induction false} DigitsAppend(a: string, b: string)
    ensures DigitsOf(a + b) == DigitsOf(a) + DigitsOf(b)
    decreases |a|
  {
    hide OthersOf;
    if a == [] {
      assert a + b == b;
    } else {
      var head := if IsAsciiDigit(a[0]) then [a[0]] else [];
      assert (a + b)[0] == a[0];
      assert (a + b)[1..] == a[1..] + b;
      calc {
        DigitsOf(a + b);
        head + DigitsOf(a[1..] + b);
        { DigitsAppend(a[1..], b); }
        head + (DigitsOf(a[1..]) + DigitsOf(b));
        (head + DigitsOf(a[1..])) + DigitsOf(b);
      }
    }
  }

  lemma {:induction false} OthersAppend(a: string, b: string)
    ensures OthersOf(a + b) == OthersOf(a) + OthersOf(b)
    decreases |a|
  {
    hide DigitsOf;
    if a == [] {
      assert a + b == b;
    } else {
      var head := if IsAsciiDigit(a[0]) then [] else [a[0]];
      assert (a + b)[0] == a[0];
      assert (a + b)[1..] == a[1..] + b;
      calc {
        OthersOf(a + b);
        head + OthersOf(a[1..] + b);
        { OthersAppend(a[1..], b); }
        head + (OthersOf(a[1..]) + OthersOf(b));
        (head + OthersOf(a[1..])) + OthersOf(b);
      }
    }
  }

  /** A numeral followed by a unit splits back into the two. */
  lemma {:induction false} SplitNumeralUnit(numeral: string, unit: string)
    requires AllAsciiDigits(numeral)
    requires forall i :: 0 <= i < |unit| ==> !IsAsciiDigit(unit[i])
    ensures DigitsOf(numeral + unit) == numeral && OthersOf(numeral + unit) == unit
  {
    DigitsOthersAppend(numeral, unit);
    AllDigits(numeral);
    NoDigits(unit);
  }

  lemma {:induction false} AllDigits(s: string)
    requires AllAsciiDigits(s)
    ensures DigitsOf(s) == s && OthersOf(s) == []
    decreases |s|
  {
    if s != [] {
      AllDigits(s[1..]);
    }
  }

  lemma {:induction false} NoDigits(s: string)
    requires forall i :: 0 <= i < |s| ==> !IsAsciiDigit(s[i])
    ensures DigitsOf(s) == [] && OthersOf(s) == s
    decreases |s|
  {
    if s != [] {
      NoDigits(s[1..]);
    }
  }

  /** Seconds per unit, for the units `parse_duration` knows. */
  function UnitSeconds(unit: string): (r: Option<nat>)
    ensures r.Some? <==> unit in {"s", "m", "h", "d", "w", "mo", "y"}
    ensures unit == "s" ==> r == Some(1)
    ensures unit == "m" ==> r == Some(60)
    ensures unit == "h" ==> r == Some(60 * 60)
    ensures unit == "d" ==> r == Some(24 * 60 * 60)
    ensures unit == "w" ==> r == Some(7 * 86400)
    ensures unit == "mo" ==> r == Some(30 * 86400)
    ensures unit == "y" ==> r == Some(365 * 86400)
  {
    match unit
    case "s" => Some(1)
    case "m" => Some(60)
    case "h" => Some(3600)
    case "d" => Some(86400)
    case "w" => Some(604800)
    case "mo" => Some(2592000)
    case "y" => Some(31536000)
    case _ => None
  }

  /** `parse_duration`: trimmed and lower-cased, every ASCII digit
      (wherever it is) makes up the number and every other character the
      unit. */
  function ParseDuration(s: string): (r: Result<nat, DurationError>)
    ensures Trim(s) == [] <==> r == Err(EmptyDuration)
    ensures r == Err(NoNumericValue) <==> Trim(s) != [] && DigitsOf(ToLower(Trim(s))) == []
    ensures r == Err(InvalidNumericValue)
            <==> DigitsOf(ToLower(Trim(s))) != [] && ParseUnsigned(DigitsOf(ToLower(Trim(s))), U64_LIMIT - 1).None?
    ensures r.Ok? ==> r.value < U64_LIMIT
    ensures r.Ok? ==> UnitSeconds(OthersOf(ToLower(Trim(s)))).Some?
    ensures r.Err? && r.error.UnknownUnit? ==> r.error.unit == OthersOf(ToLower(Trim(s)))
    ensures r.Ok? ==> exists count: nat, factor: nat ::
                        ParseUnsigned(DigitsOf(ToLower(Trim(s))), U64_LIMIT - 1) == Some(count)
                        && UnitSeconds(OthersOf(ToLower(Trim(s)))) == Some(factor)
                        && r.value == (count * factor) % U64_LIMIT
  {
    var t := ToLower(Trim(s));
    if t == [] then Err(EmptyDuration)
    else
      var numeral := DigitsOf(t);
      var unit := OthersOf(t);
      if numeral == [] then Err(NoNumericValue)
      else match ParseUnsigned(numeral, U64_LIMIT - 1)
        case None => Err(InvalidNumericValue)
        case Some(value) =>
          match UnitSeconds(unit)
          case None => Err(UnknownUnit(unit))
          case Some(factor) => Ok((value * factor) % U64_LIMIT)
  }

  /** A string with no whitespace at either end trims to itself. */
  lemma TrimUnchanged(s: string)
    requires |s| > 0 && !IsWhitespace(s[0]) && !IsWhitespace(s[|s| - 1])
    ensures Trim(s) == s
  {
    assert TrimStartIndex(s, IsWhitespace) == 0;
    assert TrimEndIndex(s, IsWhitespace) == |s|;
  }

  /** Lower-casing leaves digits and lower-case letters alone. */
  lemma ToLowerUnchanged(s: string)
    requires forall i :: 0 <= i < |s| ==> !('A' <= s[i] <= 'Z')
    ensures ToLower(s) == s
  {
  }

  /** What `parse_duration` makes of an input already trimmed and
      lower-cased, given how it splits. */
  lemma ParseSplit(s: string, value: nat, factor: nat)
    requires s != [] && ToLower(Trim(s)) == s && DigitsOf(s) != []
    requires ParseUnsigned(DigitsOf(s), U64_LIMIT - 1) == Some(value)
    ensures UnitSeconds(OthersOf(s)) == Some(factor) ==> ParseDuration(s) == Ok((value * factor) % U64_LIMIT)
    ensures UnitSeconds(OthersOf(s)).None? ==> ParseDuration(s) == Err(UnknownUnit(OthersOf(s)))
  {
    hide Trim, ToLower, DigitsOf, OthersOf, ParseUnsigned, UnitSeconds;
  }

  /** A numeral followed by a unit of lower-case letters is its own
      trimmed, lower-cased form, and splits into the two. */
  lemma {:induction false} NumeralUnitForm(n: nat, unit: string)
    requires forall i :: 0 <= i < |unit| ==> 'a' <= unit[i] <= 'z'
    ensures var s := NatToString(n) + unit;
            s != [] && ToLower(Trim(s)) == s && DigitsOf(s) == NatToString(n) && OthersOf(s) == unit
  {
    var numeral := NatToString(n);
    var s := numeral + unit;
    assert forall i :: 0 <= i < |s| ==> IsAsciiDigit(s[i]) || 'a' <= s[i] <= 'z' by {
      forall i | 0 <= i < |s| ensures IsAsciiDigit(s[i]) || 'a' <= s[i] <= 'z' {
        if i < |numeral| { assert s[i] == numeral[i]; } else { assert s[i] == unit[i - |numeral|]; }
      }
    }
    TrimUnchanged(s);
    ToLowerUnchanged(s);
    SplitNumeralUnit(numeral, unit);
  }

  /** Every known unit is spelled in lower-case letters. */
  lemma UnitLetters(unit: string)
    requires UnitSeconds(unit).Some?
    ensures forall i :: 0 <= i < |unit| ==> 'a' <= unit[i] <= 'z'
    ensures UnitSeconds(unit).value >= 1
  {
  }

  /** A numeral and a known unit parse to the number of seconds they
      name, when that fits a `u64`. */
  lemma {:induction false} ParseNumeralUnit(n: nat, unit: string)
    requires UnitSeconds(unit).Some? && n * UnitSeconds(unit).value < U64_LIMIT
    ensures ParseDuration(NatToString(n) + unit) == Ok(n * UnitSeconds(unit).value)
  {
    hide ParseDuration, NatToString;
    var factor := UnitSeconds(unit).value;
    UnitLetters(unit);
    assert n <= n * factor;
    NumeralUnitForm(n, unit);
    ParseNatToString(n, U64_LIMIT - 1);
    ParseSplit(NatToString(n) + unit, n, factor);
    SmallModulus(n * factor);
  }

  lemma SmallModulus(x: nat)
    requires x < U64_LIMIT
    ensures x % U64_LIMIT == x
  {
  }

  /** A number without a unit is refused: the unit must be spelled out. */
  lemma {:induction false} BareNumberRefused(n: nat)
    requires n < U64_LIMIT
    ensures ParseDuration(NatToString(n)) == Err(UnknownUnit(""))
  {
    NumeralUnitForm(n, "");
    assert NatToString(n) + "" == NatToString(n);
    ParseNatToString(n, U64_LIMIT - 1);
    ParseSplit(NatToString(n), n, 0);
  }

  /** `format_duration`: the largest of seconds, minutes, hours, days,
      weeks, months of 30 days or years of 365 days that keeps the count
      below the next unit's threshold, rounded down. */
  function FormatDuration(secs: nat): (r: string)
    ensures secs < 60 ==> r == NatToString(secs) + " seconds"
  {
    var minutes := secs / 60;
    var hours := minutes / 60;
    var days := hours / 24;
    var weeks := days / 7;
    var months := days / 30;
    if secs < 60 then NatToString(secs) + " seconds"
    else if minutes < 60 then NatToString(minutes) + " minutes"
    else if hours < 24 then NatToString(hours) + " hours"
    else if days < 7 then NatToString(days) + " days"
    else if weeks < 4 then NatToString(weeks) + " weeks"
    else if months < 12 then NatToString(months) + " months"
    else NatToString(days / 365) + " years"
  }

  /** The words `format_duration` uses for each unit. */
  function UnitWord(unit: string): string {
    match unit
    case "s" => " seconds"
    case "m" => " minutes"
    case "h" => " hours"
    case "d" => " days"
    case "w" => " weeks"
    case "mo" => " months"
    case _ => " years"
  }

  /** The largest count of a unit that `format_duration` still shows in
      that unit (beyond, it moves to the next unit); years have none. */
  function UnitCountBound(unit: string): nat {
    match unit
    case "s" => 60
    case "m" => 60
    case "h" => 24
    case "d" => 7
    case "w" => 4
    case "mo" => 12
    case _ => 0
  }

  /** `format_duration` of a whole number of one unit, below that unit's
      threshold, names the number and the unit. */
  lemma FormatWholeUnits(n: nat, unit: string)
    requires UnitSeconds(unit).Some?
    requires unit == "s" || 1 <= n
    requires unit == "y" || n < UnitCountBound(unit)
    ensures FormatDuration(n * UnitSeconds(unit).value) == NatToString(n) + UnitWord(unit)
  {
    if unit == "m" {
      FormatMinutes(n);
    } else if unit == "h" {
      FormatHours(n);
    } else if unit == "d" {
      FormatDays(n);
    } else if unit == "w" {
      FormatWeeks(n);
    } else if unit == "mo" {
      FormatMonths(n);
    } else if unit == "y" {
      FormatYears(n);
    }
  }

  lemma FormatMinutes(n: nat)
    requires 1 <= n < 60
    ensures FormatDuration(n * 60) == NatToString(n) + " minutes"
  {
    hide NatToString;
    assert n * 60 / 60 == n;
  }

  lemma FormatHours(n: nat)
    requires 1 <= n < 24
    ensures FormatDuration(n * 3600) == NatToString(n) + " hours"
  {
    hide NatToString;
    assert n * 3600 / 60 == n * 60;
    assert n * 60 / 60 == n;
  }

  /** A whole number of days: minutes and hours divide exactly. */
  lemma WholeDays(days: nat)
    ensures days * 86400 / 60 / 60 / 24 == days
    ensures days * 86400 / 60 / 60 >= 24 * days
  {
    assert days * 86400 / 60 == days * 1440;
    assert days * 1440 / 60 == days * 24;
    assert days * 24 / 24 == days;
  }

  lemma FormatDays(n: nat)
    requires 1 <= n < 7
    ensures FormatDuration(n * 86400) == NatToString(n) + " days"
  {
    hide NatToString;
    WholeDays(n);
  }

  lemma FormatWeeks(n: nat)
    requires 1 <= n < 4
    ensures FormatDuration(n * 604800) == NatToString(n) + " weeks"
  {
    hide NatToString;
    assert n * 604800 == (n * 7) * 86400;
    WholeDays(n * 7);
    assert n * 7 / 7 == n;
  }

  lemma FormatMonths(n: nat)
    requires 1 <= n < 12
    ensures FormatDuration(n * 2592000) == NatToString(n) + " months"
  {
    hide NatToString;
    assert n * 2592000 == (n * 30) * 86400;
    WholeDays(n * 30);
    assert n * 30 / 30 == n;
    assert n * 30 / 7 >= 4;
  }

  lemma FormatYears(n: nat)
    requires 1 <= n
    ensures FormatDuration(n * 31536000) == NatToString(n) + " years"
  {
    hide NatToString;
    assert n * 31536000 == (n * 365) * 86400;
    WholeDays(n * 365);
    assert n * 365 / 365 == n;
    assert n * 365 / 30 >= 12;
    assert n * 365 / 7 >= 4;
  }

  /** Formatting a parsed duration gives back its number and unit, in
      words, whenever the number is below the unit's threshold (and, but
      for seconds, at least one). */
  lemma FormatParsedDuration(n: nat, unit: string)
    requires UnitSeconds(unit).Some?
    requires unit == "s" || 1 <= n
    requires unit == "y" || n < UnitCountBound(unit)
    requires n * UnitSeconds(unit).value < U64_LIMIT
    ensures var r := ParseDuration(NatToString(n) + unit);
            r.Ok? && FormatDuration(r.value) == NatToString(n) + UnitWord(unit)
  {
    ParseNumeralUnit(n, unit);
    FormatWholeUnits(n, unit);
  }
}
