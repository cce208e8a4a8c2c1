/**
 Display formatting of metric values: `format_value` of the full dashboard
 and the inline formatting branches of the smaller sample-data dashboard.
 A value is an exact real; `None` (and NaN, which a real cannot be) is
 `Option.None`.
 */
module Formatting {
  import opened Wrappers
  import opened Decimal

  /** The display formats a metric can carry. */
  datatype Format = Currency | Percentage | Ratio | Number

  const NotAvailable: string := "N/A"

  /** `s` shows `x` truncated toward zero, with its digits grouped in
      threes by commas; without the commas it is Python's `str(int(x))`. */
  predicate ShowsTruncated(s: string, x: real) {
    var n := Truncate(x);
    && ParseGroupedInt(s) == Some(n)
    && Ungroup(s) == IntToString(n)
    && |s| >= |SignOf(n < 0)|
    && WellGrouped(s[|SignOf(n < 0)|..])
  }

  lemma NotAvailableIsNoNumber()
    ensures ParseGroupedInt(NotAvailable) == None
  {
    assert Ungroup(NotAvailable) == NotAvailable;
    assert !IsDigit(NotAvailable[0]);
  }

  /** The `$` currency rendering, `f"${x:,.2f}"`. */
  function Dollars(x: real): (s: string)
    ensures |s| >= 5 && s[0] == '$'
    ensures ShowsCents(s[1..], x)
    ensures WellGrouped(IntegerPart(s[1..]))
  {
    var s := "$" + Fixed2(x, true);
    assert s[1..] == Fixed2(x, true);
    s
  }

  /** Two decimals followed by a one-character unit, `f"{x:.2f}%"`. */
  function WithUnit(x: real, unit: char): (s: string)
    ensures |s| >= 5 && s[|s| - 1] == unit
    ensures ShowsCents(s[..|s| - 1], x)
    ensures Canonical(IntegerPart(s[..|s| - 1]))
  {
    var s := Fixed2(x, false) + [unit];
    assert s[..|s| - 1] == Fixed2(x, false);
    s
  }

  /** The currency contract leaves one text: any `s` meeting it is
      `Dollars(x)`. */
  lemma DollarsUnique(s: string, x: real)
    requires |s| >= 5 && s[0] == '$'
    requires ShowsCents(s[1..], x) && WellGrouped(IntegerPart(s[1..]))
    ensures s == Dollars(x)
  {
    Fixed2Unique(s[1..], x, true);
    assert s == "$" + s[1..];
  }

  /** Likewise for a two-decimal numeral followed by a unit. */
  lemma WithUnitUnique(s: string, x: real, unit: char)
    requires |s| >= 5 && s[|s| - 1] == unit
    requires ShowsCents(s[..|s| - 1], x) && Canonical(IntegerPart(s[..|s| - 1]))
    ensures s == WithUnit(x, unit)
  {
    Fixed2Unique(s[..|s| - 1], x, false);
    assert s == s[..|s| - 1] + [unit];
  }

  /** The grouped truncated integer, `f"{int(x):,}"`. */
  function Grouped(x: real): (s: string)
    ensures ShowsTruncated(s, x)
  {
    FormatGroupedInt(Truncate(x))
  }

  /** `format_value` of the full dashboard. */
  function FormatValue(v: Option<real>, f: Format): (s: string)
    ensures v.None? <==> s == NotAvailable
    ensures v.Some? && f == Currency ==>
      |s| >= 5 && s[0] == '$' && ShowsCents(s[1..], v.value) && WellGrouped(IntegerPart(s[1..]))
    ensures v.Some? && f == Percentage ==>
      |s| >= 5 && s[|s| - 1] == '%' && ShowsCents(s[..|s| - 1], v.value)
      && Canonical(IntegerPart(s[..|s| - 1]))
    ensures v.Some? && f == Ratio ==>
      |s| >= 5 && s[|s| - 1] == 'x' && ShowsCents(s[..|s| - 1], v.value)
      && Canonical(IntegerPart(s[..|s| - 1]))
    ensures v.Some? && f == Number ==> ShowsTruncated(s, v.value)
  {
    NotAvailableIsNoNumber();
    match v
    case None => NotAvailable
    case Some(x) =>
      match f
      case Currency => Dollars(x)
      case Percentage => WithUnit(x, '%')
      case Ratio => WithUnit(x, 'x')
      case Number => Grouped(x)
  }

  /** The inline formatting in the sample-data dashboard's table builder.
      It has no ratio branch: a ratio falls through to plain `f"{x:.2f}"`. */
  function InlineFormat(x: real, f: Format): (s: string)
    ensures f == Currency ==>
      |s| >= 5 && s[0] == '$' && ShowsCents(s[1..], x) && WellGrouped(IntegerPart(s[1..]))
    ensures f == Percentage ==>
      |s| >= 5 && s[|s| - 1] == '%' && ShowsCents(s[..|s| - 1], x)
      && Canonical(IntegerPart(s[..|s| - 1]))
    ensures f == Number ==> ShowsTruncated(s, x)
    ensures f == Ratio ==> ShowsCents(s, x) && Canonical(IntegerPart(s))
  {
    match f
    case Currency => Dollars(x)
    case Percentage => WithUnit(x, '%')
    case Number => Grouped(x)
    case Ratio => Fixed2(x, false)
  }

  /** The two copies of the formatter agree on every format but the ratio,
      which the inline copy writes without its `x` suffix. */
  lemma InlineAgreesWithFormatValue(x: real, f: Format)
    ensures f != Ratio ==> InlineFormat(x, f) == FormatValue(Some(x), f)
    ensures f == Ratio ==> InlineFormat(x, f) + "x" == FormatValue(Some(x), f)
  {
  }
}
