/**
 Decimal text for the dashboard's numbers: digit strings, thousands
 grouping with commas (Python's `,` format option), truncation toward zero
 (Python's `int(x)` on a float), and fixed two-decimal rendering (Python's
 `.2f`). Each renderer is paired with a parser, and the lemmas prove that
 parsing a rendering gives back the value it was rendered from. The
 uniqueness lemmas show that the renderers' contracts leave only one
 possible text.
 */
module Decimal {
  import opened Wrappers

  predicate IsDigit(c: char) {
    '0' <= c <= '9'
  }

  predicate AllDigits(s: string) {
    forall i :: 0 <= i < |s| ==> IsDigit(s[i])
  }

  function DigitValue(c: char): (d: nat)
    requires IsDigit(c)
    ensures d < 10
  {
    c as int - '0' as int
  }

  function DigitChar(d: nat): (c: char)
    requires d < 10
    ensures IsDigit(c) && DigitValue(c) == d
  {
    ('0' as int + d) as char
  }

  function Abs(x: int): nat {
    if x < 0 then -x else x
  }

  function AbsReal(x: real): (r: real)
    ensures r >= 0.0 && (r == x || r == -x)
  {
    if x < 0.0 then -x else x
  }

  /* ---------------------------------------------------------------- */
  /* Digit strings                                                      */
  /* ---------------------------------------------------------------- */

  /** The value of a string of decimal digits, most significant first. */
  function DigitsToNat(s: string): nat
    requires AllDigits(s)
  {
    if |s| == 0 then 0 else DigitsToNat(s[..|s| - 1]) * 10 + DigitValue(s[|s| - 1])
  }

  /** A digit string without superfluous leading zeros: the form in which
      Python writes a natural number. */
  predicate Canonical(s: string) {
    && |s| >= 1
    && AllDigits(s)
    && (s[0] == '0' ==> |s| == 1)
  }

  /** The decimal representation of `n`, as Python's `str(n)` writes it. */
  function NatToDigits(n: nat): (s: string)
    ensures Canonical(s)
    decreases n
  {
    if n < 10 then [DigitChar(n)] else NatToDigits(n / 10) + [DigitChar(n % 10)]
  }

  lemma {:induction false} DigitsOfNat(n: nat)
    ensures DigitsToNat(NatToDigits(n)) == n
    decreases n
  {
    if n >= 10 {
      var s := NatToDigits(n);
      assert s[..|s| - 1] == NatToDigits(n / 10);
      DigitsOfNat(n / 10);
    }
  }

  lemma {:induction false} LeadingDigitBound(s: string)
    requires |s| >= 1 && AllDigits(s)
    ensures DigitsToNat(s) >= DigitValue(s[0])
  {
    if |s| > 1 {
      LeadingDigitBound(s[..|s| - 1]);
    }
  }

  /** Rendering is onto the canonical digit strings: every canonical string
      is the rendering of the number it denotes. */
  lemma {:induction false} NatOfDigits(s: string)
    requires Canonical(s)
    ensures NatToDigits(DigitsToNat(s)) == s
  {
    if |s| > 1 {
      var p := s[..|s| - 1];
      assert p[0] == s[0];
      LeadingDigitBound(p);
      NatOfDigits(p);
      assert s == p + [s[|s| - 1]];
    }
  }

  /* ---------------------------------------------------------------- */
  /* Thousands grouping                                                 */
  /* ---------------------------------------------------------------- */

  /** Removes every comma. */
  function Ungroup(s: string): (r: string)
    ensures |r| <= |s|
  {
    if |s| == 0 then "" else (if s[0] == ',' then "" else [s[0]]) + Ungroup(s[1..])
  }

  /** A grouped numeral: it starts with a digit, and it has a comma exactly
      at every fourth place counted from the right end and digits
      everywhere else, so that the first group holds one to three digits
      and every later group exactly three. */
  predicate WellGrouped(s: string) {
    && |s| >= 1
    && IsDigit(s[0])
    && (forall i :: 0 <= i < |s| ==> (s[i] == ',' <==> (|s| - i) % 4 == 0))
    && (forall i :: 0 <= i < |s| ==> s[i] == ',' || IsDigit(s[i]))
  }

  lemma {:induction false} UngroupAppend(a: string, b: string)
    ensures Ungroup(a + b) == Ungroup(a) + Ungroup(b)
  {
    if |a| > 0 {
      assert (a + b)[1..] == a[1..] + b;
      UngroupAppend(a[1..], b);
    } else {
      assert a + b == b;
    }
  }

  lemma {:induction false} UngroupDigits(s: string)
    requires AllDigits(s)
    ensures Ungroup(s) == s
  {
    if |s| > 0 {
      UngroupDigits(s[1..]);
    }
  }

  lemma ShiftByFour(a: int)
    ensures (a + 4) % 4 == a % 4
  {
  }

  /** One to three digits are a grouped numeral on their own. */
  lemma GroupBase(ds: string)
    requires |ds| <= 3
    ensures AllDigits(ds) ==> Ungroup(ds) == ds && (|ds| >= 1 ==> WellGrouped(ds))
  {
    if AllDigits(ds) {
      UngroupDigits(ds);
      forall i | 0 <= i < |ds|
        ensures ds[i] != ',' && (|ds| - i) % 4 != 0
      {
        assert 1 <= |ds| - i <= 3;
      }
    }
  }

  /** A grouped numeral followed by a comma and three more digits is a
      grouped numeral. */
  lemma GroupStepShape(g: string, post: string)
    requires WellGrouped(g)
    requires |post| == 3 && AllDigits(post)
    ensures WellGrouped(g + "," + post)
  {
    var r := g + "," + post;
    assert |r| == |g| + 4 && r[0] == g[0];
    forall i | 0 <= i < |r|
      ensures r[i] == ',' <==> (|r| - i) % 4 == 0
      ensures r[i] == ',' || IsDigit(r[i])
    {
      if i < |g| {
        assert r[i] == g[i];
        ShiftByFour(|g| - i);
      } else if i > |g| {
        assert r[i] == post[i - |g| - 1];
      }
    }
  }

  /** Its digits are those of the numeral followed by the three. */
  lemma GroupStepDigits(g: string, post: string)
    requires AllDigits(post)
    ensures Ungroup(g + "," + post) == Ungroup(g) + post
  {
    UngroupAppend(g + ",", post);
    UngroupAppend(g, ",");
    UngroupDigits(post);
  }

  /** Inserts a comma before every third character counted from the right,
      as Python's `,` option does to the digits of an integer. Removing the
      commas gives the digits back, and the commas sit exactly where a
      grouped numeral has them. */
  function Group(ds: string): (r: string)
    ensures AllDigits(ds) ==> Ungroup(r) == ds
    ensures |ds| >= 1 && AllDigits(ds) ==> WellGrouped(r)
    decreases |ds|
  {
    if |ds| <= 3 then
      GroupBase(ds);
      ds
    else
      var pre, post := ds[..|ds| - 3], ds[|ds| - 3..];
      var g := Group(pre);
      assert ds == pre + post;
      if AllDigits(ds) then
        GroupStepShape(g, post);
        GroupStepDigits(g, post);
        g + "," + post
      else
        g + "," + post
  }

  /** A grouped numeral of more than three characters is a shorter
      grouped numeral, a comma and three digits. */
  lemma GroupedPrefix(w: string) returns (pre: string, post: string)
    requires WellGrouped(w) && |w| > 3
    ensures WellGrouped(pre) && |pre| < |w|
    ensures |post| == 3 && AllDigits(post)
    ensures w == pre + "," + post
  {
    var n := |w|;
    assert w[0] != ',' && (n - 0) % 4 != 0;
    pre, post := w[..n - 4], w[n - 3..];
    assert w[n - 4] == ',' by {
      assert (n - (n - 4)) % 4 == 0;
    }
    forall i | 0 <= i < 3
      ensures IsDigit(post[i])
    {
      assert post[i] == w[n - 3 + i];
      assert (n - (n - 3 + i)) % 4 != 0;
    }
    assert pre[0] == w[0];
    forall i | 0 <= i < |pre|
      ensures pre[i] == ',' <==> (|pre| - i) % 4 == 0
      ensures pre[i] == ',' || IsDigit(pre[i])
    {
      assert pre[i] == w[i];
      ShiftByFour(|pre| - i);
    }
    assert w == pre + "," + post;
  }

  /** Grouping digits followed by three more digits groups the first ones
      and appends a comma and the three. */
  lemma GroupAppend(d: string, post: string)
    requires |d| >= 1 && AllDigits(d) && |post| == 3 && AllDigits(post)
    ensures AllDigits(d + post)
    ensures Group(d + post) == Group(d) + "," + post
  {
    var ds := d + post;
    assert ds[..|ds| - 3] == d && ds[|ds| - 3..] == post;
    forall i | 0 <= i < |ds|
      ensures IsDigit(ds[i])
    {
      if i < |d| {
        assert ds[i] == d[i];
      } else {
        assert ds[i] == post[i - |d|];
      }
    }
  }

  /** A grouped numeral is the grouping of its own digits: the comma
      positions leave no choice. */
  lemma {:induction false} GroupUnique(w: string)
    requires WellGrouped(w)
    ensures AllDigits(Ungroup(w)) && w == Group(Ungroup(w))
    decreases |w|
  {
    if |w| <= 3 {
      forall i | 0 <= i < |w|
        ensures IsDigit(w[i])
      {
        assert (|w| - i) % 4 != 0;
      }
      UngroupDigits(w);
    } else {
      var pre, post := GroupedPrefix(w);
      GroupUnique(pre);
      GroupStepDigits(pre, post);
      var d := Ungroup(pre);
      assert |d| >= 1;
      GroupAppend(d, post);
    }
  }

  /* ---------------------------------------------------------------- */
  /* Integers: Python's `str(n)` and `f"{n:,}"`                          */
  /* ---------------------------------------------------------------- */

  function SignOf(negative: bool): string {
    if negative then "-" else ""
  }

  /** Python's `str(n)` for an integer. */
  function IntToString(n: int): string {
    SignOf(n < 0) + NatToDigits(Abs(n))
  }

  /** Reads an optionally signed integer whose digits may be grouped by
      commas. */
  function ParseGroupedInt(s: string): Option<int> {
    if |s| > 0 && s[0] == '-' then
      var b := Ungroup(s[1..]);
      if |b| > 0 && AllDigits(b) then Some(-(DigitsToNat(b) as int)) else None
    else
      var b := Ungroup(s);
      if |b| > 0 && AllDigits(b) then Some(DigitsToNat(b)) else None
  }

  /** Dropping the sign leaves the numeral. */
  lemma SignedParts(negative: bool, g: string)
    ensures (SignOf(negative) + g)[|SignOf(negative)|..] == g
  {
    if negative {
      assert (SignOf(negative) + g)[1..] == g;
    } else {
      assert SignOf(negative) + g == g;
    }
  }

  /** The sign of `n` followed by a grouped numeral of the digits of `n`
      reads back as `n`. */
  lemma ReadGroupedInt(n: int, g: string, s: string)
    requires WellGrouped(g) && Ungroup(g) == NatToDigits(Abs(n))
    requires s == SignOf(n < 0) + g
    ensures ParseGroupedInt(s) == Some(n)
  {
    DigitsOfNat(Abs(n));
    if n < 0 {
      assert s[0] == '-' && s[1..] == g;
    } else {
      assert s == g;
    }
  }

  /** Python's `f"{n:,}"` for an integer: the sign, then the grouped
      digits. Without its commas it is `str(n)`, its digits are well
      grouped, and it reads back as `n`. */
  function FormatGroupedInt(n: int): (s: string)
    ensures Ungroup(s) == IntToString(n)
    ensures |s| >= |SignOf(n < 0)| && WellGrouped(s[|SignOf(n < 0)|..])
    ensures ParseGroupedInt(s) == Some(n)
  {
    var g := Group(NatToDigits(Abs(n)));
    SignedParts(n < 0, g);
    UngroupAppend(SignOf(n < 0), g);
    ReadGroupedInt(n, g, SignOf(n < 0) + g);
    SignOf(n < 0) + g
  }

  /* ---------------------------------------------------------------- */
  /* Truncation and rounding                                            */
  /* ---------------------------------------------------------------- */

  /** Python's `int(x)` on a float: the integer part, truncated toward zero. */
  function Truncate(x: real): (n: int)
    ensures 0.0 <= x ==> 0 <= n && n as real <= x < n as real + 1.0
    ensures x < 0.0 ==> n <= 0 && n as real - 1.0 < x <= n as real
  {
    if x >= 0.0 then x.Floor else -((-x).Floor)
  }

  /** Rounds a non-negative real to the nearest integer, ties to even (the
      rule Python's `.2f` applies to the exact value it formats). */
  function RoundHalfEven(y: real): (n: nat)
    requires y >= 0.0
    ensures -0.5 <= n as real - y <= 0.5
    ensures (n as real - y == 0.5 || y - n as real == 0.5) ==> n % 2 == 0
  {
    var f := y.Floor;
    var d := y - f as real;
    if d < 0.5 then f
    else if d > 0.5 then f + 1
    else if f % 2 == 0 then f
    else f + 1
  }

  /* ---------------------------------------------------------------- */
  /* Fixed two-decimal rendering: Python's `.2f` and `,.2f`             */
  /* ---------------------------------------------------------------- */

  /** The magnitude of `x` in hundredths, correctly rounded. */
  function Cents(x: real): nat {
    RoundHalfEven(AbsReal(x) * 100.0)
  }

  /** `r` is what `x` rounds to at two decimals: a whole number of cents
      within half a cent of `x`, with an even number of cents on a tie. */
  predicate NearestCents(r: real, x: real) {
    && (r * 100.0).Floor as real == r * 100.0
    && -0.005 <= r - x <= 0.005
    && ((r - x == 0.005 || x - r == 0.005) ==> (r * 100.0).Floor % 2 == 0)
  }

  /** The value `x` rounds to at two decimals, with the sign of `x`. */
  function RoundedToCents(x: real): (r: real)
    ensures NearestCents(r, x)
  {
    var n := Cents(x);
    var c := n as real / 100.0;
    var r := if x < 0.0 then -c else c;
    var k: int := if x < 0.0 then -(n as int) else n;
    assert r * 100.0 == k as real;
    assert (r * 100.0).Floor == k;
    r
  }

  /** Rounding to cents has only one possible result: two values that both
      round `x` to the nearest cent, ties to even, are equal. */
  lemma NearestCentsUnique(x: real, r1: real, r2: real)
    requires NearestCents(r1, x) && NearestCents(r2, x)
    ensures r1 == r2
  {
    var a, b := (r1 * 100.0).Floor, (r2 * 100.0).Floor;
    assert -1 <= a - b <= 1;
  }

  function TwoDigits(c: nat): (s: string)
    requires c < 100
    ensures |s| == 2 && AllDigits(s) && DigitsToNat(s) == c
  {
    var s := [DigitChar(c / 10), DigitChar(c % 10)];
    assert s[..1] == [DigitChar(c / 10)];
    assert s[..1][..0] == [];
    assert DigitsToNat(s[..1]) == c / 10;
    s
  }
  /** The part of a fixed-point numeral between its sign and its point. */
  function IntegerPart(s: string): string {
    var body := if |s| > 0 && s[0] == '-' then s[1..] else s;
    if |body| < 3 then "" else body[..|body| - 3]
  }

  /** Exactly two digits after the point, and no other point. */
  predicate TwoDecimals(s: string) {
    && |s| >= 4
    && s[|s| - 3] == '.'
    && IsDigit(s[|s| - 2]) && IsDigit(s[|s| - 1])
    && (forall i :: 0 <= i < |s| - 3 ==> s[i] != '.')
  }

  /** Reads an unsigned fixed-point numeral with exactly two decimals;
      commas in the integer part are skipped. */
  function ParseUnsignedFixed2(body: string): Option<real> {
    if |body| < 4 || body[|body| - 3] != '.' then None
    else
      var whole := Ungroup(body[..|body| - 3]);
      var frac := body[|body| - 2..];
      if |whole| == 0 || !AllDigits(whole) || !AllDigits(frac) then None
      else Some(DigitsToNat(whole) as real + DigitsToNat(frac) as real / 100.0)
  }

  /** Reads an optionally signed fixed-point numeral with exactly two
      decimals. */
  function ParseFixed2(s: string): Option<real> {
    if |s| > 0 && s[0] == '-' then
      match ParseUnsignedFixed2(s[1..])
      case Some(v) => Some(-v)
      case None => None
    else ParseUnsignedFixed2(s)
  }

  /** `s` shows `x` with exactly two decimals: two digits after a single
      point, a `-` exactly when `x` is negative (so -0.001 shows as
      "-0.00", as in Python), an integer part whose digits are the whole
      units of `x` rounded to cents, and the whole text reading back as
      `x` rounded to cents. */
  predicate ShowsCents(s: string, x: real) {
    && TwoDecimals(s)
    && (s[0] == '-' <==> x < 0.0)
    && Ungroup(IntegerPart(s)) == NatToDigits(Cents(x) / 100)
    && ParseFixed2(s) == Some(RoundedToCents(x))
  }

  /** The integer part is grouped by commas (`,.2f`) or plain (`.2f`). */
  predicate IntegerPartShape(s: string, grouped: bool) {
    if grouped then WellGrouped(IntegerPart(s)) else Canonical(IntegerPart(s))
  }

  lemma ReadUnsigned(body: string, w: string, t: string)
    requires body == w + "." + t
    requires |t| == 2 && AllDigits(t)
    requires AllDigits(Ungroup(w)) && |Ungroup(w)| >= 1
    ensures ParseUnsignedFixed2(body)
         == Some(DigitsToNat(Ungroup(w)) as real + DigitsToNat(t) as real / 100.0)
  {
    assert body[..|body| - 3] == w;
    assert body[|body| - 2..] == t;
  }

  lemma ShapeAssembled(negative: bool, w: string, t: string)
    requires |w| >= 1 && IsDigit(w[0])
    requires forall i :: 0 <= i < |w| ==> w[i] != '.'
    requires |t| == 2 && AllDigits(t)
    ensures TwoDecimals(SignOf(negative) + (w + "." + t))
    ensures IntegerPart(SignOf(negative) + (w + "." + t)) == w
    ensures (SignOf(negative) + (w + "." + t))[0] == '-' <==> negative
  {
    var body := w + "." + t;
    var s := SignOf(negative) + body;
    assert body[..|body| - 3] == w;
    assert body[0] == w[0];
    if negative {
      assert s[1..] == body;
      forall i | 0 <= i < |s| - 3
        ensures s[i] != '.'
      {
        if i > 0 {
          assert s[i] == w[i - 1];
        }
      }
    } else {
      assert s == body;
    }
  }

  function Signed(negative: bool, v: real): real {
    if negative then -v else v
  }

  lemma ReadSign(s: string, negative: bool, body: string, v: real)
    requires s == SignOf(negative) + body
    requires |body| > 0 && body[0] != '-'
    requires ParseUnsignedFixed2(body) == Some(v)
    ensures ParseFixed2(s) == Some(Signed(negative, v))
  {
    if negative {
      assert s[1..] == body;
    } else {
      assert s == body;
    }
  }

  /** The integer part Fixed2 writes: it starts with a digit, has no point,
      and its digits are `whole`. */
  lemma IntegerPartOfFixed2(whole: string, grouped: bool)
    requires Canonical(whole)
    ensures var w := if grouped then Group(whole) else whole;
      && |w| >= 1 && IsDigit(w[0])
      && (forall i :: 0 <= i < |w| ==> w[i] != '.')
      && Ungroup(w) == whole
  {
    if !grouped {
      UngroupDigits(whole);
    }
  }

  lemma CentsSplit(c: nat)
    ensures (c / 100) as real + (c % 100) as real / 100.0 == c as real / 100.0
  {
    assert c == (c / 100) * 100 + c % 100;
  }

  /** Reading back the digits of the whole and fractional parts of a
      cent count gives the amount in units. */
  lemma ReadCents(c: nat, whole: string, t: string)
    requires whole == NatToDigits(c / 100)
    requires t == TwoDigits(c % 100)
    ensures DigitsToNat(whole) as real + DigitsToNat(t) as real / 100.0 == c as real / 100.0
  {
    DigitsOfNat(c / 100);
    CentsSplit(c);
  }

  /** An integer part whose digits are those of `c / 100`, a point and the
      two digits of `c % 100` read back as `c / 100`. */
  lemma ReadBody(c: nat, whole: string, w: string, t: string)
    requires whole == NatToDigits(c / 100) && Ungroup(w) == whole
    requires t == TwoDigits(c % 100)
    ensures ParseUnsignedFixed2(w + "." + t) == Some(c as real / 100.0)
  {
    ReadUnsigned(w + "." + t, w, t);
    ReadCents(c, whole, t);
  }

  lemma RoundedIsSigned(x: real)
    ensures RoundedToCents(x) == Signed(x < 0.0, Cents(x) as real / 100.0)
  {
  }

  /** A sign, an integer part with the digits of `c / 100`, a point and
      the two digits of `c % 100` read back as `c` hundredths, signed. */
  lemma ReadAssembled(negative: bool, c: nat, whole: string, w: string, t: string)
    requires whole == NatToDigits(c / 100)
    requires |w| >= 1 && IsDigit(w[0]) && Ungroup(w) == whole
    requires t == TwoDigits(c % 100)
    ensures ParseFixed2(SignOf(negative) + (w + "." + t)) == Some(Signed(negative, c as real / 100.0))
  {
    ReadBody(c, whole, w, t);
    assert (w + "." + t)[0] == w[0];
    ReadSign(SignOf(negative) + (w + "." + t), negative, w + "." + t, c as real / 100.0);
  }

  /** The four facts ShowsCents asks for, gathered. */
  lemma ShowsFromParts(s: string, x: real, w: string, v: real)
    requires TwoDecimals(s) && (s[0] == '-' <==> x < 0.0)
    requires IntegerPart(s) == w && Ungroup(w) == NatToDigits(Cents(x) / 100)
    requires ParseFixed2(s) == Some(v) && v == RoundedToCents(x)
    ensures ShowsCents(s, x)
  {
  }

  /** ... and so show `x` with two decimals. */
  lemma ShowsAssembled(x: real, c: nat, whole: string, w: string, t: string)
    requires c == Cents(x) && whole == NatToDigits(c / 100)
    requires |w| >= 1 && IsDigit(w[0]) && Ungroup(w) == whole
    requires forall i :: 0 <= i < |w| ==> w[i] != '.'
    requires t == TwoDigits(c % 100)
    ensures ShowsCents(SignOf(x < 0.0) + (w + "." + t), x)
    ensures IntegerPart(SignOf(x < 0.0) + (w + "." + t)) == w
  {
    var s := SignOf(x < 0.0) + (w + "." + t);
    ShapeAssembled(x < 0.0, w, t);
    ReadAssembled(x < 0.0, c, whole, w, t);
    RoundedIsSigned(x);
    ShowsFromParts(s, x, w, Signed(x < 0.0, c as real / 100.0));
  }

  /** `x` written with exactly two decimals, the integer part grouped by
      commas when `grouped` holds: `f"{x:.2f}"` and `f"{x:,.2f}"`. */
  function Fixed2(x: real, grouped: bool): (s: string)
    ensures ShowsCents(s, x) && IntegerPartShape(s, grouped)
  {
    var c := Cents(x);
    var whole := NatToDigits(c / 100);
    var w := if grouped then Group(whole) else whole;
    var t := TwoDigits(c % 100);
    IntegerPartOfFixed2(whole, grouped);
    ShowsAssembled(x, c, whole, w, t);
    SignOf(x < 0.0) + (w + "." + t)
  }

  lemma DigitCharOfValue(ch: char)
    requires IsDigit(ch)
    ensures DigitChar(DigitValue(ch)) == ch
  {
  }

  /** Two digits are the two-digit rendering of the number they denote. */
  lemma TwoDigitsUnique(t: string)
    requires |t| == 2 && AllDigits(t)
    ensures DigitsToNat(t) < 100 && t == TwoDigits(DigitsToNat(t))
  {
    assert t[..1][..0] == [];
    assert DigitsToNat(t[..1]) == DigitValue(t[0]);
    DigitCharOfValue(t[0]);
    DigitCharOfValue(t[1]);
  }

  /** An unsigned two-decimal numeral is its integer part, a point and
      two digits. */
  lemma SplitBody(body: string) returns (t: string)
    requires |body| >= 3 && body[|body| - 3] == '.'
    requires IsDigit(body[|body| - 2]) && IsDigit(body[|body| - 1])
    ensures |t| == 2 && AllDigits(t)
    ensures body == body[..|body| - 3] + "." + t
  {
    t := body[|body| - 2..];
    assert t[0] == body[|body| - 2] && t[1] == body[|body| - 1];
  }

  /** A two-decimal numeral whose integer part starts with a digit is a
      sign, that integer part, a point and two digits. */
  lemma SplitFixed2(s: string) returns (w: string, t: string)
    requires TwoDecimals(s) && |IntegerPart(s)| >= 1
    ensures w == IntegerPart(s) && |t| == 2 && AllDigits(t)
    ensures s == SignOf(s[0] == '-') + (w + "." + t)
  {
    var negative := s[0] == '-';
    var body := if negative then s[1..] else s;
    if negative {
      assert s == "-" + body;
    } else {
      assert s == body;
    }
    assert |body| >= 3 && body[|body| - 3] == s[|s| - 3];
    assert body[|body| - 2] == s[|s| - 2] && body[|body| - 1] == s[|s| - 1];
    w := body[..|body| - 3];
    t := SplitBody(body);
  }

  /** A signed numeral that reads back as `v`, signed, has an unsigned
      part worth `v`. */
  lemma UnsignedValue(negative: bool, w: string, t: string, v: real)
    requires |w| >= 1 && IsDigit(w[0]) && AllDigits(Ungroup(w)) && |Ungroup(w)| >= 1
    requires |t| == 2 && AllDigits(t)
    requires ParseFixed2(SignOf(negative) + (w + "." + t)) == Some(Signed(negative, v))
    ensures DigitsToNat(Ungroup(w)) as real + DigitsToNat(t) as real / 100.0 == v
  {
    var u := DigitsToNat(Ungroup(w)) as real + DigitsToNat(t) as real / 100.0;
    ReadUnsigned(w + "." + t, w, t);
    assert (w + "." + t)[0] == w[0];
    ReadSign(SignOf(negative) + (w + "." + t), negative, w + "." + t, u);
  }

  /** Whole units `c / 100` and `b` hundredths make `c` hundredths only
      when `b` is `c % 100`. */
  lemma CentsFraction(c: nat, a: nat, b: nat)
    requires a == c / 100
    requires a as real + b as real / 100.0 == c as real / 100.0
    ensures b == c % 100
  {
    CentsSplit(c);
  }

  /** The two digits after the point are fixed by the value read back. */
  lemma CentsDigits(negative: bool, c: nat, whole: string, w: string, t: string)
    requires whole == NatToDigits(c / 100)
    requires |w| >= 1 && IsDigit(w[0]) && Ungroup(w) == whole
    requires |t| == 2 && AllDigits(t)
    requires ParseFixed2(SignOf(negative) + (w + "." + t)) == Some(Signed(negative, c as real / 100.0))
    ensures t == TwoDigits(c % 100)
  {
    UnsignedValue(negative, w, t, c as real / 100.0);
    DigitsOfNat(c / 100);
    CentsFraction(c, DigitsToNat(whole), DigitsToNat(t));
    TwoDigitsUnique(t);
  }

  /** The two-decimal text of `x` is unique: any text that shows `x` with
      two decimals and an integer part of the same kind is the one Fixed2
      writes, so Fixed2's contract pins down Python's output. */
  lemma Fixed2Unique(s: string, x: real, grouped: bool)
    requires ShowsCents(s, x) && IntegerPartShape(s, grouped)
    ensures s == Fixed2(x, grouped)
  {
    var c := Cents(x);
    var whole := NatToDigits(c / 100);
    var w0 := IntegerPart(s);
    if grouped {
      GroupUnique(w0);
    } else {
      UngroupDigits(w0);
    }
    assert w0 == if grouped then Group(whole) else whole;
    var w, t := SplitFixed2(s);
    RoundedIsSigned(x);
    CentsDigits(x < 0.0, c, whole, w, t);
  }
}
