/**
  Decimal columns: bounds turned into integer units, a clamped draw, and the two-part
  rendering by floor division and remainder.
 */
module DecimalRendering {
  import opened DecimalDigits
  import opened Options

  /** `minimum <= maximum` is checked when the column is parsed. */
  datatype Column = Column(minimum: real, maximum: real, scale: nat, separator: string)

  predicate Valid(c: Column) {
    c.minimum <= c.maximum
  }

  function Power(c: Column): nat {
    Pow10(c.scale)
  }

  /** ROUND_CEILING of the scaled minimum. */
  function Low(c: Column): int {
    -((-c.minimum * Power(c) as real).Floor)
  }

  /** ROUND_FLOOR of the scaled maximum. */
  function High(c: Column): int {
    (c.maximum * Power(c) as real).Floor
  }

  function Span(c: Column): int {
    High(c) - Low(c) + 1
  }

  /** `int(rng.random() * span)`: the float product may round up to the span itself. */
  predicate IsDraw(k: int, span: int) {
    0 <= k <= span
  }

  function Clamped(k: int, span: int): int {
    if k <= span - 1 then k else span - 1
  }

  function Units(c: Column, k: int): int {
    Low(c) + Clamped(k, Span(c))
  }

  /** Floor division, as Python divides by a positive power. */
  function FloorDiv(n: int, p: nat): int
    requires p > 0
  {
    n / p
  }

  /** `str` of an integer. */
  function Signed(n: int): string {
    if n < 0 then "-" + Digits(-n) else Digits(n)
  }

  /** The closure `_decimal_renderer` returns, on chosen units. */
  function Render(c: Column, units: int): string {
    if c.scale == 0 then Signed(units)
    else Signed(FloorDiv(units, Power(c))) + c.separator + Padded(units % Power(c), c.scale)
  }

  // ----- reading a rendered decimal -------------------------------------------------

  predicate AllDigits(s: string) {
    forall i :: 0 <= i < |s| ==> IsDigit(s[i])
  }

  /** Integer digits, the separator, and `scale` fraction digits. */
  function ParseMagnitude(body: string, separator: string, scale: nat): Option<(nat, nat)> {
    if |body| <= |separator| + scale then None
    else
      var at := |body| - scale - |separator|;
      if body[at..at + |separator|] == separator && AllDigits(body[..at]) && AllDigits(body[at + |separator|..])
      then Some((Number(body[..at]), Number(body[at + |separator|..])))
      else None
  }

  function Combined(negative: bool, whole: nat, fraction: nat, power: nat): int {
    if negative then -(whole * power + fraction) else whole * power + fraction
  }

  /** Sign-magnitude reading, in units of the last place. */
  function Parse(c: Column, text: string): Option<int> {
    var separator := if c.scale == 0 then "" else c.separator;
    var negative := text != [] && text[0] == '-';
    match ParseMagnitude(if negative then text[1..] else text, separator, c.scale)
    case None => None
    case Some((whole, fraction)) => Some(Combined(negative, whole, fraction, Power(c)))
  }

  lemma PartsOfRendered(whole: string, separator: string, fraction: string)
    requires whole != []
    ensures var text := whole + separator + fraction;
      && |text| > |fraction| + |separator|
      && text[|text| - |fraction|..] == fraction
      && text[|text| - |fraction| - |separator|..|text| - |fraction|] == separator
      && text[..|text| - |fraction| - |separator|] == whole
  {
  }

  lemma ParseBody(whole: string, separator: string, fraction: string)
    requires whole != [] && AllDigits(whole) && AllDigits(fraction)
    ensures ParseMagnitude(whole + separator + fraction, separator, |fraction|) ==
            Some((Number(whole), Number(fraction)))
  {
    var body := whole + separator + fraction;
    var at := |body| - |fraction| - |separator|;
    PartsOfRendered(whole, separator, fraction);
    assert body[at..at + |separator|] == separator && body[..at] == whole && body[at + |separator|..] == fraction;
  }

  function Abs(n: int): nat {
    if n < 0 then -n else n
  }

  lemma SignedText(q: int, rest: string)
    ensures var text := Signed(q) + rest;
      && text != [] && (text[0] == '-' <==> q < 0)
      && (if q < 0 then text[1..] else text) == Digits(Abs(q)) + rest
  {
    var digits := Digits(Abs(q));
    assert IsDigit(digits[0]);
    if q < 0 {
      assert (Signed(q) + rest)[1..] == digits + rest;
    } else {
      assert (Signed(q) + rest)[0] == digits[0];
    }
  }

  lemma ParseSigned(c: Column, q: int, separator: string, fraction: string)
    requires AllDigits(fraction) && |fraction| == c.scale && separator == if c.scale == 0 then "" else c.separator
    ensures Parse(c, Signed(q) + separator + fraction) ==
            Some(Combined(q < 0, Abs(q), Number(fraction), Power(c)))
  {
    var digits := Digits(Abs(q));
    SignedText(q, separator + fraction);
    assert Signed(q) + separator + fraction == Signed(q) + (separator + fraction);
    assert digits + separator + fraction == digits + (separator + fraction);
    ParseBody(digits, separator, fraction);
    NumberOfDigits(Abs(q));
  }

  lemma FloorParts(units: int, p: nat)
    requires p > 0
    ensures units == FloorDiv(units, p) * p + units % p && 0 <= units % p < p
    ensures units < 0 <==> FloorDiv(units, p) < 0
  {
  }

  /** What a reader makes of rendered units: the remainder is added to the magnitude,
      although floor division has already rounded a negative quotient away from zero. */
  function ReadBack(units: int, p: nat): int
    requires p > 0
  {
    if units >= 0 then units else FloorDiv(units, p) * p - units % p
  }

  lemma CombinedIsReadBack(units: int, p: nat)
    requires p > 0
    ensures var q := FloorDiv(units, p); Combined(q < 0, Abs(q), units % p, p) == ReadBack(units, p)
  {
    var q := FloorDiv(units, p);
    FloorParts(units, p);
    assert q < 0 ==> Abs(q) * p == -(q * p);
  }

  lemma ReadBackExactlyWhen(units: int, p: nat)
    requires p > 0
    ensures ReadBack(units, p) == units <==> units >= 0 || units % p == 0
  {
    FloorParts(units, p);
  }

  lemma ParseOfRendered(c: Column, units: int)
    ensures Parse(c, Render(c, units)) == Some(ReadBack(units, Power(c)))
  {
    var p := Power(c);
    if c.scale == 0 {
      ParseSigned(c, units, "", "");
      assert Signed(units) + "" + "" == Signed(units);
      assert FloorDiv(units, 1) == units;
    } else {
      PaddedIsExact(units % p, c.scale);
      ParseSigned(c, FloorDiv(units, p), c.separator, Padded(units % p, c.scale));
    }
    CombinedIsReadBack(units, p);
  }

  predicate Faithful(c: Column, units: int) {
    Parse(c, Render(c, units)) == Some(units)
  }

  /** Rendered units read back if and only if they are not negative, are whole, or the
      column has no fraction. */
  lemma FaithfulExactlyWhen(c: Column, units: int)
    ensures Faithful(c, units) <==> units >= 0 || c.scale == 0 || units % Power(c) == 0
  {
    ParseOfRendered(c, units);
    ReadBackExactlyWhen(units, Power(c));
  }

  /** A column reads back on every draw if and only if it has no fraction, starts at zero or
      above, or holds a single whole value. */
  lemma ColumnIsFaithfulExactlyWhen(c: Column)
    requires Low(c) <= High(c)
    ensures (forall u :: Low(c) <= u <= High(c) ==> Faithful(c, u)) <==>
      Low(c) >= 0 || c.scale == 0 || (Low(c) == High(c) && Low(c) % Power(c) == 0)
  {
    if Low(c) >= 0 || c.scale == 0 || (Low(c) == High(c) && Low(c) % Power(c) == 0) {
      forall u | Low(c) <= u <= High(c) ensures Faithful(c, u) {
        FaithfulExactlyWhen(c, u);
      }
    } else {
      var u := UnfaithfulUnits(c);
    }
  }

  lemma UnfaithfulUnits(c: Column) returns (u: int)
    requires Low(c) <= High(c) && Low(c) < 0 && c.scale > 0
    requires Low(c) == High(c) ==> Low(c) % Power(c) != 0
    ensures Low(c) <= u <= High(c) && !Faithful(c, u)
  {
    u := Low(c);
    if Low(c) % Power(c) == 0 {
      assert Power(c) == 10 * Pow10(c.scale - 1);
      AfterAMultiple(Low(c), Power(c));
      u := Low(c) + 1;
    }
    FaithfulExactlyWhen(c, u);
  }

  lemma AfterAMultiple(n: int, p: nat)
    requires p >= 2 && n < 0 && n % p == 0
    ensures n + 1 < 0 && (n + 1) % p == 1
  {
    FloorParts(n, p);
    assert (n / p) * p + 1 == n + 1;
    RemainderIsUnique(n + 1, n / p, 1, p);
  }

  lemma RemainderIsUnique(n: int, q: int, r: int, p: nat)
    requires 0 <= r < p && n == q * p + r
    ensures n % p == r
  {
    var d := q - n / p;
    FloorParts(n, p);
    assert d * p == q * p - (n / p) * p;
    assert d >= 1 ==> d * p >= p;
    assert d <= -1 ==> d * p <= -1 * p;
  }

  lemma MinusOneAndAHalf()
    ensures var c := Column(-2.0, 2.0, 2, ".");
      Low(c) <= -150 <= High(c) && Parse(c, Render(c, -150)) == Some(-250)
  {
    var c := Column(-2.0, 2.0, 2, ".");
    assert Pow10(2) == 10 * Pow10(1) && Pow10(1) == 10 * Pow10(0) && Power(c) == 100;
    assert (-(-2.0) * 100.0).Floor == 200 && (2.0 * 100.0).Floor == 200;
    ParseOfRendered(c, -150);
  }

  // ----- bounds ------------------------------------------------------------------------

  /** Units within the column's bounds, as a decimal value. */
  predicate InBounds(c: Column, units: int) {
    c.minimum <= units as real / Power(c) as real <= c.maximum
  }

  lemma InBoundsExactlyWhen(c: Column, units: int)
    ensures InBounds(c, units) <==> Low(c) <= units <= High(c)
  {
    var p := Power(c) as real;
    var value := units as real / p;
    assert value * p == units as real;
    assert c.minimum <= value <==> c.minimum * p <= units as real;
    assert value <= c.maximum <==> units as real <= c.maximum * p;
  }

  /** Every draw is in bounds, also one that rounded up to the span, if and only if the
      column has a representable value at all; and every such value can be drawn. */
  lemma DrawIsInBoundsExactlyWhen(c: Column, k: int)
    requires Valid(c) && IsDraw(k, Span(c))
    ensures InBounds(c, Units(c, k)) <==> Low(c) <= High(c)
    ensures Low(c) <= High(c) <==> exists u :: InBounds(c, u)
    ensures forall u :: InBounds(c, u) ==> IsDraw(u - Low(c), Span(c)) && Units(c, u - Low(c)) == u
  {
    forall u ensures InBounds(c, u) <==> Low(c) <= u <= High(c) {
      InBoundsExactlyWhen(c, u);
    }
    if Low(c) <= High(c) {
      assert InBounds(c, Low(c));
    }
  }

  lemma UnitsAreNotNegative(c: Column, k: int)
    requires IsDraw(k, Span(c)) && c.minimum >= 0.0 && Low(c) <= High(c)
    ensures Units(c, k) >= 0
  {
    assert -c.minimum * Power(c) as real <= 0.0;
  }

  /** The decimal shape: digits, the separator, and exactly `scale` digits. */
  predicate IsDecimal(c: Column, text: string) {
    && |text| > c.scale + |c.separator|
    && AllDigits(text[|text| - c.scale..])
    && text[|text| - c.scale - |c.separator|..|text| - c.scale] == c.separator
    && AllDigits(text[..|text| - c.scale - |c.separator|])
  }

  lemma RenderedShape(c: Column, units: nat)
    requires c.scale > 0
    ensures IsDecimal(c, Render(c, units))
  {
    var p := Power(c);
    FloorParts(units, p);
    PaddedIsExact(units % p, c.scale);
    PartsOfRendered(Digits(FloorDiv(units, p)), c.separator, Padded(units % p, c.scale));
  }

  /** A column with a non-negative minimum and a representable value renders every draw as a
      decimal with exactly `scale` fraction digits that reads back to the drawn units, which
      are within the declared bounds. */
  lemma RenderedDrawIsExact(c: Column, k: int)
    requires Valid(c) && IsDraw(k, Span(c)) && c.minimum >= 0.0 && Low(c) <= High(c)
    ensures Faithful(c, Units(c, k)) && InBounds(c, Units(c, k))
    ensures c.scale > 0 ==> IsDecimal(c, Render(c, Units(c, k)))
  {
    UnitsAreNotNegative(c, k);
    FaithfulExactlyWhen(c, Units(c, k));
    DrawIsInBoundsExactlyWhen(c, k);
    if c.scale > 0 {
      RenderedShape(c, Units(c, k));
    }
  }
}
