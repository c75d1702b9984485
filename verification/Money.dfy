// internal/platform/money: exact amounts and rates as rationals in lowest
// terms, one rounding operation, a decimal parser and a decimal printer.
module Money {
  import opened Arith
  import opened Decimal

  // A big.Rat: a fraction in lowest terms.
  datatype Rat = Rat(num: int, den: int) {
    ghost predicate Valid() {
      0 < den && Coprime(num, den)
    }
  }

  // An amount, and the decimal places seen in its text.
  datatype Amount = Amount(value: Rat, scale: nat)

  // big.Rat.SetFrac: n/d in lowest terms.
  function Lowest(n: int, d: int): (r: Rat)
    requires 0 < d
    ensures r.Valid() && r.num * d == n * r.den
  {
    var q := Reduce(Abs(n), d);
    var r := Rat(if n < 0 then -(q.0 as int) else q.0, q.1);
    LowestIsValid(n, d, r);
    r
  }

  lemma LowestIsValid(n: int, d: int, r: Rat)
    requires 0 < d
    requires r == Rat(if n < 0 then -(Reduce(Abs(n), d).0 as int) else Reduce(Abs(n), d).0, Reduce(Abs(n), d).1)
    ensures r.Valid() && r.num * d == n * r.den
  {
    var q := Reduce(Abs(n), d);
    var g := ReduceScales(Abs(n), d);
    SignedCross(n, d, g, q.0, q.1);
    var u, v := ReduceCombination(Abs(n), d);
    var u' := if n < 0 then -u else u;
    assert r.num * u' == q.0 * u;
    CoprimeFromCombination(r.num, r.den, u', v);
  }

  lemma SignedCross(n: int, d: int, g: int, x: int, y: int)
    requires Abs(n) == g * x && d == g * y
    ensures (if n < 0 then -x else x) * d == n * y
  {
    assert x * (g * y) == (g * x) * y;
    assert (-x) * d == -(x * d) && (-n) * y == -(n * y);
  }

  // A value has only one fraction in lowest terms.
  lemma LowestIsUnique(r: Rat, s: Rat)
    requires r.Valid() && s.Valid() && r.num * s.den == s.num * r.den
    ensures r == s
  {
    DenominatorDivides(r, s);
    DenominatorDivides(s, r);
    DividesEachOther(r.den, s.den);
    MulOrder(r.num, s.num, r.den);
  }

  lemma DenominatorDivides(r: Rat, s: Rat)
    requires r.Valid() && s.Valid() && r.num * s.den == s.num * r.den
    ensures Divides(r.den, s.den)
  {
    if r.num < 0 {
      CoprimeNegated(r.num, r.den);
      assert (-r.num) * s.den == r.den * (-s.num);
    } else {
      assert r.num * s.den == r.den * s.num;
    }
    CoprimeDivides(Abs(r.num), r.den, s.den);
  }

  lemma CoprimeNegated(a: int, b: int)
    requires Coprime(a, b)
    ensures Coprime(-a, b)
  {
    forall d | 1 < d && Divides(d, -a) ensures !Divides(d, b) {
      var k :| -a == d * k;
      assert a == d * (-k);
      assert Divides(d, a);
    }
  }

  lemma LowestSameValue(n: int, d: int, m: int, e: int)
    requires 0 < d && 0 < e && n * e == m * d
    ensures Lowest(n, d) == Lowest(m, e)
  {
    var r, s := Lowest(n, d), Lowest(m, e);
    CrossTransitive(r.num, r.den, n, d, m, e);
    CrossTransitive(r.num, r.den, m, e, s.num, s.den);
    LowestIsUnique(r, s);
  }

  // a/b == n/d and n/d == m/e give a/b == m/e.
  lemma CrossTransitive(a: int, b: int, n: int, d: int, m: int, e: int)
    requires 0 < b && 0 < d && 0 < e
    requires a * d == n * b && n * e == m * d
    ensures a * e == m * b
  {
    assert (a * e) * d == (a * d) * e == (n * b) * e == (n * e) * b == (m * d) * b == (m * b) * d;
    MulOrder(a * e, m * b, d);
  }

  // big.Rat.Mul and big.Rat.Add.
  function Mul(a: Rat, b: Rat): (r: Rat)
    requires a.Valid() && b.Valid()
    ensures r.Valid()
  {
    MulOrder(0, a.den, b.den);
    Lowest(a.num * b.num, a.den * b.den)
  }

  function Add(a: Rat, b: Rat): (r: Rat)
    requires a.Valid() && b.Valid()
    ensures r.Valid()
  {
    MulOrder(0, a.den, b.den);
    Lowest(a.num * b.den + b.num * a.den, a.den * b.den)
  }

  // The order big.Rat.Cmp decides.
  predicate AtMost(a: Rat, b: Rat) {
    a.num * b.den <= b.num * a.den
  }

  function Whole(n: int): (r: Rat)
    ensures r.Valid()
  {
    CoprimeFromCombination(n, 1, 0, 1);
    Rat(n, 1)
  }

  function Half(): (r: Rat)
    ensures r.Valid()
  {
    CoprimeFromCombination(1, 2, 1, 0);
    Rat(1, 2)
  }

  // ---------------------------------------------------------------- rounding

  function RoundHalfUp(r: Rat, places: nat): (q: Rat)
    requires r.Valid()
    ensures q.Valid()
  {
    var scaled := Mul(r, Whole(Pow10(places)));
    var sum := Add(scaled, Half());
    Lowest(sum.num / sum.den, Pow10(places))
  }

  // n units of 10^-places is r rounded half up: n - 1/2 <= r * 10^places < n + 1/2.
  ghost predicate IsHalfUp(n: int, r: Rat, places: nat) {
    (2 * n - 1) * r.den <= 2 * (r.num * Pow10(places)) < (2 * n + 1) * r.den
  }

  // That number of units, in closed form.
  function Units(r: Rat, places: nat): int
    requires 0 < r.den
  {
    (2 * (r.num * Pow10(places)) + r.den) / (2 * r.den)
  }

  lemma UnitsHalfUp(r: Rat, places: nat)
    requires 0 < r.den
    ensures IsHalfUp(Units(r, places), r, places)
  {
    FloorBounds(2 * (r.num * Pow10(places)) + r.den, 2 * r.den);
  }

  lemma HalfUpUnique(n: int, r: Rat, places: nat)
    requires 0 < r.den && IsHalfUp(n, r, places)
    ensures n == Units(r, places)
  {
    assert n * (2 * r.den) <= 2 * (r.num * Pow10(places)) + r.den < (n + 1) * (2 * r.den);
    FloorUnique(2 * (r.num * Pow10(places)) + r.den, 2 * r.den, n);
  }

  // The rounding goes through two reductions to lowest terms and still finds
  // the one multiple of 10^-places within half a unit, ties going up.
  lemma RoundHalfUpExact(r: Rat, places: nat)
    requires r.Valid()
    ensures RoundHalfUp(r, places) == Lowest(Units(r, places), Pow10(places))
    ensures forall n :: IsHalfUp(n, r, places) <==> n == Units(r, places)
  {
    var scaled := Mul(r, Whole(Pow10(places)));
    var sum := Add(scaled, Half());
    SumFloor(sum.num, sum.den, scaled.num, scaled.den, r.num * Pow10(places), r.den);
    UnitsHalfUp(r, places);
    forall n | IsHalfUp(n, r, places) ensures n == Units(r, places) {
      HalfUpUnique(n, r, places);
    }
  }

  // floor(x/y + 1/2), computed on fractions equal to x/y and to x/y + 1/2.
  lemma SumFloor(a: int, b: int, m: int, e: int, x: int, y: int)
    requires 0 < b && 0 < e && 0 < y
    requires a * (e * 2) == (m * 2 + 1 * e) * b && m * (y * 1) == x * e
    ensures a / b == (2 * x + y) / (2 * y)
  {
    FloorOfEqualFractions(a, b, m * 2 + e, e * 2);
    assert (m * 2 + e) * (2 * y) == (2 * x + y) * (e * 2) by {
      assert (m * 2 + e) * (2 * y) == 4 * (m * y) + 2 * (e * y);
      assert (2 * x + y) * (e * 2) == 4 * (x * e) + 2 * (y * e);
    }
    FloorOfEqualFractions(m * 2 + e, e * 2, 2 * x + y, 2 * y);
  }

  // A value already at the scale keeps its units.
  lemma UnitsAtScale(r: Rat, n: int, places: nat)
    requires 0 < r.den && r.num * Pow10(places) == n * r.den
    ensures Units(r, places) == n
  {
    var d := r.den;
    assert (2 * n - 1) * d == 2 * (n * d) - d && (2 * n + 1) * d == 2 * (n * d) + d;
    HalfUpUnique(n, r, places);
  }

  lemma UnitsOfLowest(n: int, places: nat)
    ensures Units(Lowest(n, Pow10(places)), places) == n
  {
    UnitsAtScale(Lowest(n, Pow10(places)), n, places);
  }

  lemma RoundHalfUpIdempotent(r: Rat, places: nat)
    requires r.Valid()
    ensures RoundHalfUp(RoundHalfUp(r, places), places) == RoundHalfUp(r, places)
  {
    RoundHalfUpExact(r, places);
    UnitsOfLowest(Units(r, places), places);
    RoundHalfUpExact(RoundHalfUp(r, places), places);
  }

  lemma RoundHalfUpMonotone(r: Rat, s: Rat, places: nat)
    requires r.Valid() && s.Valid() && AtMost(r, s)
    ensures Units(r, places) <= Units(s, places)
    ensures AtMost(RoundHalfUp(r, places), RoundHalfUp(s, places))
  {
    var p, m, n := Pow10(places), Units(r, places), Units(s, places);
    UnitsHalfUp(r, places);
    UnitsHalfUp(s, places);
    HalfUpOrder(m, r.num, r.den, n, s.num, s.den, p);
    RoundHalfUpExact(r, places);
    RoundHalfUpExact(s, places);
    var a, b := Lowest(m, p), Lowest(n, p);
    LowestOrder(m, n, p, a.num, a.den, b.num, b.den);
  }

  // n < m would put b/e * p below n + 1/2 <= m - 1/2 and so below a/d * p.
  lemma HalfUpOrder(m: int, a: int, d: int, n: int, b: int, e: int, p: int)
    requires 0 < d && 0 < e && 0 < p && a * e <= b * d
    requires (2 * m - 1) * d <= 2 * (a * p) && 2 * (b * p) < (2 * n + 1) * e
    ensures m <= n
  {
    if n < m {
      MulOrder(2 * n + 1, 2 * m - 1, e);
      MulOrder(2 * (b * p) + 1, (2 * m - 1) * e, d);
      MulOrder((2 * m - 1) * d, 2 * (a * p), e);
      assert ((2 * m - 1) * e) * d == ((2 * m - 1) * d) * e;
      assert (2 * (b * p)) * d == (b * d) * (2 * p);
      assert (2 * (a * p)) * e == (a * e) * (2 * p);
      MulOrder(a * e, b * d, 2 * p);
    }
  }

  lemma LowestOrder(m: int, n: int, p: int, a: int, d: int, b: int, e: int)
    requires 0 < p && 0 < d && 0 < e && m <= n && a * p == m * d && b * p == n * e
    ensures a * e <= b * d
  {
    MulOrder(m, n, d);
    MulOrder(m * d, n * d, e);
    assert (a * e) * p == (a * p) * e == (m * d) * e;
    assert (b * d) * p == (b * p) * d == (n * e) * d == (n * d) * e;
    MulOrder(a * e, b * d, p);
  }

  // scaledInt: the whole number of units, if an int64 holds it. The division is
  // exact even though the rounded fraction was reduced.
  function ScaledInt(r: Rat, places: nat): Option<int>
    requires r.Valid()
  {
    var rounded := RoundHalfUp(r, places);
    var n := (rounded.num * Pow10(places)) / rounded.den;
    if FitsInt64(n) then Some(n) else None
  }

  lemma ScaledIntExact(r: Rat, places: nat)
    requires r.Valid()
    ensures ScaledInt(r, places) ==
            if FitsInt64(Units(r, places)) then Some(Units(r, places)) else None
    ensures (RoundHalfUp(r, places).num * Pow10(places)) % RoundHalfUp(r, places).den == 0
  {
    RoundHalfUpExact(r, places);
    ExactQuotient(RoundHalfUp(r, places).num * Pow10(places), RoundHalfUp(r, places).den, Units(r, places));
  }

  lemma ExactQuotient(m: int, d: int, n: int)
    requires 0 < d && m == n * d
    ensures m / d == n && m % d == 0
  {
    FloorUnique(m, d, n);
  }

  // ---------------------------------------------------------------- printing

  // big.Rat.FloatString, with its own rounding of the last place (halves away
  // from zero) and the carry into the whole part.
  function FloatString(x: Rat, prec: nat): string
    requires 0 < x.den
  {
    if x.den == 1 then
      IntText(x.num) + (if prec == 0 then "" else "." + Zeros(prec))
    else
      var p := Pow10(prec);
      DivNat(Abs(x.num), x.den);
      MulOrder(0, Abs(x.num) % x.den, p);
      DivNat((Abs(x.num) % x.den) * p, x.den);
      var q, rest := Abs(x.num) / x.den, (Abs(x.num) % x.den) * p;
      var r, r2 := rest / x.den, 2 * (rest % x.den);
      var up := x.den <= r2;
      var r' := if up then r + 1 else r;
      var carry := up && p <= r';
      (if x.num < 0 then "-" else "")
      + Digits(if carry then q + 1 else q)
      + (if prec == 0 then "" else "." + Padded(if carry then Abs(r' - p) else Abs(r'), prec))
  }

  function Format(r: Rat, places: nat): string
    requires r.Valid()
  {
    FloatString(RoundHalfUp(r, places), places)
  }

  function WithPoint(whole: string, frac: string): string {
    whole + (if frac == "" then "" else "." + frac)
  }

  function Pointed(negative: bool, whole: string, frac: string): string {
    (if negative then "-" else "") + WithPoint(whole, frac)
  }

  // The text of n units of 10^-places: the digits of n, padded so that one is
  // left before the point, with the point set before the last `places` of them.
  function Render(n: int, places: nat): string {
    var d := Padded(Abs(n), places + 1);
    Pointed(n < 0, d[..|d| - places], d[|d| - places..])
  }

  lemma RenderParts(n: int, places: nat) returns (whole: string, frac: string)
    ensures Render(n, places) == Pointed(n < 0, whole, frac)
    ensures IsNumeral(whole) && AllDigits(frac) && |frac| == places
    ensures whole == "0" || whole[0] != '0'
    ensures AllDigits(whole + frac) && NatOf(whole + frac) == Abs(n)
  {
    hide NatOf, Digits;
    var d := Padded(Abs(n), places + 1);
    whole, frac := d[..|d| - places], d[|d| - places..];
    assert whole + frac == d;
    NatOfPadded(Abs(n), places + 1);
    DigitsHaveNoLeadingZero(Abs(n));
  }

  lemma RenderOfParts(n: int, whole: string, frac: string)
    requires IsNumeral(whole) && AllDigits(frac) && (whole == "0" || whole[0] != '0')
    requires AllDigits(whole + frac) && NatOf(whole + frac) == Abs(n)
    ensures Render(n, |frac|) == Pointed(n < 0, whole, frac)
  {
    var d := whole + frac;
    PaddedOfNatOf(d, |whole|);
    assert d[..|d| - |frac|] == whole && d[|d| - |frac|..] == frac;
  }

  lemma AbsScale(x: int, p: int, n: int, d: int)
    requires 0 < p && 0 < d && x * p == n * d
    ensures Abs(x) * p == Abs(n) * d && (x < 0 <==> n < 0)
  {
    MulOrder(0, x, p);
    MulOrder(0, n, d);
    assert (-x) * p == -(x * p) && (-n) * d == -(n * d);
  }

  lemma PaddedZero(places: nat)
    requires 1 <= places
    ensures Padded(0, places) == Zeros(places)
  {
    assert Zeros(places - 1) + "0" == Zeros(places);
  }

  // Dividing a value that sits exactly on the scale: the printer's quotient and
  // remainder are those of the units, with nothing left over to round.
  lemma ScaledDivision(x: nat, d: nat, n: nat, p: nat) returns (q: nat, r: nat)
    requires 0 < d && 0 < p && x * p == n * d
    ensures n == q * p + r && r < p
    ensures x / d == q && ((x % d) * p) / d == r && ((x % d) * p) % d == 0
  {
    FloorOfEqualFractions(x, d, n, p);
    FloorBounds(n, p);
    DivNat(n, p);
    q, r := n / p, n % p;
    assert x % d == x - q * d;
    assert (x - q * d) * p == x * p - (q * d) * p;
    assert (n - q * p) * d == n * d - (q * p) * d;
    assert (q * d) * p == (q * p) * d;
    FloorUnique((x % d) * p, d, r);
  }

  // A quotient and remainder by 10^places, printed side by side.
  lemma RenderOfQuotient(n: int, places: nat, q: nat, r: nat)
    requires r < Pow10(places) && Abs(n) == q * Pow10(places) + r
    ensures Render(n, places) == Pointed(n < 0, Digits(q), if places == 0 then "" else Padded(r, places))
  {
    var whole := Digits(q);
    var frac := if places == 0 then "" else Padded(r, places);
    NatOfDigits(q);
    DigitsHaveNoLeadingZero(q);
    if places != 0 {
      DigitCount(r, places);
      NatOfPadded(r, places);
    }
    NatOfConcat(whole, frac);
    RenderOfParts(n, whole, frac);
  }

  // The printer's own rounding never fires: format prints exactly the half-up
  // units, whatever the fraction they were reduced to.
  lemma FormatExact(r: Rat, places: nat)
    requires r.Valid()
    ensures Format(r, places) == Render(Units(r, places), places)
  {
    RoundHalfUpExact(r, places);
    PrintsUnits(Lowest(Units(r, places), Pow10(places)), Units(r, places), places);
  }

  lemma PrintsUnits(x: Rat, n: int, places: nat)
    requires 0 < x.den && x.num * Pow10(places) == n * x.den
    ensures FloatString(x, places) == Render(n, places)
  {
    AbsScale(x.num, Pow10(places), n, x.den);
    if x.den == 1 {
      PrintsWhole(x, n, places);
    } else {
      PrintsFraction(x, n, places);
    }
  }

  lemma PrintsWhole(x: Rat, n: int, places: nat)
    requires x.den == 1 && Abs(x.num) * Pow10(places) == Abs(n) && (x.num < 0 <==> n < 0)
    ensures FloatString(x, places) == Render(n, places)
  {
    RenderOfQuotient(n, places, Abs(x.num), 0);
    if places != 0 {
      PaddedZero(places);
    }
  }

  lemma PrintsFraction(x: Rat, n: int, places: nat)
    requires 1 < x.den && Abs(x.num) * Pow10(places) == Abs(n) * x.den && (x.num < 0 <==> n < 0)
    ensures FloatString(x, places) == Render(n, places)
  {
    var q, r := ScaledDivision(Abs(x.num), x.den, Abs(n), Pow10(places));
    PrintsExactQuotient(x, places, q, r);
    RenderOfQuotient(n, places, q, r);
  }

  lemma PrintsExactQuotient(x: Rat, places: nat, q: nat, r: nat)
    requires 1 < x.den && Abs(x.num) / x.den == q
    requires ((Abs(x.num) % x.den) * Pow10(places)) / x.den == r
    requires ((Abs(x.num) % x.den) * Pow10(places)) % x.den == 0
    ensures FloatString(x, places) == Pointed(x.num < 0, Digits(q), if places == 0 then "" else Padded(r, places))
  {
    assert places != 0 ==> "." + Padded(r, places) != "";
  }

  // ----------------------------------------------------------------- parsing

  const MAX_TEXT := 32

  datatype Parsed = Parsed(value: Rat, places: nat) | BadFormat | TooLong

  function ParseDecimal(text: string): (r: Parsed)
    ensures r.Parsed? ==> r.value.Valid()
  {
    if |text| > MAX_TEXT then TooLong
    else if text == "" then BadFormat
    else
      var negative := text[0] == '-';
      var cut := CutAtDot(Unsigned(text));
      if !IsNumeral(cut.before) then BadFormat
      else if cut.found && !IsNumeral(cut.after) then BadFormat
      else
        var digits := NatOf(cut.before + cut.after);
        Parsed(Lowest(if negative then -(digits as int) else digits, Pow10(|cut.after|)), |cut.after|)
  }

  // The 32-byte guard in numbers: with two places, 31 digits fit in all, so 29
  // before the point, and one fewer when there is a sign.
  lemma RenderFits(n: int, places: nat)
    requires places <= 29
    ensures |Render(n, places)| <= MAX_TEXT <==>
            Abs(n) < Pow10(MAX_TEXT - (if n < 0 then 1 else 0) - (if places == 0 then 0 else 1))
  {
    hide Digits, Pow10;
    DigitCount(Abs(n), MAX_TEXT - (if n < 0 then 1 else 0) - (if places == 0 then 0 else 1));
  }

  // Where a printed text comes apart again.
  lemma CutWithPoint(whole: string, frac: string)
    requires IsNumeral(whole)
    ensures CutAtDot(WithPoint(whole, frac)) == CutResult(whole, frac, frac != "")
    ensures WithPoint(whole, frac) != "" && IsDigit(WithPoint(whole, frac)[0])
  {
    assert IsDigit(whole[0]);
    if frac == "" {
      CutPlain(whole);
      assert WithPoint(whole, frac) == whole;
    } else {
      CutJoined(whole, frac);
      assert WithPoint(whole, frac) == whole + "." + frac;
    }
  }

  lemma PointedSign(negative: bool, whole: string, frac: string)
    requires IsNumeral(whole)
    ensures var text := Pointed(negative, whole, frac);
            && text != "" && (text[0] == '-' <==> negative) && (IsDigit(text[0]) || text[0] == '-')
            && Unsigned(text) == WithPoint(whole, frac)
  {
    assert IsDigit(whole[0]);
    assert WithPoint(whole, frac)[0] == whole[0];
    var text := Pointed(negative, whole, frac);
    if negative {
      assert text[1..] == WithPoint(whole, frac);
    } else {
      assert text == WithPoint(whole, frac);
    }
  }

  lemma PointedParts(negative: bool, whole: string, frac: string)
    requires IsNumeral(whole)
    ensures var text := Pointed(negative, whole, frac);
            && text != "" && (text[0] == '-' <==> negative) && (IsDigit(text[0]) || text[0] == '-')
            && CutAtDot(Unsigned(text)) == CutResult(whole, frac, frac != "")
  {
    PointedSign(negative, whole, frac);
    CutWithPoint(whole, frac);
  }

  lemma ParsePointed(negative: bool, whole: string, frac: string)
    requires IsNumeral(whole) && AllDigits(frac) && AllDigits(whole + frac)
    ensures var text, v := Pointed(negative, whole, frac), NatOf(whole + frac) as int;
            ParseDecimal(text) ==
            if |text| <= MAX_TEXT
            then Parsed(Lowest(if negative then -v else v, Pow10(|frac|)), |frac|) else TooLong
  {
    PointedParts(negative, whole, frac);
  }

  // Parsing undoes printing, or the guard refuses the text; nothing else.
  lemma ParseRender(n: int, places: nat)
    ensures ParseDecimal(Render(n, places)) ==
            if |Render(n, places)| <= MAX_TEXT
            then Parsed(Lowest(n, Pow10(places)), places) else TooLong
  {
    var whole, frac := RenderParts(n, places);
    ParsePointed(n < 0, whole, frac);
  }

  // A plain decimal: an optional sign, digits, and a point only with digits
  // after it.
  predicate Plain(text: string, sign: string, whole: string, frac: string) {
    && text == sign + WithPoint(whole, frac) && sign in {"", "+", "-"}
    && IsNumeral(whole) && AllDigits(frac) && AllDigits(whole + frac)
  }

  // It accepts exactly the plain decimals of at most 32 bytes, as their value in
  // lowest terms and the number of digits after the point.
  lemma ParseExactly(text: string, value: Rat, places: nat)
    ensures ParseDecimal(text) == Parsed(value, places) <==>
            && |text| <= 32
            && exists sign, whole, frac ::
                 && Plain(text, sign, whole, frac) && places == |frac|
                 && value == Lowest(SignedValue(sign, NatOf(whole + frac)), Pow10(|frac|))
    ensures ParseDecimal(text) == TooLong <==> |text| > 32
  {
    forall sign, whole, frac | Plain(text, sign, whole, frac)
      ensures text != "" && CutAtDot(Unsigned(text)) == CutResult(whole, frac, frac != "")
      ensures text[0] == '-' <==> sign == "-"
    {
      CutWithPoint(whole, frac);
      SignComesOff(sign, WithPoint(whole, frac));
    }
    if ParseDecimal(text).Parsed? {
      var cut := CutAtDot(Unsigned(text));
      Rejoin(Unsigned(text));
      assert Plain(text, SignOf(text), cut.before, cut.after);
    }
  }

  // Text format prints: an optional minus on a non-zero value, a whole part
  // without superfluous zeros, exactly `places` fraction digits, no plus sign.
  predicate Canonical(text: string, places: nat) {
    var negative := text != "" && text[0] == '-';
    var cut := CutAtDot(Unsigned(text));
    && (negative || Unsigned(text) == text)
    && IsNumeral(cut.before) && (cut.before == "0" || cut.before[0] != '0')
    && cut.found == (0 < places) && |cut.after| == places && AllDigits(cut.after)
    && (negative ==> NatOf(cut.before + cut.after) != 0)
  }

  lemma RenderIsCanonical(n: int, places: nat)
    ensures Canonical(Render(n, places), places)
  {
    var whole, frac := RenderParts(n, places);
    PointedParts(n < 0, whole, frac);
  }

  // A canonical text is what its own value prints as.
  lemma CanonicalIsRender(text: string, places: nat) returns (n: int)
    requires Canonical(text, places)
    ensures Render(n, places) == text
  {
    var negative := text != "" && text[0] == '-';
    var cut := CutAtDot(Unsigned(text));
    var v: int := NatOf(cut.before + cut.after);
    n := if negative then -v else v;
    RenderOfParts(n, cut.before, cut.after);
    Rejoin(Unsigned(text));
    SignRestored(text, negative);
  }

  lemma SignRestored(text: string, negative: bool)
    requires text != "" && (negative <==> text[0] == '-') && (negative || Unsigned(text) == text)
    ensures text == (if negative then "-" else "") + Unsigned(text)
  {
  }

  lemma Rejoin(body: string)
    requires CutAtDot(body).found <==> CutAtDot(body).after != ""
    ensures body == WithPoint(CutAtDot(body).before, CutAtDot(body).after)
  {
    var cut := CutAtDot(body);
    if cut.found {
      Associate(cut.before, ".", cut.after);
    } else {
      assert cut.before + "" == cut.before;
    }
  }

  // Whatever text is accepted, printing it again at a scale gives the half-up
  // rounding of its value, and gives the same text back exactly when the text
  // was already canonical at that scale.
  lemma FormatOfParse(text: string, places: nat)
    requires ParseDecimal(text).Parsed?
    ensures var r := ParseDecimal(text).value;
            && Format(r, places) == Render(Units(r, places), places)
            && IsHalfUp(Units(r, places), r, places)
            && (Format(r, places) == text <==> Canonical(text, places))
  {
    var r := ParseDecimal(text).value;
    FormatExact(r, places);
    UnitsHalfUp(r, places);
    RenderIsCanonical(Units(r, places), places);
    if Canonical(text, places) {
      var n := CanonicalIsRender(text, places);
      ParseRender(n, places);
      UnitsOfLowest(n, places);
    }
  }

  // Any value survives printing and parsing at a scale as its rounding, with
  // that many places, unless the text outgrows the guard.
  lemma ParseOfFormat(r: Rat, places: nat)
    requires r.Valid()
    ensures ParseDecimal(Format(r, places)) ==
            if |Format(r, places)| <= MAX_TEXT
            then Parsed(RoundHalfUp(r, places), places) else TooLong
  {
    FormatExact(r, places);
    RoundHalfUpExact(r, places);
    ParseRender(Units(r, places), places);
  }
}
