// internal/cqapimock: the vendor's acceptance checks and its pricing.
module Pricing {
  import opened Arith
  import opened Decimal
  import opened Money
  import opened Tokens

  const TERM_STEP := 5
  const TERM_ADJUST_CAP := 30
  const MONTHS_PER_YEAR := 12

  function BaseRate(band: string): Option<int> {
    if band == "A" then Some(100)
    else if band == "B" then Some(150)
    else if band == "C" then Some(225)
    else None
  }

  // The uplift in ten thousandths, in int64 arithmetic.
  function TermAdjustment(months: int): int {
    var adjustment := Wrap64(TERM_STEP * Quotient(months, MONTHS_PER_YEAR));
    if adjustment > TERM_ADJUST_CAP then TERM_ADJUST_CAP else adjustment
  }

  // The rate in ten thousandths.
  function RateUnits(band: string, months: int): Option<int> {
    match BaseRate(band)
    case None => None
    case Some(base) => Some(Wrap64(base + TermAdjustment(months)))
  }

  // Neither step leaves int64, whatever term the vendor is sent.
  lemma RateNeverOverflows(band: string, months: int)
    requires FitsInt64(months)
    ensures FitsInt64(TERM_STEP * Quotient(months, MONTHS_PER_YEAR))
    ensures BaseRate(band).Some? ==>
              RateUnits(band, months) == Some(BaseRate(band).value + TermAdjustment(months))
  {
  }

  // The published rate card, in ten thousandths: A 100, B 150 and C 225, and 5
  // more for each full year of the term, at most 30. A term below zero, which
  // no request can carry, would count its full years down.
  lemma RateFormula(band: string, months: int)
    requires FitsInt64(months)
    ensures BaseRate(band).Some? <==> band in {"A", "B", "C"}
    ensures var uplift := if 72 <= months then 30
                          else if 0 <= months then 5 * (months / 12) else -5 * (-months / 12);
            RateUnits(band, months) ==
            if band == "A" then Some(100 + uplift)
            else if band == "B" then Some(150 + uplift)
            else if band == "C" then Some(225 + uplift)
            else None
    ensures RateUnits(band, months).Some? && 0 <= months ==> 100 <= RateUnits(band, months).value <= 255
  {
    RateNeverOverflows(band, months);
  }

  // The text of the two figures in the vendor's reply.
  datatype Figures = Figures(rate: string, total: string)

  datatype Priced = Priced(rate: Rat, total: Rat) {
    ghost predicate Valid() {
      rate.Valid() && total.Valid()
    }

    function Text(): Figures
      requires Valid()
    {
      Figures(Format(rate, 4), Format(total, 2))
    }
  }

  function Generate(amount: Rat, months: int, band: string): (q: Option<Priced>)
    requires amount.Valid()
    ensures q.Some? ==> q.value.Valid()
    ensures q.Some? <==> BaseRate(band).Some?
  {
    match RateUnits(band, months)
    case None => None
    case Some(n) =>
      var rate := Lowest(n, 10000);
      Some(Priced(rate, Mul(amount, rate)))
  }

  // ---------------------------------------------------------- acceptance

  // What the vendor reads out of a request it accepts.
  datatype VendorRequest = VendorRequest(amount: Rat, months: int, band: string)

  // Handler.Quote's checks; None is its 400.
  function ReadRequest(loanAmount: string, term: string, band: string): (r: Option<VendorRequest>)
    ensures r.Some? ==> r.value.amount.Valid() && BaseRate(r.value.band).Some? && 0 < r.value.months
                        && FitsInt64(r.value.months)
  {
    var amountText := NumberText(loanAmount);
    if amountText.None? then None
    else
      var amount := ParseDecimal(amountText.value);
      if !amount.Parsed? then None
      else if amount.places > 2 then None
      else if amount.value.num <= 0 then None
      else
        var termText := NumberText(term);
        if termText.None? then None
        else
          var months := ParseInt64(termText.value);
          if months.None? || months.value <= 0 then None
          else if BaseRate(band).None? then None
          else Some(VendorRequest(amount.value, months.value, band))
  }

  // ------------------------------------------------------------- pricing

  // The rational price, rounded where it is printed, is the integer formula.
  lemma TotalInCents(amount: Rat, cents: int, n: int)
    requires amount.Valid() && amount == Lowest(cents, 100)
    ensures Units(Mul(amount, Lowest(n, 10000)), 2) == (cents * n + 5000) / 10000
  {
    assert Pow10(2) == 100 by {
      assert Pow10(1) == 10;
    }
    var rate := Lowest(n, 10000);
    var total := Mul(amount, rate);
    ProductTerms(amount.num, amount.den, cents, rate.num, rate.den, n, total.num, total.den);
    RoundedProduct(total.num, total.den, cents * n);
  }

  lemma RoundedProduct(t: int, u: int, m: int)
    requires 0 < u && 1000000 * t == m * u
    ensures (2 * (t * 100) + u) / (2 * u) == (m + 5000) / 10000
  {
    assert (m + 5000) * (2 * u) == 2 * (m * u) + 10000 * u;
    FloorOfEqualFractions(2 * (t * 100) + u, 2 * u, m + 5000, 10000);
  }

  // a/b = cents/100 and c/d = n/10000 and t/u = ac/bd.
  lemma ProductTerms(a: int, b: int, cents: int, c: int, d: int, n: int, t: int, u: int)
    requires 0 < b && 0 < d && 0 < u
    requires a * 100 == cents * b && c * 10000 == n * d && t * (b * d) == (a * c) * u
    ensures 1000000 * t == (cents * n) * u
  {
    calc {
      (1000000 * t) * (b * d);
      1000000 * (t * (b * d));
      1000000 * ((a * c) * u);
      ((a * 100) * (c * 10000)) * u;
      ((cents * b) * (n * d)) * u;
      { Rearrange(cents, b, n, d); }
      ((cents * n) * (b * d)) * u;
      ((cents * n) * u) * (b * d);
    }
    MulOrder(0, b, d);
    MulOrder(1000000 * t, (cents * n) * u, b * d);
  }

  lemma Rearrange(x: int, b: int, n: int, d: int)
    ensures (x * b) * (n * d) == (x * n) * (b * d)
  {
    calc {
      (x * b) * (n * d);
      x * (b * (n * d));
      { assert b * (n * d) == n * (b * d); }
      x * (n * (b * d));
      (x * n) * (b * d);
    }
  }

  // A larger amount or a longer term never costs less, whatever the fraction.
  lemma PriceMonotone(amount: Rat, months: int, amount': Rat, months': int, band: string)
    requires amount.Valid() && amount'.Valid() && 0 < amount.num && AtMost(amount, amount')
    requires BaseRate(band).Some? && 0 < months <= months' && FitsInt64(months')
    ensures var q, q' := Generate(amount, months, band).value, Generate(amount', months', band).value;
            && AtMost(q.rate, q'.rate) && AtMost(q.total, q'.total)
            && Units(q.rate, 4) <= Units(q'.rate, 4) && Units(q.total, 2) <= Units(q'.total, 2)
  {
    hide RateUnits, BaseRate, Lowest, Mul;
    RateMonotone(band, months, months');
    var n, n' := RateUnits(band, months).value, RateUnits(band, months').value;
    var rate, rate' := Lowest(n, 10000), Lowest(n', 10000);
    LowestOrder(n, n', 10000, rate.num, rate.den, rate'.num, rate'.den);
    MulOrder(0, rate.num, 10000);
    MulOrder(0, n, rate.den);
    RoundHalfUpMonotone(rate, rate', 4);
    MulMonotone(amount, rate, amount', rate');
    RoundHalfUpMonotone(Mul(amount, rate), Mul(amount', rate'), 2);
  }

  lemma RateMonotone(band: string, months: int, months': int)
    requires BaseRate(band).Some? && 0 < months <= months' && FitsInt64(months')
    ensures RateUnits(band, months).Some? && RateUnits(band, months').Some?
    ensures 100 <= RateUnits(band, months).value <= RateUnits(band, months').value
  {
    RateFormula(band, months);
    RateFormula(band, months');
  }

  lemma MulMonotone(a: Rat, r: Rat, b: Rat, s: Rat)
    requires a.Valid() && b.Valid() && r.Valid() && s.Valid()
    requires 0 <= a.num && 0 <= r.num && AtMost(a, b) && AtMost(r, s)
    ensures AtMost(Mul(a, r), Mul(b, s))
  {
    var x, y := Mul(a, r), Mul(b, s);
    MulOrder(0, a.den, r.den);
    MulOrder(0, b.den, s.den);
    ProductOrder(a.num, a.den, b.num, b.den, r.num, r.den, s.num, s.den);
    OrderTransitive(x.num, x.den, a.num * r.num, a.den * r.den, b.num * s.num, b.den * s.den);
    OrderTransitive(x.num, x.den, b.num * s.num, b.den * s.den, y.num, y.den);
  }

  // a/b <= c/d and e/f <= g/h give ae/bf <= cg/dh.
  lemma ProductOrder(a: int, b: int, c: int, d: int, e: int, f: int, g: int, h: int)
    requires 0 <= a && 0 < b && 0 < d && 0 <= e && 0 < f && 0 < h
    requires a * d <= c * b && e * h <= g * f
    ensures (a * e) * (d * h) <= (c * g) * (b * f)
  {
    assert 0 <= a * d && 0 <= e * h;
    ProductOfOrdered(a * d, c * b, e * h, g * f);
    Rearrange(a, d, e, h);
    Rearrange(c, b, g, f);
  }

  lemma ProductOfOrdered(x: int, y: int, u: int, v: int)
    requires 0 <= x <= y && 0 <= u <= v
    ensures x * u <= y * v
  {
    assert 0 <= (y - x) * u && 0 <= y * (v - u);
  }

  // a/b <= c/d and c/d <= e/f give a/b <= e/f.
  lemma OrderTransitive(a: int, b: int, c: int, d: int, e: int, f: int)
    requires 0 < b && 0 < d && 0 < f && a * d <= c * b && c * f <= e * d
    ensures a * f <= e * b
  {
    MulOrder(a * d, c * b, f);
    MulOrder(c * f, e * d, b);
    assert (a * d) * f == (a * f) * d && (c * b) * f == (c * f) * b && (e * d) * b == (e * b) * d;
    MulOrder(a * f, e * b, d);
  }
}
