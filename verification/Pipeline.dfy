// One quote across the two services: what the Middleware sends the vendor, what
// the vendor reads, and what the caller gets back.
module Pipeline {
  import opened Arith
  import opened Decimal
  import opened Money
  import opened Tokens
  import opened Validation
  import opened Pricing
  import opened Vendor

  // VendorClient.Quote's encoding of a validated request, read by the vendor.
  function VendorReads(req: QuoteRequest): Option<VendorRequest>
    requires req.amount.value.Valid()
  {
    ReadRequest(Format(req.amount.value, 2), IntText(req.months), req.riskBand)
  }

  lemma IntTextIsToken(n: int)
    ensures NumberText(IntText(n)) == Some(IntText(n))
  {
    var s := IntText(n);
    assert s[|s| - 1] == Digits(Abs(n))[|Digits(Abs(n))| - 1];
    NumberTextVerbatim(s);
  }

  lemma CentsText(n: int)
    requires 0 < n <= 500000000
    ensures ParseDecimal(Render(n, 2)) == Parsed(Lowest(n, 100), 2)
    ensures 0 < Lowest(n, 100).num
  {
    assert Pow10(1) == 10 && Pow10(2) == 100;
    RenderFits(n, 2);
    Pow10Monotone(9, 31);
    assert Pow10(9) == 1000000000;
    ParseRender(n, 2);
    MulOrder(Lowest(n, 100).num, 0, 100);
    MulOrder(n, 0, Lowest(n, 100).den);
  }

  // Whatever the Middleware accepts, the vendor accepts too, and reads the same
  // rational amount, the same months and the same band.
  lemma AcceptedIsNeverRefused(raw: RawRequest)
    requires Accepted(raw)
    ensures Request(raw).amount.value.Valid()
    ensures VendorReads(Request(raw)) ==
            Some(VendorRequest(Request(raw).amount.value, Request(raw).months, Request(raw).riskBand))
  {
    var req := Request(raw);
    AcceptedAmountInCents(raw.loanAmount);
    FormatExact(req.amount.value, 2);
    CentsAreRead(Units(req.amount.value, 2), req.months, req.riskBand);
  }

  lemma CentsAreRead(n: int, months: int, band: string)
    requires 0 < n <= 500000000 && 0 < months && FitsInt64(months) && BaseRate(band).Some?
    ensures ReadRequest(Render(n, 2), IntText(months), band) == Some(VendorRequest(Lowest(n, 100), months, band))
  {
    NumberTextOfRender(n, 2);
    CentsText(n);
    IntTextIsToken(months);
    ParseIntText(months);
  }

  // On JSON numbers the mock accepts exactly a plain positive amount of at most
  // two fraction digits and 32 bytes, a positive integer term an int64 holds,
  // and a published band; and reads what their digits write.
  lemma MockAcceptsExactly(amount: JsonNumber, term: JsonNumber, band: string)
    requires amount.Valid() && term.Valid()
    ensures var frac := amount.FracDigits();
            AllDigits(amount.whole + frac) &&
            ReadRequest(amount.Text(), term.Text(), band) ==
            if && amount.exponent.None? && !amount.negative && |frac| <= 2 && |amount.Text()| <= 32
               && 0 < NatOf(amount.whole + frac)
               && term.exponent.None? && term.frac.None? && !term.negative
               && 0 < NatOf(term.whole) <= 9223372036854775807
               && band in {"A", "B", "C"}
            then Some(VendorRequest(Lowest(NatOf(amount.whole + frac), Pow10(|frac|)), NatOf(term.whole), band))
            else None
  {
    hide Lowest, Pow10, NumberText, ParseDecimal, ParseInt64, ReadRequest, NatOf;
    JsonNumberVerbatim(amount);
    JsonNumberVerbatim(term);
    MockReads(amount.Text(), term.Text(), band);
    MockReadsAmount(amount);
    if term.exponent.Some? {
      ExponentRejected(term);
    } else {
      WholeNumberParses(term);
    }
  }

  lemma MockReads(amount: string, term: string, band: string)
    requires NumberText(amount) == Some(amount) && NumberText(term) == Some(term)
    ensures var p, months := ParseDecimal(amount), ParseInt64(term);
            ReadRequest(amount, term, band) ==
            if && p.Parsed? && p.places <= 2 && 0 < p.value.num && months.Some? && 0 < months.value
               && band in {"A", "B", "C"}
            then Some(VendorRequest(p.value, months.value, band)) else None
  {
  }

  lemma MockReadsAmount(j: JsonNumber)
    requires j.Valid()
    ensures AllDigits(j.whole + j.FracDigits())
    ensures var p, n, places := ParseDecimal(j.Text()), NatOf(j.whole + j.FracDigits()), |j.FracDigits()|;
            if p.Parsed? && p.places <= 2 && 0 < p.value.num then
              && j.exponent.None? && !j.negative && places <= 2 && |j.Text()| <= 32 && 0 < n
              && p.value == Lowest(n, Pow10(places))
            else j.exponent.Some? || j.negative || 2 < places || 32 < |j.Text()| || n == 0
  {
    hide Lowest, Pow10, NatOf;
    NatOfConcat(j.whole, j.FracDigits());
    if j.exponent.Some? {
      ExponentRejected(j);
    } else {
      PlainNumberParses(j);
      var v: int := NatOf(j.whole + j.FracDigits());
      SignOfLowest(if j.negative then -v else v, Pow10(|j.FracDigits()|));
    }
  }

  lemma SignOfLowest(n: int, d: int)
    requires 0 < d
    ensures Lowest(n, d).num <= 0 <==> n <= 0
  {
    MulOrder(Lowest(n, d).num, 0, d);
    MulOrder(n, 0, Lowest(n, d).den);
  }

  // ------------------------------------------------------------ the way back

  // The two figures as the caller sees them, from the vendor's two raw tokens.
  function Relayed(rate: string, total: string): Option<Figures> {
    match (NumberText(rate), NumberText(total))
    case (Some(r), Some(t)) =>
      var pr, pt := ParseDecimal(r), ParseDecimal(t);
      if pr.Parsed? && pt.Parsed? then Some(Figures(Format(pr.value, 4), Format(pt.value, 2))) else None
    case _ => None
  }

  // It is what decoding the reply and encoding the answer does.
  lemma RelayedIsDecode(quoteId: string, rate: string, total: string)
    requires quoteId != ""
    ensures var a := Decode(Fields(quoteId, rate, total));
            && (a.err.None? <==> Relayed(rate, total).Some?)
            && (a.err.None? ==>
                  && a.quote.quoteId == quoteId && a.quote.rate.Valid() && a.quote.total.value.Valid()
                  && Relayed(rate, total) == Some(Figures(Format(a.quote.rate, 4), Format(a.quote.total.value, 2))))
  {
  }

  // An arbitrary accepted number comes back rounded half up to its places, and
  // unchanged exactly when it was already written that way.
  lemma RelayedRounds(rate: string, total: string)
    requires Relayed(rate, total).Some?
    ensures var r, t, out := NumberText(rate).value, NumberText(total).value, Relayed(rate, total).value;
            && IsHalfUp(Units(ParseDecimal(r).value, 4), ParseDecimal(r).value, 4)
            && IsHalfUp(Units(ParseDecimal(t).value, 2), ParseDecimal(t).value, 2)
            && out.rate == Render(Units(ParseDecimal(r).value, 4), 4)
            && out.total == Render(Units(ParseDecimal(t).value, 2), 2)
            && (out == Figures(r, t) <==> Canonical(r, 4) && Canonical(t, 2))
  {
    FormatOfParse(NumberText(rate).value, 4);
    FormatOfParse(NumberText(total).value, 2);
  }

  // Text the mock prints is relayed unchanged, unless it outgrows the guard.
  lemma PrintedIsRelayed(n: int, m: int)
    ensures Relayed(Render(n, 4), Render(m, 2)) ==
            if |Render(n, 4)| <= MAX_TEXT && |Render(m, 2)| <= MAX_TEXT
            then Some(Figures(Render(n, 4), Render(m, 2))) else None
  {
    NumberTextOfRender(n, 4);
    NumberTextOfRender(m, 2);
    ParseRender(n, 4);
    ParseRender(m, 2);
    UnitsOfLowest(n, 4);
    UnitsOfLowest(m, 2);
    FormatExact(Lowest(n, Pow10(4)), 4);
    FormatExact(Lowest(m, Pow10(2)), 2);
  }

  // At most 31 digits of cents, 30 below zero.
  predicate WithinGuard(cents: int) {
    Abs(cents) < Pow10(if cents < 0 then 30 else 31)
  }

  // The mock's figures for a request it accepts are relayed to the last byte
  // exactly when the total is below 10^31 cents. The mock accepts amounts large
  // enough to break that; the Middleware accepts none.
  lemma FiguresSurvive(req: VendorRequest, q: Priced)
    requires req.amount.Valid() && 0 < req.months && FitsInt64(req.months)
    requires Generate(req.amount, req.months, req.band) == Some(q)
    ensures q.Valid()
    ensures Relayed(q.Text().rate, q.Text().total) ==
            if WithinGuard(Units(q.total, 2)) then Some(q.Text()) else None
  {
    RateFormula(req.band, req.months);
    var n := RateUnits(req.band, req.months).value;
    RatePrinted(n);
    FormatExact(q.total, 2);
    RenderFits(Units(q.total, 2), 2);
    PrintedIsRelayed(n, Units(q.total, 2));
  }

  lemma RatePrinted(n: int)
    requires 0 <= n <= 255
    ensures Format(Lowest(n, 10000), 4) == Render(n, 4)
    ensures |Render(n, 4)| <= MAX_TEXT
  {
    assert Pow10(1) == 10 && Pow10(2) == 100 && Pow10(3) == 1000 && Pow10(4) == 10000;
    FormatExact(Lowest(n, 10000), 4);
    UnitsOfLowest(n, 4);
    RenderFits(n, 4);
    Pow10Monotone(3, 31);
  }

  // A request the mock accepts and prices, and whose reply the Middleware then
  // cannot read: 10^31 dollars, written in the 32 bytes the parser allows.
  lemma HugeTotalIsRefused(m: nat)
    requires m == Pow10(31)
    ensures var read := VendorRequest(Lowest(m, 1), 72, "C");
            && ReadRequest(Render(m, 0), IntText(72), "C") == Some(read)
            && var q := Generate(read.amount, 72, "C");
               q.Some? && Relayed(q.value.Text().rate, q.value.Text().total) == None
  {
    DollarsAreRead(m, 31, 72, "C");
    LowestSameValue(m, 1, m * 100, 100);
    HugeTotal(VendorRequest(Lowest(m, 1), 72, "C"), m);
  }

  lemma DollarsAreRead(n: nat, k: nat, months: int, band: string)
    requires 0 < n < Pow10(k + 1) && k < 32
    requires 0 < months && FitsInt64(months) && BaseRate(band).Some?
    ensures ReadRequest(Render(n, 0), IntText(months), band) == Some(VendorRequest(Lowest(n, 1), months, band))
  {
    NumberTextOfRender(n, 0);
    DigitCount(n, k + 1);
    ParseRender(n, 0);
    MulOrder(0, Lowest(n, 1).den, n);
    IntTextIsToken(months);
    ParseIntText(months);
  }

  lemma HugeTotal(read: VendorRequest, m: int)
    requires read.amount.Valid() && read.amount == Lowest(m * 100, 100) && read.months == 72 && read.band == "C"
    requires m == Pow10(31)
    ensures var q := Generate(read.amount, 72, "C");
            q.Some? && Relayed(q.value.Text().rate, q.value.Text().total) == None
  {
    hide Generate, Relayed;
    RateFormula("C", 72);
    var q := Generate(read.amount, 72, "C").value;
    PrintedFormula(read, m * 100, q);
    assert TotalCents(m * 100, 255) >= m;
    FiguresSurvive(read, q);
  }

  // What the caller sees of a validated request.
  function Journey(req: QuoteRequest): Option<Figures>
    requires req.amount.value.Valid()
  {
    match VendorReads(req)
    case None => None
    case Some(read) =>
      match Generate(read.amount, read.months, read.band)
      case None => None
      case Some(q) => Relayed(q.Text().rate, q.Text().total)
  }

  function TotalCents(cents: int, n: int): int {
    (cents * n + 5000) / 10000
  }

  // A request the Middleware accepts is priced and relayed byte for byte, with
  // the rate and the total of the integer formula, both within the business
  // range.
  lemma AcceptedIsRelayed(raw: RawRequest)
    requires Accepted(raw)
    ensures var req := Request(raw);
            var cents, n := Units(req.amount.value, 2), RateUnits(req.riskBand, req.months).value;
            && req.amount.value.Valid()
            && Journey(req) == Some(Figures(Render(n, 4), Render(TotalCents(cents, n), 2)))
            && 100 <= n <= 255 && 1000 <= TotalCents(cents, n) <= 12750000
  {
    var req := Request(raw);
    AcceptedIsNeverRefused(raw);
    AcceptedAmountInCents(raw.loanAmount);
    RateFormula(req.riskBand, req.months);
    PricedAndRelayed(VendorRequest(req.amount.value, req.months, req.riskBand), Units(req.amount.value, 2));
  }

  // The whole journey, read off the tokens: the caller of a request of JSON
  // numbers that is accepted sees the rate of the published card and the total
  // it makes of the very cents, months and band that were sent.
  lemma EndToEnd(amount: JsonNumber, term: JsonNumber, band: string)
    requires amount.Valid() && term.Valid() && Accepted(RawRequest(amount.Text(), term.Text(), Some(band)))
    ensures var req := Request(RawRequest(amount.Text(), term.Text(), Some(band)));
            var frac, months := amount.FracDigits(), NatOf(term.whole);
            && req.amount.value.Valid() && AllDigits(amount.whole + frac) && |frac| <= 2
            && var cents := NatOf(amount.whole + frac) * (if |frac| == 2 then 1 else if |frac| == 1 then 10 else 100);
               var n := (if band == "A" then 100 else if band == "B" then 150 else 225)
                        + (if months < 72 then 5 * (months / 12) else 30);
               && Journey(req) == Some(Figures(Render(n, 4), Render((cents * n + 5000) / 10000, 2)))
               && 1000 <= (cents * n + 5000) / 10000 <= 12750000
  {
    hide Journey, Lowest, Pow10, NatOf, Render, Request, RateUnits, Accepted;
    var raw := RawRequest(amount.Text(), term.Text(), Some(band));
    JsonRequestAccepted(amount, term, Some(band));
    JsonRequestIsRead(amount, term, band);
    AcceptedIsRelayed(raw);
    RateFormula(band, NatOf(term.whole));
    CentsOfDigits(NatOf(amount.whole + amount.FracDigits()), |amount.FracDigits()|);
  }

  lemma CentsOfDigits(m: nat, places: nat)
    requires places <= 2
    ensures Units(Lowest(m, Pow10(places)), 2) == m * (if places == 2 then 1 else if places == 1 then 10 else 100)
  {
    assert Pow10(1) == 10 && Pow10(2) == 100;
    var n := m * Pow10(2 - places);
    LowestSameValue(m, Pow10(places), n, 100);
    UnitsOfLowest(n, 2);
  }

  lemma PricedAndRelayed(read: VendorRequest, cents: int)
    requires read.amount.Valid() && read.amount == Lowest(cents, 100) && 100000 <= cents <= 500000000
    requires BaseRate(read.band).Some? && 0 < read.months && FitsInt64(read.months)
    ensures var n := RateUnits(read.band, read.months).value;
            var q := Generate(read.amount, read.months, read.band);
            && Relayed(q.value.Text().rate, q.value.Text().total)
               == Some(Figures(Render(n, 4), Render(TotalCents(cents, n), 2)))
            && 1000 <= TotalCents(cents, n) <= 12750000
  {
    RateFormula(read.band, read.months);
    var n := RateUnits(read.band, read.months).value;
    var q := Generate(read.amount, read.months, read.band).value;
    PrintedFormula(read, cents, q);
    TotalInRange(cents, n);
    BelowGuard(TotalCents(cents, n));
    FiguresSurvive(read, q);
  }

  // The mock's printed figures are those of the integer formula.
  lemma PrintedFormula(read: VendorRequest, cents: int, q: Priced)
    requires read.amount.Valid() && read.amount == Lowest(cents, 100)
    requires 0 < read.months && FitsInt64(read.months)
    requires Generate(read.amount, read.months, read.band) == Some(q)
    ensures var n := RateUnits(read.band, read.months).value;
            && q.Valid() && Units(q.total, 2) == TotalCents(cents, n)
            && q.Text() == Figures(Render(n, 4), Render(TotalCents(cents, n), 2))
  {
    RateFormula(read.band, read.months);
    var n := RateUnits(read.band, read.months).value;
    TotalInCents(read.amount, cents, n);
    RatePrinted(n);
    FormatExact(q.total, 2);
  }

  // Every request the mock accepts is for whole cents, and what it answers comes
  // back to the last byte exactly when the integer formula stays below 10^31.
  lemma RelayedBelowGuard(loanAmount: string, term: string, band: string)
    requires ReadRequest(loanAmount, term, band).Some?
    ensures var read := ReadRequest(loanAmount, term, band).value;
            var cents, n := Units(read.amount, 2), RateUnits(read.band, read.months).value;
            var q := Generate(read.amount, read.months, read.band);
            && read.amount == Lowest(cents, 100)
            && q.Some? && Relayed(q.value.Text().rate, q.value.Text().total) ==
                          if TotalCents(cents, n) < Pow10(31)
                          then Some(Figures(Render(n, 4), Render(TotalCents(cents, n), 2))) else None
  {
    hide Relayed, Generate;
    var read := ReadRequest(loanAmount, term, band).value;
    var cents := Units(read.amount, 2);
    var m := ParsedFraction(NumberText(loanAmount).value);
    ParsedInCents(m, ParseDecimal(NumberText(loanAmount).value).places);
    RateFormula(read.band, read.months);
    var n := RateUnits(read.band, read.months).value;
    CentsArePositive(read.amount, cents);
    MulOrder(0, cents, n);
    var q := Generate(read.amount, read.months, read.band).value;
    PrintedFormula(read, cents, q);
    FiguresSurvive(read, q);
  }

  lemma CentsArePositive(amount: Rat, cents: int)
    requires 0 < amount.num && 0 < amount.den && amount == Lowest(cents, 100)
    ensures 0 < cents
  {
    MulOrder(amount.num, 0, 100);
    MulOrder(cents, 0, amount.den);
  }

  lemma BelowGuard(total: int)
    requires 0 <= total <= 12750000
    ensures WithinGuard(total)
  {
    Pow10Monotone(8, 31);
    assert Pow10(8) == 100000000;
  }

  lemma TotalInRange(cents: int, n: int)
    requires 100000 <= cents <= 500000000 && 100 <= n <= 255
    ensures 1000 <= TotalCents(cents, n) <= 12750000
  {
    MulOrder(cents, 500000000, n);
    MulOrder(100000, cents, n);
  }
}
