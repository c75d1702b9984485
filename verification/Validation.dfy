// internal/cqappmiddleware/validate.go: the authoritative checks on a decoded
// request body.
module Validation {
  import opened Arith
  import opened Decimal
  import opened Money
  import opened Tokens

  // The decoded body: raw number tokens, empty when the field is absent, and
  // the band, None when it is absent or null.
  datatype RawRequest = RawRequest(loanAmount: string, term: string, riskBand: Option<string>)

  datatype QuoteRequest = QuoteRequest(amount: Amount, months: int, riskBand: string)

  datatype Field = LoanAmount | LoanTermInMonths | RiskBand

  datatype Code = AmountInvalid | AmountPrecision | AmountOutOfRange
                | TermInvalid | TermNotInteger | TermOutOfRange | RiskBandInvalid

  datatype FieldError = FieldError(field: Field, code: Code)

  const MIN_AMOUNT := "1000.00"
  const MAX_AMOUNT := "5000000.00"
  const MIN_MONTHS := 6
  const MAX_MONTHS := 360
  const MAX_AMOUNT_DECIMALS := 2
  const VALID_BANDS := ["A", "B", "C"]

  // What an amount token, a term token and a band each come to on their own.
  datatype Checked<T> = Fine(value: T) | Faulty(error: FieldError)
  {
    function Errors(): seq<FieldError> {
      if Fine? then [] else [error]
    }

    function Or(default: T): T {
      if Fine? then value else default
    }
  }

  function CheckAmount(raw: string): Checked<Amount> {
    match NumberText(raw)
    case None => Faulty(FieldError(LoanAmount, AmountInvalid))
    case Some(text) =>
      var p := ParseDecimal(text);
      if !p.Parsed? then Faulty(FieldError(LoanAmount, AmountInvalid))
      else if p.places > MAX_AMOUNT_DECIMALS then Faulty(FieldError(LoanAmount, AmountPrecision))
      else if !AtMost(Whole(1000), p.value) || !AtMost(p.value, Whole(5000000)) then
        Faulty(FieldError(LoanAmount, AmountOutOfRange))
      else Fine(Amount(p.value, p.places))
  }

  function CheckTerm(raw: string): Checked<int> {
    match NumberText(raw)
    case None => Faulty(FieldError(LoanTermInMonths, TermInvalid))
    case Some(text) =>
      match ParseInt64(text)
      case None =>
        Faulty(FieldError(LoanTermInMonths,
                          if '.' in text || 'e' in text || 'E' in text then TermNotInteger else TermInvalid))
      case Some(months) =>
        if months < MIN_MONTHS || months > MAX_MONTHS then Faulty(FieldError(LoanTermInMonths, TermOutOfRange))
        else Fine(months)
  }

  function CheckBand(raw: Option<string>): Checked<string> {
    if raw.None? || raw.value !in VALID_BANDS then Faulty(FieldError(RiskBand, RiskBandInvalid))
    else Fine(raw.value)
  }

  predicate Accepted(raw: RawRequest) {
    CheckAmount(raw.loanAmount).Fine? && CheckTerm(raw.term).Fine? && CheckBand(raw.riskBand).Fine?
  }

  function Request(raw: RawRequest): QuoteRequest {
    QuoteRequest(CheckAmount(raw.loanAmount).Or(Amount(Rat(0, 1), 0)),
                 CheckTerm(raw.term).Or(0),
                 CheckBand(raw.riskBand).Or(""))
  }

  method Contains(all: seq<string>, want: string) returns (found: bool)
    ensures found == (want in all)
  {
    for i := 0 to |all|
      invariant want !in all[..i]
    {
      if all[i] == want {
        return true;
      }
    }
    assert all[..|all|] == all;
    return false;
  }

  // The bounds are written as text and parsed.
  lemma MinAmountParses()
    ensures ParseDecimal(MIN_AMOUNT) == Parsed(Whole(1000), 2)
  {
    BoundParses(MIN_AMOUNT, '1', 3, 1000);
  }

  lemma MaxAmountParses()
    ensures ParseDecimal(MAX_AMOUNT) == Parsed(Whole(5000000), 2)
  {
    BoundParses(MAX_AMOUNT, '5', 6, 5000000);
  }

  // One digit, k zeros, and two more after the point.
  lemma BoundParses(text: string, c: char, k: nat, n: nat)
    requires IsDigit(c) && k < 10 && n == DigitValue(c) * Pow10(k)
    requires |text| == k + 4 && text[0] == c && text[k + 1] == '.'
    requires forall i | 1 <= i < |text| && i != k + 1 :: text[i] == '0'
    ensures ParseDecimal(text) == Parsed(Whole(n), 2)
  {
    var whole, frac := [c] + Zeros(k), Zeros(2);
    assert text == Pointed(false, whole, frac) by {
      assert text == whole + ("." + frac);
    }
    RoundNumber(c, k, n);
    NatOfZeros(2);
    WholeWithCents(whole, frac, n);
  }

  lemma WholeWithCents(whole: string, frac: string, n: nat)
    requires IsNumeral(whole) && |whole| <= 29 && NatOf(whole) == n
    requires AllDigits(frac) && |frac| == 2 && NatOf(frac) == 0
    ensures ParseDecimal(Pointed(false, whole, frac)) == Parsed(Whole(n), 2)
  {
    NatOfConcat(whole, frac);
    ParsePointed(false, whole, frac);
    LowestOfMultiple(n, Pow10(2));
  }

  lemma LowestOfMultiple(n: int, p: int)
    requires 0 < p
    ensures Lowest(n * p, p) == Whole(n)
  {
    LowestIsUnique(Lowest(n * p, p), Whole(n));
  }

  lemma RoundNumber(c: char, k: nat, n: nat)
    requires IsDigit(c) && n == DigitValue(c) * Pow10(k)
    ensures AllDigits([c] + Zeros(k)) && NatOf([c] + Zeros(k)) == n
  {
    assert [c][..0] == "";
    NatOfConcat([c], Zeros(k));
    NatOfZeros(k);
  }

  // Every failure is collected: the report is, in fixed order, what each field
  // comes to on its own, so no field's verdict depends on another's.
  method Validate(raw: RawRequest) returns (out: QuoteRequest, errs: seq<FieldError>)
    ensures errs == CheckAmount(raw.loanAmount).Errors() + CheckTerm(raw.term).Errors()
                    + CheckBand(raw.riskBand).Errors()
    ensures out == Request(raw)
    ensures errs == [] <==> Accepted(raw)
  {
    out := QuoteRequest(Amount(Rat(0, 1), 0), 0, "");
    errs := [];
    out, errs := ValidateAmount(raw.loanAmount, out, errs);
    out, errs := ValidateTerm(raw.term, out, errs);

    if raw.riskBand.None? {
      errs := errs + [FieldError(RiskBand, RiskBandInvalid)];
    } else {
      var known := Contains(VALID_BANDS, raw.riskBand.value);
      if !known {
        errs := errs + [FieldError(RiskBand, RiskBandInvalid)];
      } else {
        out := out.(riskBand := raw.riskBand.value);
      }
    }
  }

  method ValidateAmount(raw: string, out: QuoteRequest, errs: seq<FieldError>)
    returns (out': QuoteRequest, errs': seq<FieldError>)
    ensures errs' == errs + CheckAmount(raw).Errors()
    ensures out' == out.(amount := CheckAmount(raw).Or(out.amount))
  {
    MinAmountParses();
    MaxAmountParses();
    out', errs' := out, errs;
    var text := NumberText(raw);
    if text.None? {
      errs' := errs' + [FieldError(LoanAmount, AmountInvalid)];
    } else {
      var minAmt, maxAmt := ParseDecimal(MIN_AMOUNT).value, ParseDecimal(MAX_AMOUNT).value;
      var amount := ParseDecimal(text.value);
      if !amount.Parsed? {
        errs' := errs' + [FieldError(LoanAmount, AmountInvalid)];
      } else if amount.places > MAX_AMOUNT_DECIMALS {
        errs' := errs' + [FieldError(LoanAmount, AmountPrecision)];
      } else if !AtMost(minAmt, amount.value) || !AtMost(amount.value, maxAmt) {
        errs' := errs' + [FieldError(LoanAmount, AmountOutOfRange)];
      } else {
        out' := out'.(amount := Amount(amount.value, amount.places));
      }
    }
  }

  method ValidateTerm(raw: string, out: QuoteRequest, errs: seq<FieldError>)
    returns (out': QuoteRequest, errs': seq<FieldError>)
    ensures errs' == errs + CheckTerm(raw).Errors()
    ensures out' == out.(months := CheckTerm(raw).Or(out.months))
  {
    out', errs' := out, errs;
    var text := NumberText(raw);
    if text.None? {
      errs' := errs' + [FieldError(LoanTermInMonths, TermInvalid)];
    } else {
      var months := ParseInt64(text.value);
      if months.None? && ('.' in text.value || 'e' in text.value || 'E' in text.value) {
        errs' := errs' + [FieldError(LoanTermInMonths, TermNotInteger)];
      } else if months.None? {
        errs' := errs' + [FieldError(LoanTermInMonths, TermInvalid)];
      } else if months.value < MIN_MONTHS || months.value > MAX_MONTHS {
        errs' := errs' + [FieldError(LoanTermInMonths, TermOutOfRange)];
      } else {
        out' := out'.(months := months.value);
      }
    }
  }

  // ------------------------------------------- acceptance of JSON numbers

  // A fraction n/d against a whole number.
  lemma AgainstWhole(n: int, d: int, m: int)
    requires 0 < d
    ensures AtMost(Whole(m), Lowest(n, d)) <==> m * d <= n
    ensures AtMost(Lowest(n, d), Whole(m)) <==> n <= m * d
  {
    var r := Lowest(n, d);
    AgainstWholeTerms(n, d, m, r.num, r.den);
  }

  lemma AgainstWholeTerms(n: int, d: int, m: int, a: int, b: int)
    requires 0 < d && 0 < b && a * d == n * b
    ensures m * b <= a <==> m * d <= n
    ensures a <= m * b <==> n <= m * d
  {
    MulOrder(m * b, a, d);
    MulOrder(a, m * b, d);
    MulOrder(m * d, n, b);
    MulOrder(n, m * d, b);
    assert (m * b) * d == (m * d) * b;
  }

  // The published schema, read off the digits: no exponent, at most two
  // fraction digits, and a value from 1000 to 5000000.
  ghost predicate PublishedAmount(j: JsonNumber)
    requires j.Valid()
  {
    var frac := j.FracDigits();
    && j.exponent.None? && !j.negative && |frac| <= 2
    && AllDigits(j.whole + frac)
    && 1000 * Pow10(|frac|) <= NatOf(j.whole + frac) <= 5000000 * Pow10(|frac|)
  }

  // An amount in range is short, so the 32-byte guard never turns it away.
  lemma PublishedAmountIsShort(j: JsonNumber)
    requires j.Valid() && PublishedAmount(j)
    ensures |j.Text()| <= 10
  {
    var frac := j.FracDigits();
    NatOfConcat(j.whole, frac);
    MulOrder(NatOf(j.whole), 5000000, Pow10(|frac|));
    if j.whole != "0" {
      LeadingDigit(j.whole);
      assert Pow10(7) == 10000000;
      if 8 <= |j.whole| {
        Pow10Monotone(7, |j.whole| - 1);
      }
    }
    PlainNumberText(j);
  }

  // The amount's verdict on any JSON number.
  lemma AmountVerdict(j: JsonNumber)
    requires j.Valid()
    ensures AllDigits(j.whole + j.FracDigits())
    ensures var frac := j.FracDigits();
            CheckAmount(j.Text()).Errors() ==
            if j.exponent.Some? || |j.Text()| > MAX_TEXT then [FieldError(LoanAmount, AmountInvalid)]
            else if |frac| > 2 then [FieldError(LoanAmount, AmountPrecision)]
            else if PublishedAmount(j) then []
            else [FieldError(LoanAmount, AmountOutOfRange)]
  {
    JsonNumberVerbatim(j);
    NatOfConcat(j.whole, j.FracDigits());
    if j.exponent.Some? {
      ExponentRejected(j);
    } else {
      PlainNumberParses(j);
      var v: int := NatOf(j.whole + j.FracDigits());
      DecimalInRange(if j.negative then -v else v, |j.FracDigits()|);
    }
  }

  lemma AmountTokenAccepted(j: JsonNumber)
    requires j.Valid()
    ensures CheckAmount(j.Text()).Fine? <==> PublishedAmount(j)
  {
    AmountVerdict(j);
    if PublishedAmount(j) {
      PublishedAmountIsShort(j);
    }
  }

  lemma DecimalInRange(n: int, places: nat)
    ensures var v := Lowest(n, Pow10(places));
            AtMost(Whole(1000), v) && AtMost(v, Whole(5000000)) <==>
            1000 * Pow10(places) <= n <= 5000000 * Pow10(places)
  {
    AgainstWhole(n, Pow10(places), 1000);
    AgainstWhole(n, Pow10(places), 5000000);
  }

  // An integer literal from 6 to 360.
  ghost predicate PublishedTerm(j: JsonNumber)
    requires j.Valid()
  {
    j.exponent.None? && j.frac.None? && !j.negative && 6 <= NatOf(j.whole) <= 360
  }

  // The term's verdict on any JSON number: a fraction or an exponent is not an
  // integer, whatever its value; an integer beyond int64 is invalid.
  lemma TermVerdict(j: JsonNumber)
    requires j.Valid()
    ensures var v: int := NatOf(j.whole);
            CheckTerm(j.Text()).Errors() ==
            if j.exponent.Some? || j.frac.Some? then [FieldError(LoanTermInMonths, TermNotInteger)]
            else if !FitsInt64(if j.negative then -v else v) then [FieldError(LoanTermInMonths, TermInvalid)]
            else if PublishedTerm(j) then []
            else [FieldError(LoanTermInMonths, TermOutOfRange)]
  {
    JsonNumberVerbatim(j);
    if j.exponent.Some? {
      ExponentRejected(j);
      ExponentLetter(j);
    } else {
      WholeNumberParses(j);
      PlainNumberText(j);
      PointInText(j.negative, j.whole, j.FracDigits());
    }
  }

  lemma ExponentLetter(j: JsonNumber)
    requires j.exponent.Some?
    ensures 'e' in j.Text() || 'E' in j.Text()
  {
    var front, e := Pointed(j.negative, j.whole, j.FracDigits()), j.exponent.value.Text();
    assert (front + e)[|front|] == e[0];
  }

  lemma PointInText(negative: bool, whole: string, frac: string)
    requires IsNumeral(whole) && AllDigits(frac)
    ensures var text := Pointed(negative, whole, frac);
            ('.' in text <==> frac != "") && 'e' !in text && 'E' !in text
  {
    var text := Pointed(negative, whole, frac);
    if frac != "" {
      assert text[|text| - |frac| - 1] == '.';
    }
    forall i | 0 <= i < |text| ensures text[i] == '-' || IsDigit(text[i]) || (frac != "" && text[i] == '.') {
    }
  }

  lemma TermTokenAccepted(j: JsonNumber)
    requires j.Valid()
    ensures CheckTerm(j.Text()).Fine? <==> PublishedTerm(j)
  {
    TermVerdict(j);
  }

  lemma JsonRequestAccepted(amount: JsonNumber, term: JsonNumber, band: Option<string>)
    requires amount.Valid() && term.Valid()
    ensures Accepted(RawRequest(amount.Text(), term.Text(), band)) <==>
            PublishedAmount(amount) && PublishedTerm(term)
            && (band == Some("A") || band == Some("B") || band == Some("C"))
  {
    AmountTokenAccepted(amount);
    TermTokenAccepted(term);
  }

  // ------------------------------------------------- what was accepted

  // Whatever token it came in, an accepted amount is what the token's text
  // parses to, an accepted term is the integer it spells, and the band is the
  // band that was sent.
  lemma RequestIsRead(raw: RawRequest)
    requires Accepted(raw)
    ensures var req, amount, term := Request(raw), NumberText(raw.loanAmount), NumberText(raw.term);
            && amount.Some? && ParseDecimal(amount.value) == Parsed(req.amount.value, req.amount.scale)
            && term.Some? && ParseInt64(term.value) == Some(req.months) && 6 <= req.months <= 360
            && raw.riskBand == Some(req.riskBand) && req.riskBand in {"A", "B", "C"}
  {
  }

  // And of JSON numbers, it is the number their digits write.
  lemma JsonRequestIsRead(amount: JsonNumber, term: JsonNumber, band: string)
    requires amount.Valid() && term.Valid() && Accepted(RawRequest(amount.Text(), term.Text(), Some(band)))
    ensures var frac := amount.FracDigits();
            && AllDigits(amount.whole + frac)
            && Request(RawRequest(amount.Text(), term.Text(), Some(band))) ==
               QuoteRequest(Amount(Lowest(NatOf(amount.whole + frac), Pow10(|frac|)), |frac|),
                            NatOf(term.whole), band)
  {
    var raw := RawRequest(amount.Text(), term.Text(), Some(band));
    JsonRequestAccepted(amount, term, Some(band));
    RequestIsRead(raw);
    JsonNumberVerbatim(amount);
    JsonNumberVerbatim(term);
    PlainNumberParses(amount);
    WholeNumberParses(term);
  }

  // A field that is absent, null, quoted, or no plain number is reported as
  // invalid, and so is any band but three.
  lemma FieldsReportedInvalid(raw: string, band: Option<string>)
    ensures NumberText(raw).None? || !ParseDecimal(NumberText(raw).value).Parsed? ==>
              CheckAmount(raw).Errors() == [FieldError(LoanAmount, AmountInvalid)]
    ensures NumberText(raw).None? ==> CheckTerm(raw).Errors() == [FieldError(LoanTermInMonths, TermInvalid)]
    ensures CheckBand(band).Errors() ==
            if band == Some("A") || band == Some("B") || band == Some("C") then []
            else [FieldError(RiskBand, RiskBandInvalid)]
  {
  }

  // An accepted amount is a whole number of cents in range.
  lemma AcceptedAmountInCents(raw: string)
    requires CheckAmount(raw).Fine?
    ensures var a := CheckAmount(raw).value;
            && a.value.Valid() && a.value == Lowest(Units(a.value, 2), 100)
            && 100000 <= Units(a.value, 2) <= 500000000
  {
    var text := NumberText(raw).value;
    var v, places := ParseDecimal(text).value, ParseDecimal(text).places;
    var m := ParsedFraction(text);
    ParsedInCents(m, places);
    var n := Units(v, 2);
    AgainstWhole(n, 100, 1000);
    AgainstWhole(n, 100, 5000000);
  }

  lemma ParsedFraction(text: string) returns (m: int)
    requires ParseDecimal(text).Parsed?
    ensures ParseDecimal(text).value == Lowest(m, Pow10(ParseDecimal(text).places))
  {
    var cut := CutAtDot(Unsigned(text));
    var v: int := NatOf(cut.before + cut.after);
    m := if text[0] == '-' then -v else v;
  }

  // At most two places make a whole number of cents.
  lemma ParsedInCents(m: int, places: nat)
    requires places <= 2
    ensures Pow10(2) == 100
    ensures Lowest(m, Pow10(places)) == Lowest(Units(Lowest(m, Pow10(places)), 2), 100)
  {
    assert Pow10(1) == 10 && Pow10(2) == 100;
    var n := m * Pow10(2 - places);
    LowestSameValue(m, Pow10(places), n, 100);
    UnitsOfLowest(n, 2);
  }
}
