// Raw JSON tokens, as json.RawMessage keeps them, and the numbers they spell.
module Tokens {
  import opened Arith
  import opened Decimal
  import opened Money

  predicate IsSpace(c: char) {
    9 <= c as int <= 13 || c == ' '
  }

  // strings.TrimSpace, on ASCII white space.
  function TrimLeft(s: string): string {
    if s != "" && IsSpace(s[0]) then TrimLeft(s[1..]) else s
  }

  function TrimRight(s: string): string {
    if s != "" && IsSpace(s[|s| - 1]) then TrimRight(s[..|s| - 1]) else s
  }

  function TrimSpace(s: string): string {
    TrimRight(TrimLeft(s))
  }

  // numberText: the trimmed token, unless it is absent, null or quoted.
  function NumberText(raw: string): Option<string> {
    var s := TrimSpace(raw);
    if s == "" || s == "null" || s[0] == '"' then None else Some(s)
  }

  predicate AllSpace(s: string) {
    forall c | c in s :: IsSpace(c)
  }

  predicate Tight(s: string) {
    s == "" || (!IsSpace(s[0]) && !IsSpace(s[|s| - 1]))
  }

  lemma {:induction false} TrimLeftTakes(space: string, s: string)
    requires AllSpace(space) && (s == "" || !IsSpace(s[0]))
    ensures TrimLeft(space + s) == s
    decreases |space|
  {
    if space == "" {
      assert space + s == s;
    } else {
      assert (space + s)[1..] == space[1..] + s;
      TrimLeftTakes(space[1..], s);
    }
  }

  lemma {:induction false} TrimRightTakes(s: string, space: string)
    requires AllSpace(space) && (s == "" || !IsSpace(s[|s| - 1]))
    ensures TrimRight(s + space) == s
    decreases |space|
  {
    if space == "" {
      assert s + space == s;
    } else {
      var init := space[..|space| - 1];
      assert (s + space)[..|s + space| - 1] == s + init;
      TrimRightTakes(s, init);
    }
  }

  // The white space around a token goes, and nothing else; an absent, null or
  // quoted token is no number.
  lemma NumberTextExactly(left: string, s: string, right: string)
    requires AllSpace(left) && Tight(s) && AllSpace(right)
    ensures NumberText(left + s + right) ==
            if s == "" || s == "null" || s[0] == '"' then None else Some(s)
  {
    Associate(left, s, right);
    if s == "" {
      assert left + s + right == (left + right) + "";
      TrimLeftTakes(left + right, "");
    } else {
      TrimLeftTakes(left, s + right);
      TrimRightTakes(s, right);
    }
  }

  // A token that starts with a digit or minus and does not end in white space
  // is taken as it stands.
  lemma NumberTextVerbatim(s: string)
    requires s != "" && (IsDigit(s[0]) || s[0] == '-') && !IsSpace(s[|s| - 1])
    ensures NumberText(s) == Some(s)
  {
  }

  lemma NumberTextOfRender(n: int, places: nat)
    ensures NumberText(Render(n, places)) == Some(Render(n, places))
  {
    var whole, frac := RenderParts(n, places);
    PointedVerbatim(n < 0, whole, frac);
  }

  lemma PointedVerbatim(negative: bool, whole: string, frac: string)
    requires IsNumeral(whole) && AllDigits(frac)
    ensures NumberText(Pointed(negative, whole, frac)) == Some(Pointed(negative, whole, frac))
  {
    PointedSign(negative, whole, frac);
    EndsInDigit(whole, frac);
    NumberTextVerbatim(Pointed(negative, whole, frac));
  }

  lemma EndsInDigit(whole: string, frac: string)
    requires IsNumeral(whole) && AllDigits(frac)
    ensures IsDigit(WithPoint(whole, frac)[|WithPoint(whole, frac)| - 1])
  {
    var last := if frac == "" then whole[|whole| - 1] else frac[|frac| - 1];
    assert WithPoint(whole, frac)[|WithPoint(whole, frac)| - 1] == last;
  }

  // A number of section 6 of RFC 8259: optional minus, a whole part without
  // superfluous zeros, an optional fraction and an optional exponent.
  datatype JsonNumber = JsonNumber(negative: bool, whole: string, frac: Option<string>, exponent: Option<Exponent>)
  {
    predicate Valid() {
      && IsNumeral(whole) && (whole == "0" || whole[0] != '0')
      && (frac.Some? ==> IsNumeral(frac.value))
      && (exponent.Some? ==> IsNumeral(exponent.value.digits))
    }

    function FracDigits(): string {
      if frac.Some? then frac.value else ""
    }

    function Text(): string {
      Pointed(negative, whole, FracDigits()) + (if exponent.Some? then exponent.value.Text() else "")
    }
  }

  datatype Exponent = Exponent(upper: bool, sign: Option<bool>, digits: string)
  {
    function Text(): (s: string)
      ensures |s| > |digits| && s[0] in "eE" && s[|s| - |digits|..] == digits
    {
      (if upper then "E" else "e") + (if sign.None? then "" else if sign.value then "-" else "+") + digits
    }
  }

  lemma JsonNumberVerbatim(j: JsonNumber)
    requires j.Valid()
    ensures NumberText(j.Text()) == Some(j.Text())
  {
    var front := Pointed(j.negative, j.whole, j.FracDigits());
    if j.exponent.Some? {
      PointedSign(j.negative, j.whole, j.FracDigits());
      var e := j.exponent.value.Text();
      var digits := j.exponent.value.digits;
      assert e[|e| - 1] == digits[|digits| - 1];
      NumberTextVerbatim(front + e);
    } else {
      PointedVerbatim(j.negative, j.whole, j.FracDigits());
      assert j.Text() == front;
    }
  }

  // Text with an exponent is neither a plain decimal nor an integer.
  lemma ExponentRejected(j: JsonNumber)
    requires j.Valid() && j.exponent.Some?
    ensures !ParseDecimal(j.Text()).Parsed? && ParseInt64(j.Text()).None?
  {
    var front, e := Pointed(j.negative, j.whole, j.FracDigits()), j.exponent.value.Text();
    PointedSign(j.negative, j.whole, j.FracDigits());
    UnsignedAppend(front, e);
    ExponentInBody(j.whole, j.FracDigits(), e);
    BodyRejected(front + e, WithPoint(j.whole, j.FracDigits()) + e);
  }

  lemma BodyRejected(text: string, body: string)
    requires Unsigned(text) == body && !IsNumeral(body)
    requires !IsNumeral(CutAtDot(body).before) || (CutAtDot(body).found && !IsNumeral(CutAtDot(body).after))
    ensures !ParseDecimal(text).Parsed? && ParseInt64(text).None?
  {
  }

  lemma ExponentInBody(whole: string, frac: string, e: string)
    requires IsNumeral(whole) && AllDigits(frac) && e != "" && e[0] in "eE"
    ensures var body := WithPoint(whole, frac) + e;
            var cut := CutAtDot(body);
            && !IsNumeral(body)
            && (!IsNumeral(cut.before) || (cut.found && !IsNumeral(cut.after)))
  {
    var body := WithPoint(whole, frac) + e;
    assert body[|WithPoint(whole, frac)|] == e[0];
    if frac == "" {
      assert WithPoint(whole, frac) == whole;
      NoDotBefore(whole, e);
      CutBeforeOf(body, |whole|);
    } else {
      assert WithPoint(whole, frac) + e == whole + "." + (frac + e);
      CutJoined(whole, frac + e);
      assert (frac + e)[|frac|] == e[0];
    }
  }

  lemma UnsignedAppend(front: string, e: string)
    requires front != ""
    ensures Unsigned(front + e) == Unsigned(front) + e
  {
  }

  lemma NoDotBefore(whole: string, e: string)
    requires AllDigits(whole) && e != "" && e[0] != '.'
    ensures forall i | 0 <= i <= |whole| :: (whole + e)[i] != '.'
  {
  }

  // Without a dot up to position `at`, the part before the first dot reaches it.
  lemma {:induction false} CutBeforeOf(s: string, at: nat)
    requires at < |s| && forall i | 0 <= i <= at :: s[i] != '.'
    ensures at < |CutAtDot(s).before| && CutAtDot(s).before[at] == s[at]
  {
    if at != 0 {
      CutBeforeOf(s[1..], at - 1);
    }
  }

  lemma PlainNumberText(j: JsonNumber)
    requires j.exponent.None?
    ensures j.Text() == Pointed(j.negative, j.whole, j.FracDigits())
  {
    assert Pointed(j.negative, j.whole, j.FracDigits()) + "" == Pointed(j.negative, j.whole, j.FracDigits());
  }

  lemma PlainNumberParses(j: JsonNumber)
    requires j.Valid() && j.exponent.None?
    ensures AllDigits(j.whole + j.FracDigits())
    ensures var v := NatOf(j.whole + j.FracDigits()) as int;
            ParseDecimal(j.Text()) ==
            if |j.Text()| <= MAX_TEXT
            then Parsed(Lowest(if j.negative then -v else v, Pow10(|j.FracDigits()|)), |j.FracDigits()|)
            else TooLong
  {
    PlainNumberText(j);
    ParsePointed(j.negative, j.whole, j.FracDigits());
  }

  lemma WholeNumberParses(j: JsonNumber)
    requires j.Valid() && j.exponent.None?
    ensures var v: int := NatOf(j.whole);
            var n := if j.negative then -v else v;
            ParseInt64(j.Text()) == if j.frac.None? && FitsInt64(n) then Some(n) else None
  {
    PointedSign(j.negative, j.whole, j.FracDigits());
    PlainNumberText(j);
    if j.frac.Some? {
      assert WithPoint(j.whole, j.frac.value)[|j.whole|] == '.';
    } else {
      assert WithPoint(j.whole, "") == j.whole;
    }
  }
}
