// Decimal text: the digits of a natural number, the number a digit string
// denotes, and Go's base-10 integer parsing and printing. A character stands
// for one byte of the text.
module Decimal {
  import opened Arith

  datatype Option<+T> = None | Some(value: T)

  predicate IsDigit(c: char) {
    '0' <= c <= '9'
  }

  function DigitValue(c: char): (d: nat)
    requires IsDigit(c)
    ensures d < 10
  {
    c as int - '0' as int
  }

  function DigitChar(d: nat): (c: char)
    requires d < 10
    ensures IsDigit(c) && DigitValue(c) == d
  {
    ('0' as int + d) as char
  }

  predicate AllDigits(s: string) {
    forall i | 0 <= i < |s| :: IsDigit(s[i])
  }

  // What Go's allDigits accepts: at least one byte, every byte a digit.
  predicate IsNumeral(s: string) {
    s != "" && AllDigits(s)
  }

  method ScanDigits(s: string) returns (ok: bool)
    ensures ok == IsNumeral(s)
  {
    if s == "" {
      return false;
    }
    for i := 0 to |s|
      invariant AllDigits(s[..i])
    {
      if s[i] < '0' || s[i] > '9' {
        return false;
      }
      assert s[..i + 1] == s[..i] + [s[i]];
    }
    assert s[..|s|] == s;
    return true;
  }

  // The number a digit string denotes; the empty string denotes zero.
  function NatOf(s: string): nat
    requires AllDigits(s)
  {
    if s == "" then 0 else NatOf(s[..|s| - 1]) * 10 + DigitValue(s[|s| - 1])
  }

  // The digits of n, without leading zeros.
  function Digits(n: nat): (s: string)
    ensures IsNumeral(s)
  {
    if n < 10 then [DigitChar(n)] else Digits(n / 10) + [DigitChar(n % 10)]
  }

  function Zeros(k: nat): (s: string)
    ensures |s| == k && AllDigits(s)
  {
    seq(k, _ => '0')
  }

  // The digits of n, padded on the left to at least width characters.
  function Padded(n: nat, width: nat): (s: string)
    ensures IsNumeral(s) && |s| == if |Digits(n)| < width then width else |Digits(n)|
  {
    var d := Digits(n);
    Zeros(if |d| < width then width - |d| else 0) + d
  }

  lemma {:induction false} NatOfDigits(n: nat)
    ensures NatOf(Digits(n)) == n
  {
    if n < 10 {
      assert Digits(n)[..0] == "";
    } else {
      NatOfDigits(n / 10);
      var s := Digits(n);
      assert s[..|s| - 1] == Digits(n / 10);
    }
  }

  lemma {:induction false} NatOfConcat(a: string, b: string)
    requires AllDigits(a) && AllDigits(b)
    ensures AllDigits(a + b) && NatOf(a + b) == NatOf(a) * Pow10(|b|) + NatOf(b)
  {
    if b == "" {
      assert a + b == a;
    } else {
      var b' := b[..|b| - 1];
      NatOfConcat(a, b');
      assert (a + b)[..|a + b| - 1] == a + b';
      ScaleByTen(NatOf(a), Pow10(|b'|));
    }
  }

  lemma ScaleByTen(x: nat, p: nat)
    ensures (x * p) * 10 == x * (10 * p)
  {
  }

  lemma {:induction false} NatOfBound(s: string)
    requires AllDigits(s)
    ensures NatOf(s) < Pow10(|s|)
  {
    if s != "" {
      NatOfBound(s[..|s| - 1]);
    }
  }

  lemma {:induction false} NatOfZeros(k: nat)
    ensures NatOf(Zeros(k)) == 0
  {
    if k != 0 {
      NatOfZeros(k - 1);
      assert Zeros(k)[..k - 1] == Zeros(k - 1);
    }
  }

  // Each digit stands for what it looks like.
  lemma DigitsInOrder(d: nat)
    requires d < 10
    ensures NatOf(["0123456789"[d]]) == d && Digits(d) == ["0123456789"[d]]
  {
    var s := ["0123456789"[d]];
    assert s[..0] == "" && s[0] as int == '0' as int + d;
  }

  // A leading non-zero digit forces the magnitude.
  lemma LeadingDigit(s: string)
    requires IsNumeral(s) && s[0] != '0'
    ensures Pow10(|s| - 1) <= NatOf(s)
  {
    var tail := s[1..];
    assert s == s[..1] + tail;
    assert NatOf(s[..1]) >= 1 by {
      assert s[..1][..0] == "";
    }
    NatOfConcat(s[..1], tail);
    MulOrder(1, NatOf(s[..1]), Pow10(|tail|));
  }

  // n has at most k digits exactly when it is below 10^k.
  lemma {:induction false} DigitCount(n: nat, k: nat)
    requires 1 <= k
    ensures |Digits(n)| <= k <==> n < Pow10(k)
  {
    if n < 10 {
      Pow10Monotone(1, k);
    } else if k == 1 {
      assert Pow10(1) == 10;
    } else {
      DigitCount(n / 10, k - 1);
    }
  }

  lemma {:induction false} DigitsHaveNoLeadingZero(n: nat)
    ensures Digits(n) == "0" || Digits(n)[0] != '0'
    ensures Digits(n) == "0" <==> n == 0
  {
    if 10 <= n {
      DigitsHaveNoLeadingZero(n / 10);
    }
  }

  // Digit strings of one length are determined by the number they denote.
  lemma {:induction false} SameLengthSameValue(s: string, t: string)
    requires AllDigits(s) && AllDigits(t) && |s| == |t| && NatOf(s) == NatOf(t)
    ensures s == t
  {
    if s != "" {
      var k := |s| - 1;
      assert DigitValue(s[k]) == NatOf(s) % 10 == DigitValue(t[k]);
      SameLengthSameValue(s[..k], t[..k]);
      assert s == s[..k] + [s[k]] && t == t[..k] + [t[k]];
    }
  }

  // Printing undoes parsing on numerals without superfluous zeros.
  lemma DigitsOfNatOf(s: string)
    requires IsNumeral(s) && (s == "0" || s[0] != '0')
    ensures Digits(NatOf(s)) == s
  {
    var n := NatOf(s);
    NatOfDigits(n);
    NatOfBound(s);
    DigitCount(n, |s|);
    if s != "0" {
      LeadingDigit(s);
      if |s| > 1 {
        DigitCount(n, |s| - 1);
      }
    }
    SameLengthSameValue(Digits(n), s);
  }

  lemma NatOfPadded(n: nat, width: nat)
    ensures NatOf(Padded(n, width)) == n
  {
    var z := if |Digits(n)| < width then width - |Digits(n)| else 0;
    NatOfConcat(Zeros(z), Digits(n));
    NatOfZeros(z);
    NatOfDigits(n);
  }

  // A digit string whose first k > 0 digits have no superfluous zero is its
  // own number padded to leave one digit before the rest.
  lemma PaddedOfNatOf(s: string, k: nat)
    requires AllDigits(s) && 0 < k <= |s| && (s[0] != '0' || k == 1)
    ensures Padded(NatOf(s), |s| - k + 1) == s
  {
    var n := NatOf(s);
    if s[0] != '0' {
      DigitsOfNatOf(s);
    } else {
      NatOfBound(s);
      DigitCount(n, |s|);
      NatOfPadded(n, |s|);
      SameLengthSameValue(Padded(n, |s|), s);
    }
  }

  // strings.Cut at the first dot.
  datatype CutResult = CutResult(before: string, after: string, found: bool)

  function CutAtDot(s: string): (c: CutResult)
    ensures '.' !in c.before
    ensures c.found ==> s == c.before + "." + c.after
    ensures !c.found ==> s == c.before && c.after == ""
  {
    if s == "" then CutResult("", "", false)
    else if s[0] == '.' then CutResult("", s[1..], true)
    else
      var c := CutAtDot(s[1..]);
      c.(before := [s[0]] + c.before)
  }

  lemma {:induction false} CutJoined(before: string, after: string)
    requires '.' !in before
    ensures CutAtDot(before + "." + after) == CutResult(before, after, true)
  {
    var s := before + "." + after;
    if before == "" {
      assert s[1..] == after;
    } else {
      CutJoined(before[1..], after);
      assert s[1..] == before[1..] + "." + after;
    }
  }

  lemma {:induction false} CutPlain(s: string)
    requires '.' !in s
    ensures CutAtDot(s) == CutResult(s, "", false)
  {
    if s != "" {
      CutPlain(s[1..]);
    }
  }

  // The text after its sign, if it has one.
  function Unsigned(text: string): string {
    if text != "" && (text[0] == '-' || text[0] == '+') then text[1..] else text
  }

  // strconv.ParseInt(s, 10, 64): an optional sign, digits, and the int64 range.
  // None stands for either of its errors.
  function ParseInt64(s: string): (r: Option<int>)
    ensures r.Some? ==> FitsInt64(r.value)
  {
    var body := Unsigned(s);
    if !IsNumeral(body) then None
    else
      var v: int := NatOf(body);
      var n := if s[0] == '-' then -v else v;
      if FitsInt64(n) then Some(n) else None
  }

  // An optional sign and at least one digit.
  predicate Signed(s: string, sign: string, digits: string) {
    s == sign + digits && sign in {"", "+", "-"} && IsNumeral(digits)
  }

  function SignedValue(sign: string, n: int): int {
    if sign == "-" then -n else n
  }

  // It reads exactly the signed digit strings whose value an int64 holds.
  lemma ParseInt64Exactly(s: string, v: int)
    ensures ParseInt64(s) == Some(v) <==>
            FitsInt64(v) && exists sign, digits :: Signed(s, sign, digits) && v == SignedValue(sign, NatOf(digits))
  {
    forall sign, digits | Signed(s, sign, digits)
      ensures Unsigned(s) == digits && (s[0] == '-' <==> sign == "-")
    {
      SignComesOff(sign, digits);
    }
    var sign := SignOf(s);
    if ParseInt64(s).Some? {
      assert Signed(s, sign, Unsigned(s));
    }
  }

  // The sign that Unsigned takes off.
  function SignOf(s: string): (sign: string)
    ensures sign in {"", "+", "-"} && s == sign + Unsigned(s)
  {
    if s == "" || (s[0] != '-' && s[0] != '+') then "" else if s[0] == '-' then "-" else "+"
  }

  lemma SignComesOff(sign: string, body: string)
    requires sign in {"", "+", "-"} && body != "" && IsDigit(body[0])
    ensures Unsigned(sign + body) == body && SignOf(sign + body) == sign
    ensures (sign + body)[0] == '-' <==> sign == "-"
  {
    if sign == "" {
      assert sign + body == body;
    } else {
      assert (sign + body)[1..] == body;
    }
  }

  // strconv.FormatInt(n, 10), and the text of a whole big.Int.
  function IntText(n: int): string {
    (if n < 0 then "-" else "") + Digits(Abs(n))
  }

  lemma ParseIntText(n: int)
    requires FitsInt64(n)
    ensures ParseInt64(IntText(n)) == Some(n)
  {
    hide NatOf, Digits;
    NatOfDigits(Abs(n));
    assert Signed(IntText(n), if n < 0 then "-" else "", Digits(Abs(n)));
    ParseInt64Exactly(IntText(n), n);
  }
}
