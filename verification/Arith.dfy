// Integer facts the exact arithmetic rests on: order under multiplication,
// floor division, powers of ten, and greatest common divisors; and one fact
// about sequences.
module Arith {
  lemma MulOrder(a: int, b: int, c: int)
    requires 0 < c
    ensures a <= b <==> a * c <= b * c
    ensures a == b <==> a * c == b * c
  {
    if a < b {
      assert 0 < (b - a) * c;
    } else if b < a {
      assert 0 < (a - b) * c;
    }
  }

  lemma FloorBounds(n: int, d: int)
    requires 0 < d
    ensures (n / d) * d <= n < (n / d + 1) * d
  {
    assert (n / d) * d + n % d == n;
  }

  lemma FloorUnique(n: int, d: int, q: int)
    requires 0 < d && q * d <= n < (q + 1) * d
    ensures n / d == q
  {
    FloorBounds(n, d);
    if n / d < q {
      MulOrder(n / d + 1, q, d);
    } else if q < n / d {
      MulOrder(q + 1, n / d, d);
    }
  }

  // Equal fractions have equal floors, whatever terms they are written in.
  lemma FloorOfEqualFractions(a: int, b: int, c: int, d: int)
    requires 0 < b && 0 < d && a * d == c * b
    ensures a / b == c / d
  {
    var q := a / b;
    FloorBounds(a, b);
    MulOrder(q * b, a, d);
    assert !((q + 1) * b <= a);
    MulOrder((q + 1) * b, a, d);
    assert (q * d) * b == (q * b) * d <= c * b;
    MulOrder(q * d, c, b);
    assert ((q + 1) * d) * b == ((q + 1) * b) * d > c * b;
    MulOrder((q + 1) * d, c, b);
    FloorUnique(c, d, q);
  }

  lemma DivNat(n: nat, d: nat)
    requires 0 < d
    ensures 0 <= n / d && 0 <= n % d < d
  {
  }

  function Abs(x: int): nat {
    if x < 0 then -x else x
  }

  function Pow10(k: nat): (p: nat)
    ensures 1 <= p
  {
    if k == 0 then 1 else 10 * Pow10(k - 1)
  }

  lemma {:induction false} Pow10Sum(a: nat, b: nat)
    ensures Pow10(a + b) == Pow10(a) * Pow10(b)
  {
    if a == 0 {
    } else {
      Pow10Sum(a - 1, b);
      assert Pow10(a + b) == 10 * Pow10(a - 1 + b);
    }
  }

  lemma {:induction false} Pow10Monotone(a: nat, b: nat)
    requires a <= b
    ensures Pow10(a) <= Pow10(b)
  {
    if a < b {
      Pow10Monotone(a, b - 1);
    }
  }

  ghost predicate Divides(d: int, n: int) {
    exists k :: n == d * k
  }

  ghost predicate Coprime(a: int, b: int) {
    forall d :: 1 < d && Divides(d, a) ==> !Divides(d, b)
  }

  // Both numbers divided by their greatest common divisor, by Euclid's
  // subtractive algorithm.
  function Reduce(a: nat, b: nat): (r: (nat, nat))
    requires 0 < a + b
    ensures 0 < a <==> 0 < r.0
    ensures 0 < b <==> 0 < r.1
    decreases a + b
  {
    if a == 0 then (0, 1)
    else if b == 0 then (1, 0)
    else if a <= b then
      var r := Reduce(a, b - a);
      (r.0, r.1 + r.0)
    else
      var r := Reduce(a - b, b);
      (r.0 + r.1, r.1)
  }

  lemma {:induction false} ReduceScales(a: nat, b: nat) returns (g: nat)
    requires 0 < a + b
    ensures 0 < g && a == g * Reduce(a, b).0 && b == g * Reduce(a, b).1
    decreases a + b
  {
    if a == 0 {
      g := b;
    } else if b == 0 {
      g := a;
    } else if a <= b {
      g := ReduceScales(a, b - a);
      Distribute(g, Reduce(a, b - a).1, Reduce(a, b - a).0);
    } else {
      g := ReduceScales(a - b, b);
      Distribute(g, Reduce(a - b, b).0, Reduce(a - b, b).1);
    }
  }

  lemma Distribute(g: int, x: int, y: int)
    ensures g * (x + y) == g * x + g * y
  {
  }

  // Bezout's identity for the reduced pair.
  lemma {:induction false} ReduceCombination(a: nat, b: nat) returns (u: int, v: int)
    requires 0 < a + b
    ensures Reduce(a, b).0 * u + Reduce(a, b).1 * v == 1
    decreases a + b
  {
    if a == 0 {
      u, v := 0, 1;
    } else if b == 0 {
      u, v := 1, 0;
    } else if a <= b {
      u, v := ReduceCombination(a, b - a);
      ShiftCombination(Reduce(a, b - a).0, Reduce(a, b - a).1, u, v);
      u := u - v;
    } else {
      u, v := ReduceCombination(a - b, b);
      ShiftCombination(Reduce(a - b, b).1, Reduce(a - b, b).0, v, u);
      v := v - u;
    }
  }

  lemma ShiftCombination(x: int, y: int, u: int, v: int)
    ensures x * (u - v) + (y + x) * v == x * u + y * v
  {
  }

  lemma PositiveFactor(d: int, k: int)
    requires 0 < d && 0 < d * k
    ensures 0 < k && d <= d * k
  {
    MulOrder(1, k, d);
    MulOrder(0, k, d);
  }

  // Numbers with a combination equal to one share no divisor but one.
  lemma CoprimeFromCombination(a: int, b: int, x: int, y: int)
    requires a * x + b * y == 1
    ensures Coprime(a, b)
  {
    forall d | 1 < d && Divides(d, a) ensures !Divides(d, b) {
      if Divides(d, b) {
        var j :| a == d * j;
        var k :| b == d * k;
        Regroup(j, k, d, x, y);
        assert d * (j * x + k * y) == 1;
        PositiveFactor(d, j * x + k * y);
      }
    }
  }

  lemma CombinationFromCoprime(a: nat, b: nat) returns (x: int, y: int)
    requires 0 < a + b && Coprime(a, b)
    ensures a * x + b * y == 1
  {
    var g := ReduceScales(a, b);
    assert Divides(g, a) && Divides(g, b);
    assert g == 1;
    x, y := ReduceCombination(a, b);
  }

  lemma Regroup(a: int, b: int, c: int, x: int, y: int)
    ensures (a * c) * x + (b * c) * y == (a * x + b * y) * c
  {
    assert (a * c) * x == (a * x) * c;
    assert (b * c) * y == (b * y) * c;
  }

  // Euclid's lemma.
  lemma CoprimeDivides(a: nat, b: nat, c: int)
    requires 0 < a + b && Coprime(a, b) && Divides(b, a * c)
    ensures Divides(b, c)
  {
    var x, y := CombinationFromCoprime(a, b);
    var k :| a * c == b * k;
    Regroup(a, b, c, x, y);
    assert (b * k) * x + (b * c) * y == b * (k * x + c * y);
    assert c == b * (k * x + c * y);
  }

  lemma DividesEachOther(a: nat, b: nat)
    requires 0 < a && 0 < b && Divides(a, b) && Divides(b, a)
    ensures a == b
  {
    var j :| b == a * j;
    var k :| a == b * k;
    PositiveFactor(a, j);
    PositiveFactor(b, k);
  }

  lemma Associate<T>(a: seq<T>, b: seq<T>, c: seq<T>)
    ensures a + b + c == a + (b + c)
  {
  }

  // 64-bit two's complement, as Go's int64 and time.Duration use it.
  const TWO_64 := 0x1_0000_0000_0000_0000
  const MAX_INT64 := 0x7FFF_FFFF_FFFF_FFFF
  const MIN_INT64 := -0x8000_0000_0000_0000

  predicate FitsInt64(n: int) {
    MIN_INT64 <= n <= MAX_INT64
  }

  // The value an int64 operation leaves when its exact result is n.
  function Wrap64(n: int): (w: int)
    ensures FitsInt64(w)
    ensures FitsInt64(n) <==> w == n
    ensures (w - n) % TWO_64 == 0
  {
    var m := n % TWO_64;
    assert (n - m) % TWO_64 == 0;
    if m <= MAX_INT64 then m else m - TWO_64
  }

  // Go's integer division truncates toward zero.
  function Quotient(a: int, b: int): int
    requires 0 < b
  {
    if 0 <= a then a / b else -((-a) / b)
  }
}
