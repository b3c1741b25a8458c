/** Java's 32-bit `int`: its range, its truncating division and the narrowing cast from `long`. */
module JavaInt {

  const MinInt: int := -0x8000_0000
  const MaxInt: int := 0x7fff_ffff

  type Int32 = x: int | MinInt <= x <= MaxInt

  /** Java's `a / b` on int: rounds toward zero, and MIN_VALUE / -1 wraps back to MIN_VALUE. */
  function Div(a: Int32, b: Int32): (q: Int32)
    requires b != 0
    ensures a >= 0 && b > 0 ==> q == a / b
    ensures a < 0 && b > 0 ==> q <= 0
    ensures b > 0 ==> (q >= 0 <==> a > -b)
    ensures !(a == MinInt && b == -1) ==>
      q == (if (a < 0) == (b < 0) then Abs(a) / Abs(b) else -(Abs(a) / Abs(b)))
    ensures a == MinInt && b == -1 ==> q == MinInt
  {
    if a == MinInt && b == -1 then
      MinInt
    else
      QuotientRange(a, b);
      var m := Abs(a) / Abs(b);
      if (a < 0) == (b < 0) then m else -m
  }

  /** The magnitude of a quotient: within range, and zero exactly for a dividend smaller than the divisor. */
  lemma QuotientRange(a: Int32, b: Int32)
    requires b != 0 && !(a == MinInt && b == -1)
    ensures Abs(a) / Abs(b) <= Abs(a)
    ensures (a < 0) == (b < 0) ==> Abs(a) / Abs(b) <= MaxInt
    ensures b > 0 ==> (Abs(a) / Abs(b) == 0 <==> -b < a < b)
  {
    DivNoLarger(Abs(a), Abs(b));
  }

  lemma DivNoLarger(x: nat, y: nat)
    requires y >= 1
    ensures x / y <= x
    ensures x / y == 0 <==> x < y
    ensures x >= 1 && y >= 2 ==> x / y < x
  {
    var q, r := x / y, x % y;
    assert x == q * y + r && 0 <= r < y;
    MulAtLeast(q, y);
    if q >= 1 {
      MulAtLeast(y, q);
      assert x >= y;
    }
    if y >= 2 {
      MulAtLeast(q, y - 1);
      assert q * y >= 2 * q;
    }
  }

  /** Multiplying by a positive factor does not make a natural number smaller. */
  lemma {:induction false} MulAtLeast(q: nat, y: nat)
    requires y >= 1
    ensures q <= q * y
    decreases y
  {
    if y > 1 {
      MulAtLeast(q, y - 1);
      assert q * y == q * (y - 1) + q;
    }
  }

  /** Quotient and remainder of a non-negative division: the quotient times the divisor is the largest multiple not above x. */
  lemma DivBounds(x: nat, y: nat)
    requires y >= 1
    ensures 0 <= (x / y) * y <= x < (x / y) * y + y
    ensures x % y == 0 ==> (x / y) * y == x
  {
    assert x == (x / y) * y + x % y;
  }

  function Abs(x: int): nat {
    if x < 0 then -x else x
  }

  /** The cast `(int) n` of a non-negative `long`: keeps the low 32 bits as a two's-complement value. */
  function ToInt32(n: nat): (r: Int32)
    ensures n <= MaxInt ==> r == n
    ensures (r - n) % 0x1_0000_0000 == 0
  {
    var m := n % 0x1_0000_0000;
    if m > MaxInt then m - 0x1_0000_0000 else m
  }
}
