/** Powers of two and the shifts and masks that divide by them. */
module Arith {

  function Pow2(n: nat): (r: nat)
    ensures r > 0
  {
    if n == 0 then 1 else 2 * Pow2(n - 1)
  }

  lemma {:induction false} Pow2Add(m: nat, n: nat)
    ensures Pow2(m + n) == Pow2(m) * Pow2(n)
  {
    if m > 0 {
      Pow2Add(m - 1, n);
    }
  }

  /** x rounded up to a multiple of a, as (x + (a - 1)) & ~(a - 1) computes it. */
  function AlignUp(x: nat, a: nat): (r: nat)
    requires a > 0
    ensures x <= r < x + a
    ensures r % a == 0
  {
    DivMul((x + a - 1) / a, a);
    (x + a - 1) / a * a
  }

  lemma DivMul(q: int, a: int)
    requires a > 0
    ensures q * a / a == q && q * a % a == 0
  {
    DivModUnique(q * a, a, q, 0);
  }

  lemma DivModUnique(x: int, a: int, q: int, r: int)
    requires a > 0 && 0 <= r < a && x == q * a + r
    ensures x / a == q && x % a == r
  {
    var q' := x / a;
    var r' := x - q' * a;
    assert 0 <= r' < a && r' == x % a;
    if q' > q {
      MulMono(q + 1, q', a);
    } else if q' < q {
      MulMono(q' + 1, q, a);
    }
  }

  lemma MulMono(x: int, y: int, a: int)
    requires x <= y && a >= 0
    ensures x * a <= y * a
    ensures (x + 1) * a == x * a + a
  {
  }

  lemma DivBounds(x: int, a: int)
    requires a > 0
    ensures x / a * a <= x < x / a * a + a
  {
  }

  lemma DivMono(x: int, y: int, a: int)
    requires a > 0 && x <= y
    ensures x / a <= y / a
  {
    MulMono(y / a, y / a, a);
    if x / a > y / a {
      MulMono(y / a + 1, x / a, a);
    }
  }

  lemma AlignUpMono(x: nat, y: nat, a: nat)
    requires a > 0 && x <= y
    ensures AlignUp(x, a) <= AlignUp(y, a)
  {
    DivMono(x + a - 1, y + a - 1, a);
    MulMono((x + a - 1) / a, (y + a - 1) / a, a);
  }
}
