/** The & operator on numbers, and masks made from powers of two. */
module Masks {
  import opened Arith

  function Rem(x: int, a: int): (r: nat)
    requires a > 0
    ensures r < a
  {
    x % a
  }

  lemma RemIs(x: int, a: int, q: int, r: int)
    requires a > 0 && 0 <= r < a && x == q * a + r
    ensures Rem(x, a) == r
  {
    DivModUnique(x, a, q, r);
  }

  lemma Quotient(x: int, a: int) returns (q: int)
    requires a > 0
    ensures x == q * a + Rem(x, a)
  {
    q := x / a;
  }

  /** x & y */
  function BitAnd(x: nat, y: nat): (r: nat)
    decreases x
  {
    if x == 0 then 0 else 2 * BitAnd(x / 2, y / 2) + if x % 2 == 1 && y % 2 == 1 then 1 else 0
  }

  lemma RemDouble(x: nat, m: nat)
    requires m > 0
    ensures Rem(x, 2 * m) == 2 * Rem(x / 2, m) + x % 2
  {
    hide Rem;
    var t := Quotient(x / 2, m);
    var r := Rem(x / 2, m);
    assert t * (2 * m) == 2 * (t * m);
    RemIs(x, 2 * m, t, 2 * r + x % 2);
  }

  lemma RemOfRem(x: int, p: nat, a: nat)
    requires p > 0 && a > 0 && p * a > 0
    ensures Rem(Rem(x, p * a), a) == Rem(x, a)
  {
    hide Rem;
    var t := Quotient(x, p * a);
    var q := Quotient(x, a);
    assert t * (p * a) == t * p * a;
    assert (q - t * p) * a == q * a - t * p * a;
    RemIs(Rem(x, p * a), a, q - t * p, Rem(x, a));
  }

  lemma AndOdd(m: nat, x: nat)
    requires m > 0
    ensures BitAnd(2 * m - 1, x) == 2 * BitAnd(m - 1, x / 2) + x % 2
  {
    var y := 2 * m - 1;
    assert y / 2 == m - 1 && y % 2 == 1;
  }

  lemma MaskStep(m: nat, x: nat)
    requires m > 0 && BitAnd(m - 1, x / 2) == Rem(x / 2, m)
    ensures BitAnd(2 * m - 1, x) == Rem(x, 2 * m)
  {
    hide Rem, BitAnd;
    AndOdd(m, x);
    RemDouble(x, m);
  }

  /** Masking with a power of two less one is the remainder. */
  lemma {:induction false} MaskIsRem(x: nat, k: nat)
    ensures BitAnd(Pow2(k) - 1, x) == Rem(x, Pow2(k))
  {
    hide Rem, BitAnd;
    if k == 0 {
      RemIs(x, 1, x, 0);
      NoBits(x);
    } else {
      MaskIsRem(x / 2, k - 1);
      MaskStep(Pow2(k - 1), x);
    }
  }

  lemma NoBits(x: nat)
    ensures BitAnd(0, x) == 0
  {
  }

  lemma AndHalves(x: nat, y: nat)
    ensures BitAnd(x, y) == 2 * BitAnd(x / 2, y / 2) + if x % 2 == 1 && y % 2 == 1 then 1 else 0
  {
  }

  lemma {:induction false} AndCommutes(x: nat, y: nat)
    ensures BitAnd(x, y) == BitAnd(y, x)
    decreases x
  {
    AndHalves(y, x);
    if x == 0 {
      AndZero(y);
    } else {
      AndCommutes(x / 2, y / 2);
    }
  }

  lemma {:induction false} AndZero(x: nat)
    ensures BitAnd(x, 0) == 0
  {
    if x > 0 {
      AndZero(x / 2);
    }
  }
}
