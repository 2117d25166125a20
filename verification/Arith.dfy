/** Multiplication, quotient and remainder for a variable unit, under names of their own so that proofs
    can use them through the few laws below. */
module Arith {
  function Times(i: nat, a: nat): nat { i * a }

  function Quot(x: nat, a: nat): nat
    requires a > 0
  {
    x / a
  }

  function Rem(x: nat, a: nat): (r: nat)
    requires a > 0
    ensures r < a
  {
    x % a
  }

  lemma UniqueQuotient(x: nat, a: nat, q: int, r: nat)
    requires 0 <= r < a && x == q * a + r
    ensures x / a == q && x % a == r
  {
    var d: int := x / a - q;
    assert d * a == x / a * a - q * a;
    assert d <= 0 || d * a >= a;
    assert d >= 0 || d * a + a <= 0;
  }

  lemma Divided(x: nat, a: nat)
    requires a > 0
    ensures Times(Quot(x, a), a) + Rem(x, a) == x
  {
  }

  lemma DividedAs(x: nat, a: nat, q: nat, r: nat)
    requires r < a && x == Times(q, a) + r
    ensures Quot(x, a) == q && Rem(x, a) == r
  {
    UniqueQuotient(x, a, q, r);
  }

  lemma TimesIs(i: nat, a: nat)
    ensures Times(i, a) == i * a
  {
  }

  lemma TimesMono(i: nat, j: nat, a: nat)
    requires i <= j
    ensures Times(i, a) <= Times(j, a)
  {
  }

  lemma TimesNext(i: nat, a: nat)
    ensures Times(i + 1, a) == Times(i, a) + a
    ensures Times(0, a) == 0 && Times(1, a) == a
  {
  }

  /** Unit `i` of `k` units ends within them. */
  lemma TimesWithin(i: nat, k: nat, a: nat)
    requires i < k
    ensures Times(i, a) + a <= Times(k, a)
  {
    TimesNext(i, a);
    TimesMono(i + 1, k, a);
  }
}
