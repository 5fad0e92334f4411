/** Definitions and facts that several modules use: options, powers of two, multiples, alignment. */
module Basics {

  const PAGE: nat := 4096

  datatype Option<T> = None | Some(value: T)

  function Pow2(n: nat): (r: nat)
    ensures 1 <= r
  {
    if n == 0 then 1 else 2 * Pow2(n - 1)
  }

  lemma MulMono(a: nat, b: nat, d: nat)
    requires a < b
    ensures a * d + d <= b * d
  {
    assert b * d == a * d + (b - a) * d;
    assert (b - a) * d == d + (b - a - 1) * d;
  }

  lemma ModUnique(x: nat, k: nat, d: nat, m: nat)
    requires 0 < d && x == k * d + m && m < d
    ensures x % d == m && x / d == k
  {
    var k', m' := x / d, x % d;
    assert x == k' * d + m' && m' < d;
    if k < k' {
      MulMono(k, k', d);
      assert false;
    } else if k' < k {
      MulMono(k', k, d);
      assert false;
    }
  }

  /** Division by repeated subtraction. */
  function Div(x: nat, d: nat): nat
    requires 0 < d
  {
    if x < d then 0 else 1 + Div(x - d, d)
  }

  function Mod(x: nat, d: nat): (r: nat)
    requires 0 < d
    ensures r < d
  {
    if x < d then x else Mod(x - d, d)
  }

  lemma {:induction false} DivMod(x: nat, d: nat)
    requires 0 < d
    ensures x == Div(x, d) * d + Mod(x, d)
  {
    if d <= x {
      DivMod(x - d, d);
      var q := Div(x - d, d);
      assert (1 + q) * d == d + q * d;
    }
  }

  lemma DivIs(x: nat, d: nat)
    requires 0 < d
    ensures Div(x, d) == x / d && Mod(x, d) == x % d
  {
    DivMod(x, d);
    ModUnique(x, Div(x, d), d, Mod(x, d));
  }

  /** The least multiple of a from base on: what ALIGNMENT_CEILING computes. */
  function AlignUp(base: nat, a: nat): (r: nat)
    requires 1 <= a
    ensures base <= r < base + a
  {
    if base == 0 then 0 else if base <= a then a else AlignUp(base - a, a) + a
  }

  lemma {:induction false} AlignUpTimes(base: nat, a: nat) returns (q: nat)
    requires 1 <= a
    ensures AlignUp(base, a) == q * a
  {
    if base == 0 {
      q := 0;
    } else if base <= a {
      q := 1;
    } else {
      q := AlignUpTimes(base - a, a);
      assert (q + 1) * a == q * a + a;
      q := q + 1;
    }
  }

  lemma AlignUpMultiple(base: nat, a: nat)
    requires 1 <= a
    ensures AlignUp(base, a) % a == 0
  {
    var q := AlignUpTimes(base, a);
    ModUnique(AlignUp(base, a), q, a, 0);
  }
}
