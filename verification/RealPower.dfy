/** Integer powers of reals. */
module RealPower {

  function Pow(x: real, n: nat): real {
    if n == 0 then 1.0 else x * Pow(x, n - 1)
  }

  lemma {:induction false} PowInUnit(x: real, n: nat)
    requires 0.0 <= x <= 1.0
    ensures 0.0 <= Pow(x, n) <= 1.0
  {
    if n > 0 {
      PowInUnit(x, n - 1);
      Shrink(Pow(x, n - 1), x);
    }
  }

  lemma MulMono(c: real, x: real, y: real)
    requires 0.0 <= c && x <= y
    ensures c * x <= c * y
  {
  }

  /** A factor between 0 and 1 does not enlarge a non-negative number. */
  lemma Shrink(x: real, c: real)
    requires 0.0 <= x && 0.0 <= c <= 1.0
    ensures 0.0 <= c * x <= x && 0.0 <= x * c <= x
  {
    MulMono(x, 0.0, c);
    MulMono(x, c, 1.0);
  }
}
