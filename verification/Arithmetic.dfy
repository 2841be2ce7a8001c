/** Integer facts that several modules use. */
module Arithmetic {
  ghost predicate Multiple(a: nat, g: nat) { exists k: nat :: a == k * g }

  lemma Distribute(a: int, b: int, g: int)
    ensures (a + b) * g == a * g + b * g
  {
  }

  function Pow2(n: nat): (p: nat)
    ensures p >= 1
  {
    if n == 0 then 1 else 2 * Pow2(n - 1)
  }
}
