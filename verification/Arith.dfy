/** The two facts about products that the solver wants said. */
module Arith {
  lemma MulAtLeast(k: nat, n: nat)
    requires k >= 1
    ensures n * k >= n
  {
  }

  lemma MulMono(a: nat, b: nat, n: nat)
    requires a <= b
    ensures n * a <= n * b
  {
  }
}
