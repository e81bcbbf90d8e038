/** Powers of two. */
module Powers {

  function Pow2(k: nat): (p: nat)
    ensures p > 0
  {
    if k == 0 then 1 else 2 * Pow2(k - 1)
  }

  lemma Pow2Step(n: nat)
    ensures Pow2(0) == 1 && (n > 0 ==> Pow2(n) == 2 * Pow2(n - 1))
  {
  }
}
