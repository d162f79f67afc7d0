/** Products of natural numbers. */
module Products {

  lemma TimesMono(a: nat, b: nat, k: nat)
    requires a <= b
    ensures a * k <= b * k
  {
  }

  lemma TimesLess(a: nat, b: nat, k: nat)
    requires a < b && k > 0
    ensures a * k < b * k
  {
    TimesMono(a + 1, b, k);
  }
}
