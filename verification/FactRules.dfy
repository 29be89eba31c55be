/** The rules the program ships for its write gate. */
module FactRules {
  import opened ConceptLabel
  import opened FactGate

  function ShippedRules(alnum: char -> bool, lower: char -> string): Rules { Rules(alnum, lower, Canonical) }

  lemma ShippedRulesStable(alnum: char -> bool, lower: char -> string)
    ensures Stable(ShippedRules(alnum, lower))
  {
    forall s ensures SelfLabelled(Canonical, s) { CanonicalIsStable(s); }
  }
}
