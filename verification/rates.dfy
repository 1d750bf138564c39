/** The zero-guarded ratio both the QA scorer and the error-pattern analysis
    report: `num / den if den > 0 else 0`. The Python code produces a float;
    here the quotient is an exact `real`. */
module Rates {

  function GuardedRate(num: nat, den: nat): real {
    if den > 0 then (num as real) / (den as real) else 0.0
  }

  /** The rate is the fraction `num / den` when there is a denominator and 0
      otherwise; it is never negative and is at most 1 for a part of a
      whole. */
  lemma GuardedRateMeaning(num: nat, den: nat)
    ensures den == 0 ==> GuardedRate(num, den) == 0.0
    ensures den > 0 ==> GuardedRate(num, den) * (den as real) == num as real
    ensures 0.0 <= GuardedRate(num, den)
    ensures num <= den ==> GuardedRate(num, den) <= 1.0
  {
  }
}
