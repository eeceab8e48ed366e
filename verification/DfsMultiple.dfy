/** Matching of a time distance against multiples of a pulse repetition interval. */
module DfsMultiple {

  /** What the matching test is for: `val` lies within `tolerance` of a positive multiple of `fraction`. */
  ghost predicate NearMultiple(val: int, fraction: nat, tolerance: nat) {
    fraction > 0 && exists k: nat :: k >= 1 && WithinTolerance(val, k, fraction, tolerance)
  }

  ghost predicate WithinTolerance(val: int, k: nat, fraction: nat, tolerance: nat) {
    val - k * fraction <= tolerance && k * fraction - val <= tolerance
  }

  /** pde_get_multiple: the matched factor, or 0 when there is none. */
  function GetMultiple(val: nat, fraction: nat, tolerance: nat): nat {
    if fraction == 0 then 0
    else
      var delta := if val < fraction then fraction - val else val - fraction;
      if delta <= tolerance then 1
      else
        var factor := val / fraction;
        var remainder := val % fraction;
        if remainder > tolerance then
          if fraction - remainder <= tolerance then factor + 1 else 0
        else factor
  }

  /** The loop-free test decides the existential: a match is reported exactly when one exists,
      and the reported factor is one of the matching multiples. */
  lemma GetMultipleDecides(val: nat, fraction: nat, tolerance: nat)
    ensures GetMultiple(val, fraction, tolerance) > 0 <==> NearMultiple(val, fraction, tolerance)
    ensures GetMultiple(val, fraction, tolerance) > 0 ==>
              WithinTolerance(val, GetMultiple(val, fraction, tolerance), fraction, tolerance)
  {
    if fraction > 0 {
      var q, r := val / fraction, val % fraction;
      DivisionSplits(val, fraction);
      if GetMultiple(val, fraction, tolerance) == 0 {
        forall k: nat | k >= 1
          ensures !WithinTolerance(val, k, fraction, tolerance)
        {
          MultiplesSurround(q, r, fraction, k);
        }
      } else {
        assert WithinTolerance(val, GetMultiple(val, fraction, tolerance), fraction, tolerance);
      }
    }
  }

  /** The quotient and its successor give the two multiples around a value. */
  lemma DivisionSplits(val: nat, f: nat)
    requires f > 0
    ensures val == val / f * f + val % f
    ensures (val / f + 1) * f == val / f * f + f
    ensures val < f ==> val / f == 0
    ensures val >= f ==> val / f >= 1
  {
  }

  /** Every multiple of f keeps its distance from q * f + r: at least r when below, at least f - r when above. */
  lemma MultiplesSurround(q: nat, r: nat, f: nat, k: nat)
    requires r < f
    ensures k <= q ==> q * f + r - k * f >= r
    ensures k > q ==> k * f - (q * f + r) >= f - r
  {
    if k <= q {
      assert q * f - k * f == (q - k) * f;
    } else {
      assert k * f - q * f == (k - q) * f == (k - q - 1) * f + f;
    }
  }
}
