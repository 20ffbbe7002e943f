// Products of reals, one fact at a time.
module Reals {

  lemma Times(a: real, b: real, c: real)
    requires a <= b && c >= 0.0
    ensures a * c <= b * c
  {
  }

  lemma Strict(a: real, b: real)
    requires a > 0.0 && b > 0.0
    ensures a * b > 0.0
  {
  }

  lemma RealProduct(a: int, b: int)
    ensures (a * b) as real == a as real * b as real
  {
  }

  lemma Hundredth(a: real, b: real, total: real)
    requires total == a * b
    ensures a * (b / 100.0) == total / 100.0
  {
  }

  lemma AtLeastOne(x: real, z: int)
    requires x == z as real && x > 0.0
    ensures x >= 1.0
  {
  }

  // A share is over a half when twice the part is over the whole.
  lemma OverHalf(part: real, whole: real)
    requires whole > 0.0
    ensures part / whole > 0.5 <==> 2.0 * part > whole
  {
    var q := part / whole;
    Restored(part, whole);
    if q > 0.5 {
      Strict(q - 0.5, whole);
      Spread(q, whole);
    } else {
      Times(q, 0.5, whole);
    }
  }

  lemma Restored(part: real, whole: real)
    requires whole > 0.0
    ensures part / whole * whole == part
  {
  }

  lemma Spread(q: real, whole: real)
    ensures (q - 0.5) * whole == q * whole - 0.5 * whole
  {
  }
}
