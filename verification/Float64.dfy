// Rounding to float64, and what it does to a percentage of a count.
module Float64 {
  import opened Reals
  import opened Wire

  const MANTISSA: int := 0x20_0000_0000_0000

  // x is m divided or multiplied by 2 to the k, with a mantissa of 53 bits.
  ghost predicate Scaled(x: real, m: int, k: nat) {
    && -MANTISSA <= m <= MANTISSA
    && (x * Power2(k) as real == m as real || x == (m * Power2(k)) as real)
  }

  // The finite values, leaving out the bounds of the exponent.
  ghost predicate Representable(x: real) {
    exists m: int, k: nat :: Scaled(x, m, k)
  }

  function Distance(x: real, y: real): real {
    if x < y then y - x else x - y
  }

  // r is a nearest value to x; ties may go either way.
  ghost predicate Rounds(x: real, r: real) {
    Representable(r) && forall y :: Representable(y) ==> Distance(x, r) <= Distance(x, y)
  }

  // r is what float64(n) * share computes: the constant is rounded, then the product.
  ghost predicate FloatProduct(n: nat, share: real, r: real) {
    exists c :: Rounds(share, c) && Rounds(n as real * c, r)
  }

  lemma WholeRepresentable(n: int)
    requires -MANTISSA <= n <= MANTISSA
    ensures Representable(n as real)
  {
    assert Scaled(n as real, n, 0);
  }

  lemma {:induction false} Positive(k: nat)
    ensures Power2(k) >= 1
  {
    if k > 0 { Positive(k - 1); }
  }

  // A gap of at least a unit in the last place of r.
  lemma UnitGap(r: real, gap: real, p: real, m: real, limit: real)
    requires r > 0.0 && gap > 0.0 && r * p == m && m <= limit && gap * p >= 1.0
    ensures gap * limit >= r
  {
    Times(m, limit, gap);
    Times(1.0, gap * p, r);
    assert m * gap == gap * p * r;
  }

  lemma WholeGap(r: real, whole: int, p: int, m: int)
    requires 0.0 < r < whole as real && p >= 1 && m <= MANTISSA && r * p as real == m as real
    ensures (whole as real - r) * MANTISSA as real >= r
  {
    var gap := whole as real - r;
    RealProduct(whole, p);
    assert gap * p as real == (whole * p - m) as real;
    Strict(gap, p as real);
    AtLeastOne(gap * p as real, whole * p - m);
    UnitGap(r, gap, p as real, m as real, MANTISSA as real);
  }

  // Values below a whole number keep a distance from it.
  lemma Gap(r: real, whole: int)
    requires Representable(r) && 0.0 < r < whole as real && whole <= MANTISSA
    ensures (whole as real - r) * MANTISSA as real >= r
  {
    var m: int, k: nat :| Scaled(r, m, k);
    if r * Power2(k) as real == m as real {
      Positive(k);
      WholeGap(r, whole, Power2(k), m);
    } else {
      assert (whole as real - r) == (whole - m * Power2(k)) as real;
    }
  }

  // No moderate number is further than 1/256 from a value.
  lemma Near(x: real, r: real)
    requires -1.0 <= x < 35184372088832.0 && Rounds(x, r)
    ensures Distance(x, r) <= 1.0 / 256.0
  {
    var m := (x * 256.0).Floor;
    var y := m as real / 256.0;
    assert Power2(8) == 256;
    assert Scaled(y, m, 8);
    assert Representable(y);
    assert Distance(x, y) <= 1.0 / 256.0;
  }

  lemma PowerOfMantissa()
    ensures Power2(53) == MANTISSA
  {
    assert Power2(8) == 0x100;
    assert Power2(16) == 0x1_0000;
    assert Power2(24) == 0x100_0000;
    assert Power2(32) == 0x1_0000_0000;
    assert Power2(40) == 0x100_0000_0000;
    assert Power2(48) == 0x1_0000_0000_0000;
  }

  // A rounded constant is off by no more than any value at hand.
  lemma Constant(share: real, c: real, m: int)
    requires Rounds(share, c) && 0 <= m <= MANTISSA
    ensures Distance(share, c) <= Distance(share, m as real / 9007199254740992.0)
  {
    PowerOfMantissa();
    assert Scaled(m as real / 9007199254740992.0, m, 53);
  }

  lemma Distances(n: real, a: real, b: real)
    requires n > 0.0
    ensures Distance(n * a, n * b) == n * Distance(a, b)
  {
    if a < b { Times(a, b, n); } else { Times(b, a, n); }
  }

  lemma Scales(n: real, off: real, percent: real, scaled: real, total: real)
    requires 0.0 < n <= 35184372088832.0 && 0.0 <= off && percent < 100.0
    requires off * 9007199254740992.0 * 200.0 <= percent * 0.9
    requires scaled == n * off && total == n * percent
    ensures scaled <= 0.002 && scaled * 9007199254740992.0 * 200.0 <= total * 0.9
  {
    Times(off, 0.45 / 9007199254740992.0, n);
    Times(off * 9007199254740992.0 * 200.0, percent * 0.9, n);
  }

  // How far a product with a rounded percentage can be off before it is rounded.
  lemma Tolerance(n: nat, percent: nat, c: real)
    requires 0 < n <= 0x2000_0000_0000 && 50 <= percent < 100
    requires Distance(percent as real / 100.0, c) * 9007199254740992.0 * 200.0 <= percent as real * 0.9
    ensures Distance((n * percent) as real / 100.0, n as real * c) <= 0.002
    ensures Distance((n * percent) as real / 100.0, n as real * c) * 9007199254740992.0 * 200.0
            <= (n * percent) as real * 0.9
  {
    var count, rate, total := n as real, percent as real, (n * percent) as real;
    RealProduct(n, percent);
    Hundredth(count, rate, total);
    Distances(count, rate / 100.0, c);
    Scales(count, Distance(rate / 100.0, c), rate, Distance(total / 100.0, count * c), total);
  }

  // A product that should be whole is not rounded to less.
  lemma NotBelow(x: real, r: real, whole: int)
    requires 0 < whole <= MANTISSA && Rounds(x, r)
    requires Distance(whole as real, x) * 9007199254740992.0 * 2.0 <= whole as real * 0.9
    ensures r >= whole as real
  {
    WholeRepresentable(whole);
    if r < whole as real {
      assert whole as real - r <= 2.0 * Distance(whole as real, x);
      if r > 0.0 { Gap(r, whole); }
    }
  }

  lemma CutOff(total: nat, x: real, r: real)
    requires 0 < total <= 99 * 0x2000_0000_0000 && Rounds(x, r)
    requires Distance(total as real / 100.0, x) <= 0.002
    requires Distance(total as real / 100.0, x) * 9007199254740992.0 * 200.0 <= total as real * 0.9
    ensures r.Floor == total / 100
  {
    var whole, rest := total / 100, total % 100;
    assert total as real == 100.0 * whole as real + rest as real;
    if rest == 0 {
      NotBelow(x, r, whole);
    }
    Near(x, r);
  }

  // Cutting off the rounded product of a count and a percentage of at least a half
  // gives the same as whole-number arithmetic, when the constant is accurate to
  // a little more than two fifths of a unit in its last place.
  lemma FloorOfProduct(n: nat, percent: nat, c: real, r: real)
    requires 0 < n <= 0x2000_0000_0000 && 50 <= percent < 100
    requires Distance(percent as real / 100.0, c) * 9007199254740992.0 * 200.0 <= percent as real * 0.9
    requires Rounds(n as real * c, r)
    ensures r.Floor == n * percent / 100
  {
    Tolerance(n, percent, c);
    assert 0 < n * percent <= 99 * n;
    CutOff(n * percent, n as real * c, r);
  }

  lemma IndexOf(n: nat, percent: nat, r: real, m: int)
    requires 0 < n <= 0x2000_0000_0000 && 50 <= percent < 100 && 0 <= m <= MANTISSA
    requires FloatProduct(n, percent as real / 100.0, r)
    requires Distance(percent as real / 100.0, m as real / 9007199254740992.0) * 9007199254740992.0 * 200.0
             <= percent as real * 0.9
    ensures r.Floor == n * percent / 100
  {
    var c :| Rounds(percent as real / 100.0, c) && Rounds(n as real * c, r);
    Constant(percent as real / 100.0, c, m);
    FloorOfProduct(n, percent, c, r);
  }

  lemma IndexOf50(n: nat, r: real)
    requires 0 < n <= 0x2000_0000_0000 && FloatProduct(n, 0.5, r)
    ensures r.Floor == n * 50 / 100
  {
    assert 50 as real / 100.0 == 0.5;
    IndexOf(n, 50, r, MANTISSA / 2);
  }

  lemma IndexOf95(n: nat, r: real)
    requires 0 < n <= 0x2000_0000_0000 && FloatProduct(n, 0.95, r)
    ensures r.Floor == n * 95 / 100
  {
    assert 95 as real / 100.0 == 0.95;
    IndexOf(n, 95, r, 8556839292003942);
  }

  lemma IndexOf99(n: nat, r: real)
    requires 0 < n <= 0x2000_0000_0000 && FloatProduct(n, 0.99, r)
    ensures r.Floor == n * 99 / 100
  {
    assert 99 as real / 100.0 == 0.99;
    IndexOf(n, 99, r, 8917127262193582);
  }

  // The indices that are computed for the median and the two high percentiles, of
  // any list of 64-bit values that fits into 2^48 bytes.
  lemma IndexIsRank(n: nat, r50: real, r95: real, r99: real)
    requires 0 < n <= 0x2000_0000_0000
    requires FloatProduct(n, 0.5, r50) && FloatProduct(n, 0.95, r95) && FloatProduct(n, 0.99, r99)
    ensures r50.Floor == n * 50 / 100 && r95.Floor == n * 95 / 100 && r99.Floor == n * 99 / 100
  {
    IndexOf50(n, r50);
    IndexOf95(n, r95);
    IndexOf99(n, r99);
  }

  // ---------- From a half on ----------

  lemma TwiceWhole(m: int, p: int)
    ensures m * (2 * p) == 2 * (m * p)
  {
  }

  lemma {:induction false} PowerSum(j: nat, k: nat)
    ensures Power2(j + k) == Power2(j) * Power2(k)
  {
    if j > 0 {
      PowerSum(j - 1, k);
      TwiceWhole(Power2(k), Power2(j - 1));
    }
  }

  lemma PowerGrows(k: nat)
    requires k > 53
    ensures Power2(k) >= 2 * MANTISSA
  {
    PowerOfMantissa();
    PowerSum(k - 54, 54);
    Positive(k - 54);
  }

  lemma SmallQuotient(y: real, p: real, m: real)
    requires p >= 2.0 * 9007199254740992.0 && y * p == m && m <= 9007199254740992.0
    ensures y <= 0.5
  {
    if y > 0.5 { Times(0.5, y, p); }
  }

  lemma Shifted(y: real, p: int, q: int, m: int)
    requires y * p as real == m as real && p * q == MANTISSA
    ensures y * 9007199254740992.0 == (m * q) as real
  {
    RealProduct(p, q);
    RealProduct(m, q);
    assert y * (p as real * q as real) == y * p as real * q as real;
  }

  lemma UnitsWhole(n: int) returns (z: int)
    ensures n as real * 9007199254740992.0 == z as real
  {
    z := n * MANTISSA;
    RealProduct(n, MANTISSA);
  }

  lemma MantissaSplit(k: nat)
    requires k <= 53
    ensures Power2(k) * Power2(53 - k) == MANTISSA
  {
    PowerOfMantissa();
    PowerSum(k, 53 - k);
  }

  lemma FineIsSmall(y: real, m: int, k: nat)
    requires k > 53 && m <= MANTISSA && y * Power2(k) as real == m as real
    ensures y <= 0.5
  {
    PowerGrows(k);
    SmallQuotient(y, Power2(k) as real, m as real);
  }

  lemma UnitsFraction(y: real, m: int, k: nat) returns (z: int)
    requires k <= 53 && y * Power2(k) as real == m as real
    ensures y * 9007199254740992.0 == z as real
  {
    MantissaSplit(k);
    Shifted(y, Power2(k), Power2(53 - k), m);
    z := m * Power2(53 - k);
  }

  // From a half on, values are whole numbers of units.
  lemma Units(y: real) returns (z: int)
    requires Representable(y) && 0.5 < y
    ensures y * 9007199254740992.0 == z as real
  {
    var m: int, k: nat :| Scaled(y, m, k);
    if y * Power2(k) as real == m as real {
      if k > 53 { FineIsSmall(y, m, k); }
      z := UnitsFraction(y, m, k);
    } else {
      z := UnitsWhole(m * Power2(k));
    }
  }

  // ---------- There is always a nearest value ----------

  lemma TwiceReal(x: real, p: int)
    ensures 2.0 * x * p as real == x * (2 * p) as real
  {
    RealProduct(2, p);
    assert x * (2.0 * p as real) == 2.0 * x * p as real;
  }

  // The mantissa of a value is that of its double, with the next scale.
  lemma DoubleFraction(x: real, m: int, k: nat)
    ensures x * Power2(k + 1) as real == m as real <==> 2.0 * x * Power2(k) as real == m as real
  {
    TwiceReal(x, Power2(k));
  }

  lemma DoubleWhole(x: real, m: int, k: nat)
    ensures x == (m * Power2(k)) as real <==> 2.0 * x == (m * Power2(k + 1)) as real
  {
    TwiceWhole(m, Power2(k));
  }

  lemma Doubled(x: real)
    requires Representable(x)
    ensures Representable(2.0 * x)
  {
    var m: int, k: nat :| Scaled(x, m, k);
    if x == (m * Power2(k)) as real {
      DoubleWhole(x, m, k);
      assert Scaled(2.0 * x, m, k + 1);
    } else if k > 0 {
      DoubleFraction(x, m, k - 1);
      assert Scaled(2.0 * x, m, k - 1);
    }
  }

  lemma Halved(x: real)
    requires Representable(x)
    ensures Representable(x / 2.0)
  {
    var m: int, k: nat :| Scaled(x, m, k);
    if x * Power2(k) as real == m as real {
      DoubleFraction(x / 2.0, m, k);
      assert Scaled(x / 2.0, m, k + 1);
    } else if k > 0 {
      DoubleWhole(x / 2.0, m, k - 1);
      assert Scaled(x / 2.0, m, k - 1);
    }
  }

  // Rounding does not depend on the scale.
  lemma RoundsDoubled(x: real, r: real)
    requires Rounds(x, r)
    ensures Rounds(2.0 * x, 2.0 * r)
  {
    Doubled(r);
    forall y | Representable(y) ensures Distance(2.0 * x, 2.0 * r) <= Distance(2.0 * x, y) {
      Halved(y);
      assert Distance(x, r) <= Distance(x, y / 2.0);
    }
  }

  lemma RoundsItself(x: real)
    requires Representable(x)
    ensures Rounds(x, x)
  {
  }

  // The nearer of the two whole numbers around u.
  function Nearer(u: real): int {
    if u - u.Floor as real <= (u.Floor + 1) as real - u then u.Floor else u.Floor + 1
  }

  lemma NearerIsNearest(u: real, z: int)
    ensures Distance(u, Nearer(u) as real) <= Distance(u, z as real)
  {
    AroundIsNearest(u, u.Floor, z);
  }

  lemma AroundIsNearest(u: real, f: int, z: int)
    requires f as real <= u < (f + 1) as real
    ensures Distance(u, z as real) >= if u - f as real <= (f + 1) as real - u then u - f as real else (f + 1) as real - u
  {
    if z <= f {
      assert z as real <= f as real;
    } else {
      assert z as real >= (f + 1) as real;
    }
  }

  lemma UnitDistance(x: real, u: real, a: real)
    requires u == x * 9007199254740992.0
    ensures Distance(u, a * 9007199254740992.0) == Distance(x, a) * 9007199254740992.0
  {
  }

  // The nearer of two neighbouring units is a nearest value.
  lemma RoundsUnits(x: real) returns (r: real)
    requires 0.5 < x <= 1.0
    ensures Rounds(x, r)
  {
    var u := x * 9007199254740992.0;
    var m := Nearer(u);
    r := m as real / 9007199254740992.0;
    NearerIsNearest(u, MANTISSA);
    NearerIsNearest(u, MANTISSA / 2);
    PowerOfMantissa();
    assert Scaled(r, m, 53);
    UnitDistance(x, u, r);
    UnitDistance(x, u, 0.5);
    forall y | Representable(y) ensures Distance(x, r) <= Distance(x, y) {
      if 0.5 < y {
        var z := Units(y);
        NearerIsNearest(u, z);
        UnitDistance(x, u, y);
      }
    }
  }

  lemma {:induction false} SomeNearest(x: real) returns (r: real)
    requires x > 0.5
    ensures Rounds(x, r)
    decreases x.Floor
  {
    if x <= 1.0 {
      r := RoundsUnits(x);
    } else {
      var half := SomeNearest(x / 2.0);
      RoundsDoubled(x / 2.0, half);
      r := 2.0 * half;
    }
  }

  // A constant of at least a half rounds to one of at least a half, and there is a
  // float64 product of it with any count.
  lemma SomeProduct(n: nat, share: real) returns (r: real)
    requires n > 0 && 0.5 <= share < 1.0
    ensures FloatProduct(n, share, r)
  {
    assert Scaled(0.5, 1, 1) by { assert Power2(1) == 2; }
    RoundsItself(0.5);
    var c := 0.5;
    if share > 0.5 { c := SomeNearest(share); }
    assert c >= 0.5 by { assert Distance(share, c) <= Distance(share, 0.5); }
    Times(1.0, n as real, c);
    if n as real * c == 0.5 {
      r := 0.5;
    } else {
      r := SomeNearest(n as real * c);
    }
    assert Rounds(share, c) && Rounds(n as real * c, r);
  }

  // ---------- An example ----------

  const SHARE_95: real := 8556839292003942.0 / 9007199254740992.0

  lemma RoundedShare()
    ensures Rounds(0.95, SHARE_95)
  {
    PowerOfMantissa();
    assert Scaled(SHARE_95, 8556839292003942, 53);
    forall y | Representable(y) ensures Distance(0.95, SHARE_95) <= Distance(0.95, y) {
      if 0.5 < y { var z := Units(y); }
    }
  }

  lemma RoundedProduct()
    ensures Rounds(20.0 * SHARE_95, 19.0)
  {
    WholeRepresentable(19);
    forall y | Representable(y) ensures Distance(20.0 * SHARE_95, 19.0) <= Distance(20.0 * SHARE_95, y) {
      if 0.0 < y < 19.0 { Gap(y, 19); }
    }
  }

  // Rounding is needed: for 20 samples the product with the rounded constant is
  // below 19, and it is the second rounding that makes it 19.
  lemma TwentySamples()
    ensures Rounds(0.95, SHARE_95) && (20.0 * SHARE_95).Floor == 18
    ensures Rounds(20.0 * SHARE_95, 19.0) && FloatProduct(20, 0.95, 19.0)
  {
    RoundedShare();
    RoundedProduct();
    assert 20 as real * SHARE_95 == 20.0 * SHARE_95;
  }
}
