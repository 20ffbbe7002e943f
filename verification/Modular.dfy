// Remainders by a size that is not a constant.
module Modular {

  // One step round a circle.
  lemma Wraps(x: nat, size: int)
    requires size >= 1 && x < 2 * size
    ensures x % size == if x < size then x else x - size
  {
  }

  lemma Shift(y: nat, size: int)
    requires size > 0
    ensures (y + size) % size == y % size
  {
    var q, r := y / size, y % size;
    assert size * (q + 1) == size * q + size;
    Unique(size, q + 1, r, (y + size) / size, (y + size) % size);
  }

  lemma Unique(size: int, q: int, r: int, k: int, s: int)
    requires size > 0 && size * q + r == size * k + s && 0 <= r < size && 0 <= s < size
    ensures q == k && r == s
  {
    if q > k { Grows(size, q, k); }
    if q < k { Grows(size, k, q); }
  }

  lemma Grows(size: int, a: int, b: int)
    requires size > 0 && a > b
    ensures size * a >= size * b + size
  {
    var d := a - b - 1;
    Product(size, d);
    assert size * a == size * (b + 1 + d) == size * b + size + size * d;
  }

  lemma Product(x: int, y: int)
    requires x >= 0 && y >= 0
    ensures x * y >= 0
  {
  }

  // Only the remainder of a step counts.
  lemma {:induction false} StepRemainder(x: nat, t: nat, size: int)
    requires size > 0
    ensures (x + t) % size == (x + t % size) % size
    decreases t
  {
    if t >= size {
      StepRemainder(x, t - size, size);
      Shift(x + t - size, size);
      Shift(t - size, size);
    } else {
      Wraps(t, size);
    }
  }
}
