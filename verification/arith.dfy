/** Division facts the proofs about addresses use. */
module Arith {

  function Min(a: nat, b: nat): nat {
    if a < b then a else b
  }

  lemma MulMonotone(x: int, y: int, b: nat)
    requires x <= y
    ensures x * b <= y * b
  {
  }

  lemma SmallMultiple(k: int, b: int)
    requires 0 - b < k * b < b
    ensures k == 0
  {
    if k >= 1 {
      MulMonotone(1, k, b);
    } else if k <= -1 {
      MulMonotone(k, -1, b);
    }
  }

  lemma DivModUnique(a: nat, b: nat, q: nat, r: nat)
    requires r < b && a == q * b + r
    ensures a / b == q && a % b == r
  {
    var k := a / b - q;
    assert k * b == r - a % b;
    SmallMultiple(k, b);
  }

  /** The remainder after a step that stays below the next multiple, or reaches it. */
  lemma StepRemainder(a: nat, d: nat, b: nat)
    requires b > 0 && a % b + d <= b
    ensures (a + d) % b == if a % b + d == b then 0 else a % b + d
    ensures (a + d) / b == if a % b + d == b then a / b + 1 else a / b
  {
    var q := a / b;
    assert a == q * b + a % b;
    if a % b + d == b {
      assert (q + 1) * b == q * b + b;
      DivModUnique(a + d, b, q + 1, 0);
    } else {
      DivModUnique(a + d, b, q, a % b + d);
    }
  }

  lemma EvenRemainder(a: nat, b: nat)
    requires b > 0 && a % 2 == 0 && b % 2 == 0
    ensures a % b % 2 == 0
  {
    var q, h := a / b, b / 2;
    assert a == q * b + a % b;
    assert q * b == 2 * (q * h);
  }

  lemma MultipleSum(x: nat, y: nat, m: nat)
    requires m > 0 && x % m == 0 && y % m == 0
    ensures (x + y) % m == 0
  {
    var i, j := x / m, y / m;
    assert x == i * m && y == j * m;
    assert (i + j) * m == i * m + j * m;
    DivModUnique(x + y, m, i + j, 0);
  }

  lemma MultipleDifference(x: nat, y: nat, m: nat)
    requires m > 0 && y <= x && x % m == 0 && y % m == 0
    ensures (x - y) % m == 0
  {
    var i, j := x / m, y / m;
    assert x == i * m && y == j * m;
    if i < j {
      MulMonotone(i + 1, j, m);
    }
    assert (i - j) * m == i * m - j * m;
    DivModUnique(x - y, m, i - j, 0);
  }

  /** Multiples of m are at least m apart. */
  lemma MultipleGap(x: nat, y: nat, m: nat)
    requires m > 0 && x < y && x % m == 0 && y % m == 0
    ensures x + m <= y
  {
    MultipleDifference(y, x, m);
    if y - x < m {
      DivModUnique(y - x, m, 0, y - x);
    }
  }

  lemma MultipleProduct(k: nat, y: nat, m: nat)
    requires m > 0 && y % m == 0
    ensures (k * y) % m == 0
  {
    var j := y / m;
    assert y == j * m;
    Associate(k, j, m);
    DivModUnique(k * y, m, k * j, 0);
  }

  lemma Associate(x: nat, y: nat, z: nat)
    ensures x * (y * z) == (x * y) * z
  {
  }

  /** The remainder of a multiple of m by a multiple of m is one. */
  lemma MultipleRemainder(x: nat, y: nat, m: nat)
    requires m > 0 && y > 0 && x % m == 0 && y % m == 0
    ensures (x % y) % m == 0
  {
    var q := x / y;
    assert x == q * y + x % y;
    MultipleProduct(q, y, m);
    MultipleDifference(x, q * y, m);
  }
}
