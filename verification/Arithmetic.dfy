/** Division and remainder by a number that is not known: one multiple at most lies strictly within its bounds. */
module Arithmetic {

  lemma SmallMultiple(k: int, b: nat)
    ensures 0 - b < k * b < b ==> k == 0
  {
    if k >= 1 {
      assert k * b >= b;
    } else if k <= -1 {
      assert k * b <= 0 - b;
    }
  }

  lemma QuotientUnique(a: nat, b: nat, q: int, r: nat)
    requires b > 0 && r < b && a == q * b + r
    ensures a / b == q && a % b == r
  {
    var k := a / b - q;
    assert a == a / b * b + a % b;
    assert k * b == r - a % b;
    SmallMultiple(k, b);
  }

  /** One multiple more or less changes the quotient by one and not the remainder. */
  lemma OneFewer(a: nat, b: nat)
    requires 0 < b <= a
    ensures a / b == (a - b) / b + 1 && a % b == (a - b) % b
  {
    var q, r := a / b, a % b;
    assert a == q * b + r;
    assert a - b == (q - 1) * b + r;
    QuotientUnique(a - b, b, q - 1, r);
  }

  /** Numbers less than b apart have different remainders. */
  lemma RemaindersDiffer(i: nat, j: nat, b: nat)
    requires i < j < i + b
    ensures i % b != j % b
  {
    var q, r := i / b, j / b;
    assert i == q * b + i % b;
    assert j == r * b + j % b;
    assert (r - q) * b == r * b - q * b;
    SmallMultiple(r - q, b);
  }
}
