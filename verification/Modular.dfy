/** Remainders of natural numbers, as ring indices use them. */
module Modular {
  lemma ModUnique(x: nat, n: nat, q: nat, r: nat)
    requires r < n && x == q * n + r
    ensures x % n == r && x / n == q
  {
    var q' := x / n;
    assert x == q' * n + x % n;
    MulMonotone(q' + 1, q, n);
    MulMonotone(q + 1, q', n);
    assert (q' + 1) * n == q' * n + n && (q + 1) * n == q * n + n;
  }

  lemma MulMonotone(a: int, b: int, n: nat)
    ensures a <= b ==> a * n <= b * n
  {
    if a <= b {
      assert b * n == a * n + (b - a) * n;
    }
  }

  lemma ModNext(x: nat, n: nat)
    requires n > 0
    ensures (x + 1) % n == if x % n + 1 == n then 0 else x % n + 1
  {
    var q := x / n;
    assert x == q * n + x % n;
    if x % n + 1 == n {
      assert x + 1 == (q + 1) * n + 0;
      ModUnique(x + 1, n, q + 1, 0);
    } else {
      ModUnique(x + 1, n, q, x % n + 1);
    }
  }

  lemma ModShift(x: nat, k: nat, n: nat)
    requires n > 0
    ensures (x + n * k) % n == x % n
  {
    assert x == (x / n) * n + x % n;
    assert x + n * k == (x / n + k) * n + x % n;
    ModUnique(x + n * k, n, x / n + k, x % n);
  }

  /** Two numbers fall on the same slot iff the slots divide their distance. */
  lemma SameSlot(a: nat, b: nat, n: nat)
    requires n > 0 && a <= b
    ensures a % n == b % n <==> (b - a) % n == 0
  {
    var d := b - a;
    assert d == (d / n) * n + d % n;
    if d % n == 0 {
      assert b == a + n * (d / n);
      ModShift(a, d / n, n);
    }
    if a % n == b % n {
      assert a == (a / n) * n + a % n && b == (b / n) * n + b % n;
      var k := b / n - a / n;
      assert d == k * n;
      MulMonotone(k, -1, n);
      ModUnique(d, n, k, 0);
    }
  }

  lemma CloseSlotsDiffer(a: nat, b: nat, n: nat)
    requires a < b < a + n
    ensures a % n != b % n
  {
    SameSlot(a, b, n);
    ModUnique(b - a, n, 0, b - a);
  }
}
