/** Facts about Euclidean `%` that the cursor arithmetic relies on. */
module ModArith {

  lemma MulAtLeast(q: int, d: int)
    requires q > 0 && d >= 1
    ensures q * d >= q
  {
  }

  /** Division with remainder has one answer. */
  lemma ModUnique(a: int, q: int, k: int, r: int)
    requires q > 0 && a == q * k + r && 0 <= r < q
    ensures a % q == r && a / q == k
  {
    var k0, r0 := a / q, a % q;
    assert a == q * k0 + r0;
    if k > k0 {
      MulAtLeast(q, k - k0);
    } else if k < k0 {
      MulAtLeast(q, k0 - k);
    }
  }

  /** Advancing a reduced cursor by one and reducing again is the same as reducing once. */
  lemma ModSucc(a: int, q: int)
    requires q > 0
    ensures (a % q + 1) % q == (a + 1) % q
  {
    var k, r := a / q, a % q;
    if r + 1 < q {
      ModUnique(a + 1, q, k, r + 1);
      ModUnique(r + 1, q, 0, r + 1);
    } else {
      ModUnique(a + 1, q, k + 1, 0);
      ModUnique(r + 1, q, 1, 0);
    }
  }

  /** A number below the modulus is its own remainder. */
  lemma ModSmall(a: int, q: int)
    requires 0 <= a < q
    ensures a % q == a
  {
    ModUnique(a, q, 0, a);
  }

  /** Two numbers closer than the modulus, and not equal, have different remainders. */
  lemma ModDistinct(i: int, d: int, q: int)
    requires 0 < d < q
    ensures (i + d) % q != i % q
  {
    var k, r := i / q, i % q;
    if r + d < q {
      ModUnique(i + d, q, k, r + d);
    } else {
      ModUnique(i + d, q, k + 1, r + d - q);
    }
  }

  /** Reducing the left operand of a sum first does not change its remainder. */
  lemma {:induction false} ModAddLeft(a: nat, b: nat, q: nat)
    requires q > 0
    ensures (a % q + b) % q == (a + b) % q
    decreases b
  {
    if b == 0 {
      ModSmall(a % q, q);
    } else {
      ModAddLeft(a, b - 1, q);
      ModSucc(a % q + b - 1, q);
      ModSucc(a + b - 1, q);
    }
  }

  /** Adding one whole turn does not change the remainder. */
  lemma ModAddTurn(a: int, q: int)
    requires q > 0
    ensures (a + q) % q == a % q
  {
    ModUnique(a + q, q, a / q + 1, a % q);
  }
}
