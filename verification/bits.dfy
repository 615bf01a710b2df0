/** Powers of two and the bitwise AND that the emergency ring uses to
    advance its indices (`(x + 1) & (size - 1)`). */
module Bits {

  /** n is 2^k for some k >= 0. */
  predicate IsPow2(n: int)
    decreases if n < 0 then 0 else n
  {
    n == 1 || (n >= 2 && n % 2 == 0 && IsPow2(n / 2))
  }

  /** Bitwise AND of two non-negative integers, bit by bit from the least
      significant end. */
  function BitAnd(a: nat, b: nat): nat
  {
    if a == 0 || b == 0 then 0
    else 2 * BitAnd(a / 2, b / 2) + (if a % 2 == 1 && b % 2 == 1 then 1 else 0)
  }

  /** Euclidean division is unique: a quotient and remainder in range are
      the ones `/` and `%` compute. */
  lemma DivModUnique(x: int, d: int, q: int, r: int)
    requires d > 0 && x == d * q + r && 0 <= r < d
    ensures x / d == q && x % d == r
  {
    var q', r' := x / d, x % d;
    assert x == d * q' + r';
    var k := q' - q;
    assert d * k == r - r' by {
      assert d * q' - d * q == d * k;
    }
    if k >= 1 {
      MulAtLeast(d, k);
    } else if k <= -1 {
      MulAtLeast(d, -k);
    }
  }

  lemma {:induction false} MulAtLeast(d: int, k: int)
    requires d > 0 && k >= 1
    ensures d * k >= d
    decreases k
  {
    if k > 1 {
      MulAtLeast(d, k - 1);
      assert d * k == d * (k - 1) + d;
    }
  }

  /** Masking with size - 1 is reduction modulo size when size is a power
      of two; this is why the ring can advance its indices with `&`. */
  lemma {:induction false} MaskIsMod(x: nat, n: int)
    requires IsPow2(n)
    ensures BitAnd(x, n - 1) == x % n
    decreases n
  {
    if n == 1 {
    } else if x == 0 {
    } else {
      var m := n / 2;
      assert n == 2 * m && m >= 1;
      assert (n - 1) % 2 == 1 && (n - 1) / 2 == m - 1;
      MaskIsMod(x / 2, m);
      assert BitAnd(x, n - 1) == 2 * ((x / 2) % m) + x % 2;
      HalveMod(x, m);
    }
  }

  /** The residue modulo 2m is assembled from the residue of x / 2 modulo m
      and the lowest bit of x. */
  lemma HalveMod(x: nat, m: int)
    requires m >= 1
    ensures x % (2 * m) == 2 * ((x / 2) % m) + x % 2
  {
    var q := (x / 2) / m;
    var h := (x / 2) % m;
    assert x / 2 == m * q + h;
    assert x == 2 * (x / 2) + x % 2;
    assert x == (2 * m) * q + (2 * h + x % 2);
    DivModUnique(x, 2 * m, q, 2 * h + x % 2);
  }

  /** A smaller power of two divides a larger one. */
  lemma {:induction false} Pow2Divides(n: int, m: int)
    requires IsPow2(n) && IsPow2(m) && n <= m
    ensures m % n == 0
    decreases m
  {
    if m == 1 || n == m {
    } else if n == 1 {
    } else {
      assert m >= 2 && n >= 2;
      Pow2Divides(n / 2, m / 2);
      var k := (m / 2) / (n / 2);
      assert m / 2 == (n / 2) * k;
      assert m == n * k;
      DivModUnique(m, n, k, 0);
    }
  }

  /** Reducing modulo a multiple of n first does not change the residue
      modulo n. */
  lemma ModOfMod(x: int, m: int, n: int)
    requires n > 0 && m > 0 && m % n == 0
    ensures (x % m) % n == x % n
  {
    var k := m / n;
    assert m == n * k;
    var q := x / m;
    assert x == m * q + x % m;
    var q2 := (x % m) / n;
    assert x % m == n * q2 + (x % m) % n;
    assert x == n * (k * q + q2) + (x % m) % n;
    DivModUnique(x, n, k * q + q2, (x % m) % n);
  }

  /** Powers of two are closed under multiplication. */
  lemma {:induction false} Pow2Product(a: int, b: int)
    requires IsPow2(a) && IsPow2(b)
    ensures IsPow2(a * b)
    decreases a
  {
    if a == 1 {
      assert a * b == b;
    } else {
      var h := a / 2;
      Pow2Product(h, b);
      Pow2Double(h * b);
      assert a * b == 2 * (h * b) by {
        assert a == 2 * h;
      }
    }
  }

  lemma Pow2Double(n: int)
    requires IsPow2(n)
    ensures IsPow2(2 * n)
  {
    assert (2 * n) / 2 == n;
  }

  /** The modulus of 64-bit unsigned (size_t) arithmetic. */
  const SizeModulus: int := 0x1_0000_0000_0000_0000

  lemma SizeModulusIsPow2()
    ensures IsPow2(SizeModulus)
  {
    assert IsPow2(2);
    Pow2Product(2, 2);
    Pow2Product(4, 4);
    Pow2Product(16, 16);
    Pow2Product(0x100, 0x100);
    Pow2Product(0x1_0000, 0x1_0000);
    Pow2Product(0x1_0000_0000, 0x1_0000_0000);
  }

  /** Every power of two up to 2^64 divides 2^64: size_t wrap-around
      commutes with reduction modulo such a size. */
  lemma DividesSizeModulus(n: int)
    requires IsPow2(n) && n <= SizeModulus
    ensures SizeModulus % n == 0
  {
    SizeModulusIsPow2();
    Pow2Divides(n, SizeModulus);
  }
}
