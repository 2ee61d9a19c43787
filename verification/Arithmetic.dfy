/** Division by steps and powers of two, for the word arithmetic of the models. */
module Arithmetic {

  lemma MulMono(a: int, b: int, k: nat)
    ensures a <= b ==> k * a <= k * b && a * k <= b * k
  {
  }

  /** A quotient and remainder in range are the quotient and the remainder. */
  lemma DivIs(n: int, k: nat, q: int, r: nat)
    requires r < k && n == k * q + r
    ensures n / k == q && n % k == r
  {
    var p := n / k;
    assert n == k * p + n % k;
    MulMono(p + 1, q, k);
    MulMono(q + 1, p, k);
  }

  /** Adding a multiple of `k` leaves the remainder alone. */
  lemma ModShift(m: int, n: int, k: nat)
    requires k > 0
    ensures (m * k + n) % k == n % k
  {
    assert n == (n / k) * k + n % k;
    assert (m + n / k) * k == m * k + (n / k) * k;
    DivIs(m * k + n, k, m + n / k, n % k);
  }

  /** `b` to the power `n`. */
  function Pow(b: nat, n: nat): (p: nat)
    requires b > 0
    ensures p > 0
  {
    if n == 0 then 1
    else
      MulMono(1, Pow(b, n - 1), b);
      b * Pow(b, n - 1)
  }

  lemma PowersOfTwo()
    ensures Pow(2, 0) == 1 && Pow(2, 1) == 2 && Pow(2, 2) == 4 && Pow(2, 3) == 8 && Pow(2, 4) == 16 && Pow(2, 5) == 32
    ensures Pow(2, 6) == 64 && Pow(2, 7) == 128 && Pow(2, 8) == 256 && Pow(2, 32) == 0x1_0000_0000
  {
    assert Pow(2, 12) == 4096 && Pow(2, 16) == 65536;
    assert Pow(2, 20) == 0x10_0000 && Pow(2, 24) == 0x100_0000 && Pow(2, 28) == 0x1000_0000;
  }

  lemma {:induction false} Pow2Add(a: nat, b: nat)
    ensures Pow(2, a + b) == Pow(2, a) * Pow(2, b)
  {
    if a > 0 {
      Pow2Add(a - 1, b);
      assert a + b - 1 == a - 1 + b;
      Double(Pow(2, a - 1), Pow(2, b));
    }
  }

  lemma Double(x: int, y: int)
    ensures 2 * (x * y) == (2 * x) * y
  {
  }

  /** Halving first and then dividing, or the other way round. */
  lemma HalfThenDivide(v: nat, p: nat)
    requires p > 0
    ensures v / (2 * p) == v / 2 / p
    ensures v % (2 * p) / 2 == v / 2 % p && v % (2 * p) % 2 == v % 2
  {
    var h := v / 2;
    var q, r := h / p, h % p;
    assert v == 2 * h + v % 2 && h == p * q + r;
    assert v == 2 * p * q + (2 * r + v % 2) by {
      assert 2 * (p * q) == 2 * p * q;
    }
    DivIs(v, 2 * p, q, 2 * r + v % 2);
  }

  lemma Scaled(n: nat, p: nat)
    requires p > 0
    ensures n * p / p == n && n * p % p == 0
  {
    DivIs(n * p, p, n, 0);
  }
}
