/**
 * Python's bitwise operators on non-negative `int`s, which have no width: `&` and `|`
 * work bit by bit from the lowest bit up, `a >> k` is floor division by 2**k and
 * `a << k` is multiplication by 2**k.
 */
module PyInts {

  function Pow2(k: nat): (p: nat)
    ensures p >= 1
  {
    if k == 0 then 1 else 2 * Pow2(k - 1)
  }

  /** `a & b`. */
  function BitAnd(a: nat, b: nat): (r: nat)
    ensures r <= a && r <= b
  {
    if a == 0 || b == 0 then 0
    else 2 * BitAnd(a / 2, b / 2) + (if a % 2 == 1 && b % 2 == 1 then 1 else 0)
  }

  /** `a | b`. */
  function BitOr(a: nat, b: nat): (r: nat)
    ensures a <= r && b <= r && r <= a + b
  {
    if a == 0 then b
    else if b == 0 then a
    else 2 * BitOr(a / 2, b / 2) + (if a % 2 == 1 || b % 2 == 1 then 1 else 0)
  }

  /** `a >> k`: floor division by 2**k, one halving per bit. */
  function ShiftRight(a: nat, k: nat): nat {
    if k == 0 then a else ShiftRight(a / 2, k - 1)
  }

  /** `a << k`. */
  function ShiftLeft(a: nat, k: nat): nat {
    a * Pow2(k)
  }

  /** Division with remainder has one answer. */
  lemma DivModUnique(n: nat, d: nat, q: nat, r: nat)
    requires d > 0 && r < d && n == q * d + r
    ensures n / d == q && n % d == r
  {
    var q0, r0 := n / d, n % d;
    assert n == q0 * d + r0;
    if q0 < q {
      MulAtLeast(q - q0, d);
      Distribute(q, q0, d);
    } else if q0 > q {
      MulAtLeast(q0 - q, d);
      Distribute(q0, q, d);
    }
  }

  lemma MulAtLeast(x: nat, d: nat)
    requires x >= 1
    ensures x * d >= d
  {
  }

  lemma Distribute(x: nat, y: nat, d: nat)
    requires x >= y
    ensures (x - y) * d == x * d - y * d
  {
  }

  /** Halving, then dividing by q, divides by `p == 2 * q`; the remainder is the low bit plus
      twice the remainder of the half. */
  lemma HalveDivMod(n: nat, q: nat, p: nat)
    requires q > 0 && p == 2 * q
    ensures (n / 2) / q == n / p
    ensures 2 * ((n / 2) % q) + n % 2 == n % p
  {
    var a, s, t := n / 2, (n / 2) % q, (n / 2) / q;
    assert n == 2 * a + n % 2;
    assert a == t * q + s;
    assert n == t * p + (2 * s + n % 2);
    DivModUnique(n, p, t, 2 * s + n % 2);
  }

  /** Masking with k one-bits keeps the value modulo 2**k: `n & 0xFF == n % 256`. */
  lemma {:induction false} MaskLow(n: nat, k: nat)
    ensures BitAnd(n, Pow2(k) - 1) == n % Pow2(k)
  {
    var p := Pow2(k);
    if k == 0 {
      assert p == 1 && BitAnd(n, 0) == 0 && n % 1 == 0;
    } else if n == 0 {
      assert BitAnd(0, p - 1) == 0;
      ZeroMod(p);
    } else {
      MaskLow(n / 2, k - 1);
      MaskLowStep(n, Pow2(k - 1), p);
    }
  }

  /** The inductive step of MaskLow: one more mask bit, from the bits of `n / 2` below `q`. */
  lemma MaskLowStep(n: nat, q: nat, p: nat)
    requires n > 0 && q > 0 && p == 2 * q
    requires BitAnd(n / 2, q - 1) == (n / 2) % q
    ensures BitAnd(n, p - 1) == n % p
  {
    MaskStep(n, p - 1, q - 1);
    HalveDivMod(n, q, p);
  }

  lemma ZeroMod(p: nat)
    requires p > 0
    ensures 0 % p == 0
  {
    DivModUnique(0, p, 0, 0);
  }

  /** One bit of `n & m` for a mask `m` whose low bit is set. */
  lemma MaskStep(n: nat, m: nat, half: nat)
    requires n > 0 && m == 2 * half + 1
    ensures BitAnd(n, m) == 2 * BitAnd(n / 2, half) + n % 2
  {
    assert m / 2 == half && m % 2 == 1;
  }

  /** Shifting right by k bits divides by 2**k: `n >> 8 == n // 256`. */
  lemma {:induction false} ShiftRightDiv(n: nat, k: nat)
    ensures ShiftRight(n, k) == n / Pow2(k)
  {
    if k > 0 {
      ShiftRightDiv(n / 2, k - 1);
      HalveDivMod(n, Pow2(k - 1), Pow2(k));
    }
  }

  /** Or-ing a value below 2**k into a multiple of 2**k adds it: `(hi << 8) | lo == hi * 256 + lo`. */
  lemma {:induction false} OrBelow(a: nat, b: nat, k: nat)
    requires b < Pow2(k)
    ensures BitOr(a * Pow2(k), b) == a * Pow2(k) + b
  {
    if k > 0 && a > 0 && b > 0 {
      var hi := a * Pow2(k - 1);
      assert a * Pow2(k) == 2 * hi;
      assert (a * Pow2(k)) / 2 == hi && (a * Pow2(k)) % 2 == 0;
      OrBelow(a, b / 2, k - 1);
    }
  }
}
