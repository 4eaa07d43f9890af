/** Products, powers of two and bitwise OR on natural numbers. */
module Arithmetic {

  const TWO_64: nat := 0x1_0000_0000_0000_0000

  lemma {:induction false} MulMonotone(a: nat, b: nat, c: nat)
    requires a <= b
    ensures a * c <= b * c
    decreases b - a
  {
    if a < b {
      MulMonotone(a, b - 1, c);
      MulStep(b - 1, c);
    }
  }

  lemma MulStep(a: nat, c: nat)
    ensures (a + 1) * c == a * c + c
  {}

  lemma SmallMod(a: nat, n: nat)
    requires a < n
    ensures a % n == a
  {}

  lemma BelowMultiple(a: nat, w: nat, n: nat)
    requires a < n
    ensures a * w + w <= n * w
  {
    MulStep(a, w);
    MulMonotone(a + 1, n, w);
  }

  lemma SameMultiple(a: nat, b: nat, w: nat)
    requires w >= 1
    ensures a * w == b * w <==> a == b
  {
    if a < b { BelowMultiple(a, w, b); }
    if b < a { BelowMultiple(b, w, a); }
  }

  lemma QuotientUnique(q: nat, r: nat, b: nat)
    requires r < b
    ensures (q * b + r) % b == r && (q * b + r) / b == q
  {
    var n := q * b + r;
    var d := n / b;
    assert n == d * b + n % b;
    if d < q { BelowMultiple(d, b, q); }
    if q < d { BelowMultiple(q, b, d); }
  }

  lemma AddMultiple(r: nat, k: nat, b: nat)
    requires b > 0
    ensures (k * b + r) % b == r % b
  {
    var q := r / b;
    assert r == q * b + r % b;
    assert k * b + r == (k + q) * b + r % b;
    QuotientUnique(k + q, r % b, b);
  }

  lemma ModOfMod(n: nat, a: nat, b: nat)
    requires a > 0 && b > 0
    ensures a * b > 0 && (n % (a * b)) % b == n % b
  {
    BelowMultiple(0, b, a);
    var q, r := n / (a * b), n % (a * b);
    assert n == (a * b) * q + r;
    assert (a * b) * q == (a * q) * b;
    AddMultiple(r, a * q, b);
  }

  lemma ScaledParts(v: nat, q: nat, r: nat, w: nat, p: nat)
    requires v == q * w + r
    ensures v * p == q * (w * p) + r * p
  {}

  lemma DigitsJoined(q: nat, r: nat, d: nat, base: nat, p: nat)
    requires r < p && d < base
    ensures r * base + d < base * p
    ensures (q * p + r) * base + d == q * (base * p) + (r * base + d)
  {
    BelowMultiple(r, base, p);
    ScaledParts(q * p + r, q, r, p, base);
  }

  lemma QuotientOf(n: nat, q: nat, r: nat, b: nat)
    requires r < b && n == q * b + r
    ensures n / b == q
  {
    QuotientUnique(q, r, b);
  }

  /** Dropping the last digit of `n` in base `base`, and then the lower part of the rest. */
  lemma DropDigit(n: nat, base: nat, p: nat)
    requires base > 0 && p > 0
    ensures base * p > 0 && n / (base * p) == (n / base) / p
  {
    var q, r, d := (n / base) / p, (n / base) % p, n % base;
    DigitsJoined(q, r, d, base, p);
    QuotientOf(n, q, r * base + d, base * p);
  }

  lemma ModScaled(v: nat, w: nat, p: nat)
    requires w > 0 && p > 0
    ensures w * p > 0 && (v * p) % (w * p) == (v % w) * p
  {
    BelowMultiple(0, p, w);
    var q, r := v / w, v % w;
    ScaledParts(v, q, r, w, p);
    BelowMultiple(r, p, w);
    QuotientUnique(q, r * p, w * p);
  }

  function Pow2(k: nat): (p: nat)
    ensures p >= 1
  {
    if k == 0 then 1 else 2 * Pow2(k - 1)
  }

  lemma Twice(x: nat, y: nat)
    ensures 2 * (x * y) == (2 * x) * y
  {}

  lemma {:induction false} Pow2Add(a: nat, b: nat)
    ensures Pow2(a + b) == Pow2(a) * Pow2(b)
  {
    if a > 0 {
      Pow2Add(a - 1, b);
      Twice(Pow2(a - 1), Pow2(b));
    }
  }

  lemma Pow2Of64()
    ensures Pow2(64) == TWO_64
  {
    assert Pow2(8) == 256;
    hide Pow2;
    Pow2Add(8, 8);
    assert Pow2(16) == 65536;
    Pow2Add(16, 16);
    assert Pow2(32) == 0x1_0000_0000;
    Pow2Add(32, 32);
  }

  lemma {:induction false} Pow2Monotone(a: nat, b: nat)
    requires a <= b
    ensures Pow2(a) <= Pow2(b)
    decreases b - a
  {
    if a < b { Pow2Monotone(a, b - 1); }
  }

  /** Bitwise OR. */
  function Or(a: nat, b: nat): nat
    decreases a + b
  {
    if a == 0 && b == 0 then 0
    else (if a % 2 == 1 || b % 2 == 1 then 1 else 0) + 2 * Or(a / 2, b / 2)
  }

  lemma {:induction false} OrZero(a: nat)
    ensures Or(0, a) == a && Or(a, 0) == a
  {
    if a > 0 { OrZero(a / 2); }
  }

  lemma {:induction false} OrComm(a: nat, b: nat)
    ensures Or(a, b) == Or(b, a)
    decreases a + b
  {
    if a + b > 0 { OrComm(a / 2, b / 2); }
  }

  lemma {:induction false} OrAssoc(a: nat, b: nat, c: nat)
    ensures Or(Or(a, b), c) == Or(a, Or(b, c))
    decreases a + b + c
  {
    if a + b + c > 0 {
      OrHalves(a, b);
      OrHalves(b, c);
      OrAssoc(a / 2, b / 2, c / 2);
    }
  }

  lemma OrHalves(a: nat, b: nat)
    ensures Or(a, b) / 2 == Or(a / 2, b / 2)
    ensures Or(a, b) % 2 == if a % 2 == 1 || b % 2 == 1 then 1 else 0
  {}

  lemma Doubled(b: nat, p: nat)
    ensures b * (2 * p) == 2 * (b * p)
  {}

  /** The OR of a value below a power of two and a multiple of it is their sum. */
  lemma {:induction false} OrDisjoint(a: nat, b: nat, k: nat)
    requires a < Pow2(k)
    ensures Or(a, b * Pow2(k)) == a + b * Pow2(k)
    ensures Or(b * Pow2(k), a) == a + b * Pow2(k)
    decreases k
  {
    OrComm(a, b * Pow2(k));
    if k == 0 {
      OrZero(b);
    } else {
      var c := b * Pow2(k - 1);
      Doubled(b, Pow2(k - 1));
      OrDisjoint(a / 2, b, k - 1);
      assert (2 * c) / 2 == c && (2 * c) % 2 == 0;
    }
  }

  /** Setting the low `k` bits. */
  lemma {:induction false} OrLowOnes(q: nat, r: nat, k: nat)
    requires r < Pow2(k)
    ensures Or(q * Pow2(k) + r, Pow2(k) - 1) == q * Pow2(k) + (Pow2(k) - 1)
    decreases k
  {
    if k == 0 {
      OrZero(q);
    } else {
      var p := Pow2(k - 1);
      Doubled(q, p);
      OrLowOnes(q, r / 2, k - 1);
      assert (2 * (q * p) + r) / 2 == q * p + r / 2;
      assert (2 * p - 1) / 2 == p - 1 && (2 * p - 1) % 2 == 1;
    }
  }
}
