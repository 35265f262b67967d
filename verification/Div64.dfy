/**
 64-bit division from the 32-bit division instruction, as in Hacker's Delight.  Machine
 words are integers with their ranges; shifts are multiplications and divisions by powers
 of two, and every wrap-around is written out.
 */
module Div64 {
  import opened Products

  const B31: int := 0x8000_0000
  const B32: int := 0x1_0000_0000
  const B63: int := 0x8000_0000_0000_0000
  const B64: int := 0x1_0000_0000_0000_0000

  // ----- products, one law at a time -----

  lemma MulBoth(a: nat, b: nat, c: nat, d: nat)
    requires a <= b && c <= d
    ensures a * c <= b * d
  {
    MulMono(a, b, c);
    MulMono(c, d, b);
  }

  lemma Associate(a: int, b: int, c: int)
    ensures a * b * c == a * (b * c) == a * c * b
  {
  }

  lemma MulPositive(a: int, b: int)
    requires a > 0 && b > 0
    ensures a * b > 0
  {
  }

  // ----- powers of two -----

  function Pow2(n: nat): (r: nat)
    ensures r > 0
  {
    if n == 0 then 1 else 2 * Pow2(n - 1)
  }

  lemma {:induction false} Pow2Add(a: nat, b: nat)
    ensures Pow2(a + b) == Pow2(a) * Pow2(b)
  {
    if a > 0 {
      Pow2Add(a - 1, b);
      Associate(2, Pow2(a - 1), Pow2(b));
    }
  }

  lemma Pow2Values()
    ensures Pow2(1) == 2 && Pow2(2) == 4 && Pow2(4) == 16 && Pow2(8) == 256 && Pow2(16) == 65536
    ensures Pow2(32) == B32
  {
    assert Pow2(4) == 16;
    Pow2Add(4, 4);
    Pow2Add(8, 8);
    Pow2Add(16, 16);
  }

  // ----- quotients -----

  lemma QuotientBounds(n: nat, d: nat)
    requires d > 0
    ensures n / d * d <= n < n / d * d + d
  {
  }

  lemma QuotientUnique(n: nat, d: nat, q: nat)
    requires d > 0 && q * d <= n < q * d + d
    ensures n / d == q
  {
    var Q := n / d;
    QuotientBounds(n, d);
    if Q < q {
      MulMono(Q + 1, q, d);
      Distribute(Q, 1, d);
    } else if q < Q {
      MulMono(q + 1, Q, d);
      Distribute(q, 1, d);
    }
  }

  lemma QuotientBelow(n: nat, d: nat, b: nat)
    requires d > 0 && n < b * d
    ensures n / d < b
  {
    QuotientBounds(n, d);
    if b <= n / d {
      MulMono(b, n / d, d);
    }
  }

  /** Dividing twice is dividing by the product. */
  lemma DivDiv(n: nat, a: nat, b: nat)
    requires a > 0 && b > 0
    ensures a * b > 0 && n / a / b == n / (a * b)
  {
    var x := n / a;
    var q := x / b;
    QuotientBounds(n, a);
    QuotientBounds(x, b);
    MulMono(q * b, x, a);
    MulMono(x + 1, q * b + b, a);
    Distribute(x, 1, a);
    Distribute(q * b, b, a);
    Associate(q, b, a);
    MulPositive(a, b);
    QuotientUnique(n, a * b, q);
  }

  // ----- the primitive -----

  /** The DIVL instruction; the precondition says that it does not trap. */
  function Divl(n: nat, d: nat): (q: nat)
    requires n < B64 && 0 < d < B32 && n / d < B32
    ensures q < B32 && q * d <= n < q * d + d
  {
    QuotientBounds(n, d);
    n / d
  }

  // ----- leading zeros -----

  /** `x` is `x0` shifted left by `n` places, and no set bit has been lost. */
  ghost predicate ShiftedBy(x0: nat, x: nat, n: nat) {
    x == x0 * Pow2(n) && x < B32
  }

  lemma ShiftMore(x0: nat, x: nat, n: nat, k: nat, c: nat)
    requires ShiftedBy(x0, x, n) && c == Pow2(k) && x * c < B32
    ensures x * c % B32 == x * c && ShiftedBy(x0, x * c, n + k)
  {
    hide Pow2;
    Pow2Add(n, k);
    Associate(x0, Pow2(n), Pow2(k));
    WordIsItself(x * c);
  }

  lemma WordIsItself(x: nat)
    requires x < B32
    ensures x % B32 == x
  {
  }

  /** nlz: how far a nonzero word must be shifted to set its top bit. */
  method Nlz(x0: nat) returns (n: nat)
    requires 0 < x0 < B32
    ensures n <= 31 && B31 <= x0 * Pow2(n) < B32
  {
    hide Pow2, ShiftedBy;
    Pow2Values();
    n := 0;
    var x := x0;
    ShiftNone(x0);
    if x <= 0x0000FFFF {
      n, x := ShiftUp(x0, x, n, 16, 65536);
    }
    if x <= 0x00FFFFFF {
      n, x := ShiftUp(x0, x, n, 8, 256);
    }
    if x <= 0x0FFFFFFF {
      n, x := ShiftUp(x0, x, n, 4, 16);
    }
    if x <= 0x3FFFFFFF {
      n, x := ShiftUp(x0, x, n, 2, 4);
    }
    if x <= 0x7FFFFFFF {
      n, x := ShiftUp(x0, x, n, 1, 2);
    }
    ShiftResult(x0, x, n);
  }

  /** n += k; x <<= k; for a shift that loses no bits. */
  method ShiftUp(ghost x0: nat, x: nat, n: nat, k: nat, c: nat) returns (n': nat, x': nat)
    requires ShiftedBy(x0, x, n) && c == Pow2(k) && x * c < B32
    ensures n' == n + k && x' == x * c && ShiftedBy(x0, x', n')
  {
    hide Pow2, ShiftedBy;
    ShiftMore(x0, x, n, k, c);
    n', x' := n + k, x * c % B32;
  }

  lemma ShiftNone(x0: nat)
    requires x0 < B32
    ensures ShiftedBy(x0, x0, 0)
  {
  }

  lemma ShiftResult(x0: nat, x: nat, n: nat)
    requires ShiftedBy(x0, x, n)
    ensures x0 * Pow2(n) == x
  {
  }

  // ----- the small divisor -----

  /** n = B32 * n1 + n0, n1 = q1 * d + r1, and qm is the quotient of B32 * r1 + n0. */
  lemma SmallDivisor(n: nat, d: nat, n1: nat, n0: nat, q1: nat, r1: nat, qm: nat)
    requires n == B32 * n1 + n0 && n0 < B32 && n1 == q1 * d + r1 && r1 < d
    requires var m := B32 * r1 + n0; qm * d <= m < qm * d + d
    ensures var q := qm + B32 * q1; q * d <= n < q * d + d
  {
    Distribute(qm, B32 * q1, d);
    Associate(B32, q1, d);
  }

  // ----- the large divisor -----

  /**
   The estimate from the shifted divisor.  With h = 2^(31-s), w = 2 * v1 * h is the divisor
   with its low bits cleared, and the estimate is n / w.
   */
  lemma Estimate(n: nat, v1: nat, h: nat)
    requires v1 > 0 && h > 0
    ensures 2 * v1 * h > 0 && n / 2 / v1 / h == n / (2 * v1 * h)
  {
    DivDiv(n, 2, v1);
    DivDiv(n, 2 * v1, h);
  }

  /** The heart of the matter: (p - 2)^2 >= 0. */
  lemma FourTimes(p: nat)
    requires p > 0
    ensures 4 * (p - 1) <= p * p
  {
    assert (p - 2) * (p - 2) == p * p - 4 * p + 4;
  }

  /** The square of the shortened divisor outweighs every dividend times the part cut off. */
  lemma CutIsSmall(n: nat, w: nat, p: nat, gap: nat)
    requires n < B64 && gap < p && B31 * p <= w
    ensures n * gap <= w * w
  {
    var square := p * p;
    FourTimes(p);
    MulBoth(n, B64, gap, p - 1);
    assert B64 * (p - 1) == B31 * B31 * (4 * (p - 1));
    assert B31 * B31 * (4 * (p - 1)) <= B31 * B31 * square;
    MulBoth(B31 * p, w, B31 * p, w);
    assert B31 * p * (B31 * p) == B31 * B31 * square;
  }

  lemma GapFits(n: nat, d: nat, w: nat, p: nat, e: nat)
    requires n < B64 && 0 < w <= d < w + p && B31 * p <= w && e * w <= n
    ensures e * (d - w) <= d
  {
    var gap := d - w;
    var x := e * gap;
    CutIsSmall(n, w, p, gap);
    MulMono(e * w, n, gap);
    Associate(e, gap, w);
    MulMono(w, d, w);
    if d < x {
      MulMono(d + 1, x, w);
      Distribute(d, 1, w);
    }
  }

  lemma NotTooBig(n: nat, d: nat, w: nat, p: nat, q: nat, e: nat)
    requires n < B64 && 0 < w <= d < w + p && B31 * p <= w && e * w <= n < q * d + d
    ensures e <= q + 1
  {
    GapFits(n, d, w, p, e);
    Distribute(w, d - w, e);
    Distribute(e, -1, d);
    if q + 1 < e {
      MulMono(q + 1, e - 1, d);
      Distribute(q, 1, d);
    }
  }

  lemma NotTooSmall(n: nat, d: nat, w: nat, q: nat, e: nat)
    requires 0 < w <= d && q * d <= n < e * w + w
    ensures q <= e
  {
    MulMono(w, d, q);
    if e < q {
      MulMono(e + 1, q, w);
      Distribute(e, 1, w);
    }
  }

  /** Clearing the low bits of the divisor changes the quotient by at most one. */
  lemma EstimateIsClose(n: nat, d: nat, w: nat, p: nat)
    requires n < B64 && 0 < w <= d < w + p && B31 * p <= w
    ensures n / d <= n / w <= n / d + 1
  {
    QuotientBounds(n, w);
    QuotientBounds(n, d);
    var q, e := n / d, n / w;
    NotTooSmall(n, d, w, q, e);
    NotTooBig(n, d, w, p, q, e);
  }

  lemma TopStaysBelow(d1: nat, t: nat, p: nat)
    requires t * p == B32 && d1 * t < B32 && p > 0
    ensures d1 * t + t <= B32
  {
    if p <= d1 {
      MulMono(p, d1, t);
    } else {
      MulMono(d1 + 1, p, t);
      Distribute(d1, 1, t);
    }
  }

  /** Cutting the shifted divisor cuts the divisor. */
  lemma Between(d: nat, t: nat, p: nat, v1: nat)
    requires t > 0 && t * p == B32 && v1 * B32 <= d * t < v1 * B32 + B32
    ensures v1 * p <= d < v1 * p + p
  {
    var w := v1 * p;
    Associate(v1, t, p);
    Associate(v1, p, t);
    Distribute(w, p, t);
    if d < w {
      MulMono(d, w, t);
      MulMono(d + 1, w, t);
      Distribute(d, 1, t);
    }
    if w + p <= d {
      MulMono(w + p, d, t);
    }
  }

  /** The shifted divisor: its upper word is the shifted upper word plus what the lower word brings in. */
  lemma ShiftedWords(d: nat, d1: nat, d0: nat, t: nat, p: nat)
    requires d == d1 * B32 + d0 && d0 < B32 && p > 0 && t * p == B32 && d1 * t < B32
    ensures d1 * t * B32 <= d * t <= B64 - 1
  {
    var top, low := d1 * t, d0 * t;
    Distribute(d1 * B32, d0, t);
    Associate(d1, B32, t);
    MulMono(d0 + 1, B32, t);
    Distribute(d0, 1, t);
    TopStaysBelow(d1, t, p);
    assert t > 0;
  }

  /** What shifting the divisor left until its top bit is set yields. */
  lemma NormalizedDivisor(d: nat, d1: nat, d0: nat, t: nat, p: nat)
    requires d == d1 * B32 + d0 && d0 < B32 && t > 0 && p > 0 && t * p == B32
    requires B31 <= d1 * t < B32
    ensures d * t < B64
    ensures B31 <= d * t / B32 < B32
    ensures d * t / B32 * p <= d < d * t / B32 * p + p
  {
    ShiftedWords(d, d1, d0, t, p);
    WordQuotient(d * t, d1 * t);
    Between(d, t, p, d * t / B32);
  }

  lemma WordQuotient(x: nat, top: nat)
    requires B31 <= top && top * B32 <= x < B64
    ensures B31 <= x / B32 < B32 && x / B32 * B32 <= x < x / B32 * B32 + B32
  {
  }

  /** udiv64 is floor division, and none of its DIVL instructions traps. */
  method Udiv64(n: nat, d: nat) returns (q: nat)
    requires n < B64 && 0 < d < B64
    ensures q == n / d
  {
    if d / B32 == 0 {
      q := DivideBySmall(n, d);
    } else if n < d {
      q := 0;
      QuotientUnique(n, d, 0);
    } else {
      q := DivideByLarge(n, d);
    }
  }

  /** The branch of udiv64 for a divisor of at most 32 bits. */
  method DivideBySmall(n: nat, d: nat) returns (q: nat)
    requires n < B64 && 0 < d < B32
    ensures q == n / d
  {
    var n1, n0 := n / B32, n % B32;
    var q1, r1 := n1 / d, n1 % d;
    QuotientBounds(n1, d);
    Remainder(n1, d);
    var m := B32 * r1 + n0;
    assert m < B32 * d;
    QuotientBelow(m, d, B32);
    var qm := Divl(m, d);
    SmallDivisor(n, d, n1, n0, q1, r1, qm);
    q := qm + B32 * q1;
    QuotientUnique(n, d, q);
  }

  lemma Remainder(n: nat, d: nat)
    requires d > 0
    ensures n == n / d * d + n % d && 0 <= n % d < d
  {
  }

  /** The branch of udiv64 for a divisor of more than 32 bits. */
  method DivideByLarge(n: nat, d: nat) returns (q: nat)
    requires B32 <= d <= n < B64
    ensures q == n / d
  {
    hide Pow2;
    var s := Nlz(d / B32);
    ShiftedDivisor(d, s);
    var v1 := d * Pow2(s) % B64 / B32;
    CloseEstimate(n, d, v1, Pow2(31 - s));
    q := Divl(n / 2, v1) / Pow2(31 - s);
    Correction(n, d, q);
    q := if (n - (q - 1) * d) % B64 < d then q - 1 else q;
  }

  /** The shifted divisor (d << s) >> 32 keeps the leading 32 bits of d. */
  lemma ShiftedDivisor(d: nat, s: nat)
    requires B32 <= d < B64 && s <= 31 && B31 <= d / B32 * Pow2(s) < B32
    ensures var v1, p := d * Pow2(s) % B64 / B32, 2 * Pow2(31 - s);
      B31 <= v1 < B32 && v1 * p <= d < v1 * p + p
  {
    hide Pow2;
    var t := Pow2(s);
    TwoHalves(s);
    NormalizedDivisor(d, d / B32, d % B32, t, 2 * Pow2(31 - s));
    assert d * t % B64 == d * t;
  }

  /** The instruction does not trap, and its shifted result is the quotient or one more. */
  lemma CloseEstimate(n: nat, d: nat, v1: nat, h: nat)
    requires n < B64 && B31 <= v1 < B32 && h > 0 && v1 * (2 * h) <= d < v1 * (2 * h) + 2 * h
    ensures n / 2 / v1 < B32
    ensures n / d <= n / 2 / v1 / h <= n / d + 1
  {
    MulMono(B31, v1, B32);
    QuotientBelow(n / 2, v1, B32);
    Estimate(n, v1, h);
    Associate(2, v1, h);
    Associate(v1, 2, h);
    MulMono(B31, v1, 2 * h);
    EstimateIsClose(n, d, v1 * (2 * h), 2 * h);
  }

  lemma TwoHalves(s: nat)
    requires s <= 31
    ensures Pow2(s) * (2 * Pow2(31 - s)) == B32
  {
    hide Pow2;
    Pow2Values();
    Pow2Add(s, 32 - s);
    assert Pow2(32 - s) == 2 * Pow2(31 - s) by { Pow2Add(1, 31 - s); }
  }

  lemma QuotientPositive(n: nat, d: nat)
    requires 0 < d <= n
    ensures n / d >= 1
  {
    QuotientBounds(n, d);
  }

  /** The last comparison picks the right one of the two candidates. */
  lemma Correction(n: nat, d: nat, q: nat)
    requires n < B64 && 0 < d <= n && n / d <= q <= n / d + 1
    ensures q >= 1 && 0 <= n - (q - 1) * d < B64
    ensures n / d == if n - (q - 1) * d < d then q - 1 else q
  {
    QuotientBounds(n, d);
    QuotientPositive(n, d);
    Distribute(q, -1, d);
    Distribute(n / d, 1, d);
  }

  // ----- signed division -----

  function Abs(x: int): nat { if x < 0 then 0 - x else x }

  /** The quotient truncated toward zero, as C defines it. */
  function TruncDiv(n: int, d: int): int
    requires d != 0
  {
    if (n < 0) == (d < 0) then Abs(n) / Abs(d) else 0 - Abs(n) / Abs(d)
  }

  predicate IsInt64(x: int) { -B63 <= x < B63 }

  /** Conversion to int64_t wraps around. */
  function ToInt64(x: int): int {
    if x % B64 < B63 then x % B64 else x % B64 - B64
  }

  /** Conversion to uint64_t, and negation in it. */
  function Magnitude(x: int): nat {
    if x >= 0 then x % B64 else (0 - x % B64) % B64
  }

  /** Remainders of numbers within one modulus of zero. */
  lemma Residue(x: int, m: int)
    requires -m <= x < m && m > 0
    ensures x % m == if x < 0 then x + m else x
  {
    var q, r := x / m, x % m;
    assert x == q * m + r;
    if q >= 1 {
      MulMono(1, q, m);
    } else if q <= -2 {
      MulMono(2, 0 - q, m);
    }
  }

  lemma MagnitudeIsAbs(x: int)
    requires IsInt64(x)
    ensures Magnitude(x) == Abs(x)
  {
    Residue(x, B64);
    Residue(0 - x % B64, B64);
  }

  /** The magnitude of a quotient reaches 2^63 only for the smallest dividend over 1 or -1. */
  lemma AbsQuotient(n: int, d: int)
    requires IsInt64(n) && IsInt64(d) && d != 0
    ensures Abs(n) / Abs(d) <= B63
    ensures Abs(n) / Abs(d) == B63 <==> n == -B63 && Abs(d) == 1
  {
    if Abs(d) >= 2 {
      MulMono(2, Abs(d), B63);
      QuotientBelow(Abs(n), Abs(d), B63);
    }
  }

  /** sdiv64 truncates toward zero, except for the one quotient that no int64_t can hold. */
  method Sdiv64(n: int, d: int) returns (q: int)
    requires IsInt64(n) && IsInt64(d) && d != 0
    ensures IsInt64(q)
    ensures q == TruncDiv(n, d) <==> !(n == -B63 && d == -1)
  {
    MagnitudeIsAbs(n);
    MagnitudeIsAbs(d);
    var nAbs := Magnitude(n);
    var dAbs := Magnitude(d);
    var qAbs := Udiv64(nAbs, dAbs);
    AbsQuotient(n, d);
    hide ToInt64;
    Wraps(qAbs);
    q := if (n < 0) == (d < 0) then ToInt64(qAbs) else ToInt64(0 - ToInt64(qAbs));
  }

  /** The two conversions at the end of sdiv64. */
  lemma Wraps(q: nat)
    requires q <= B63
    ensures ToInt64(q) == if q == B63 then -B63 else q
    ensures ToInt64(0 - ToInt64(q)) == 0 - q
  {
    Residue(q, B64);
    Residue(0 - q, B64);
    Residue(B63, B64);
  }

  /** umod64 returns 32 bits only: it is the remainder exactly when the remainder fits. */
  method Umod64(n: nat, d: nat) returns (r: nat)
    requires n < B64 && 0 < d < B64
    ensures r == n % d % B32
    ensures r == n % d <==> n % d < B32
  {
    var q := Udiv64(n, d);
    Remainder(n, d);
    var rest := n - d * q;
    r := rest % B64 % B32;
  }
}
