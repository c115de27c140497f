/** A byte and the checksum byte that is adjusted to it never cancel in the hash. */
module HashPairs {
  import opened Bytes
  import opened DoubleSum
  import opened SumDetection
  import opened DjbHash
  import opened HashLogs

  // ----- the order of 33 modulo powers of two -----

  lemma {:induction false} PowAdd(m: nat, n: nat)
    ensures Pow33(m + n) == Pow33(m) * Pow33(n)
  {
    if m == 0 {
    } else {
      PowAdd(m - 1, n);
      Associate(33, Pow33(m - 1), Pow33(n));
    }
  }

  lemma Associate(a: int, b: int, c: int)
    ensures a * (b * c) == a * b * c
  {
  }

  /** Any power of 33 is one more than a multiple of 32. */
  lemma {:induction false} PowMod32(m: nat) returns (t: nat)
    ensures Pow33(m) == 32 * t + 1
  {
    if m == 0 {
      t := 0;
    } else {
      t := PowMod32(m - 1);
      t := 33 * t + 1;
    }
  }

  /** An odd power of 33 is one more than an odd multiple of 32. */
  lemma {:induction false} OddPower(m: nat) returns (u: int)
    requires m % 2 == 1
    ensures Pow33(m) == 32 * u + 1 && u % 2 == 1
  {
    if m == 1 {
      assert Pow33(1) == 33;
      u := 1;
    } else {
      var v := OddPower(m - 2);
      assert Pow33(m - 1) == 33 * Pow33(m - 2);
      u := 1089 * v + 34;
      OddStep(v);
    }
  }

  lemma OddStep(v: int)
    requires v % 2 == 1
    ensures (1089 * v + 34) % 2 == 1
  {
  }

  /** Up to odd factors, the m-th power of 33 exceeds 1 by 32 times m. */
  lemma {:induction false} PowerExcess(m: nat) returns (w: int, u: int)
    requires m > 0
    ensures w % 2 == 1 && u % 2 == 1
    ensures (Pow33(m) - 1) * w == 32 * m * u
  {
    if m % 2 == 1 {
      u := OddPower(m);
      w := m;
      OddExcess(Pow33(m), m, u);
    } else {
      var h := m / 2;
      var v;
      w, v := PowerExcess(h);
      u := EvenExcess(h, w, v);
      assert h + h == m;
    }
  }

  lemma OddExcess(p: int, m: int, u: int)
    requires p == 32 * u + 1
    ensures (p - 1) * m == 32 * m * u
  {
    Associate(32, m, u);
    Associate(32, u, m);
  }

  lemma EvenExcess(h: nat, w: int, v: int) returns (u: int)
    requires v % 2 == 1 && (Pow33(h) - 1) * w == 32 * h * v
    ensures u % 2 == 1 && (Pow33(h + h) - 1) * w == 32 * (h + h) * u
  {
    PowAdd(h, h);
    var t := PowMod32(h);
    u := DoubleExcess(Pow33(h), Pow33(h + h), w, h, v, t);
  }

  lemma OddProduct(a: int, b: int)
    requires a % 2 == 1 && b % 2 == 1
    ensures a * b % 2 == 1
  {
    var x, y := a / 2, b / 2;
    assert a * b == 2 * (2 * x * y + x + y) + 1;
  }

  lemma DoubleExcess(p: int, pp: int, w: int, h: int, v: int, t: int) returns (u: int)
    requires pp == p * p && p == 32 * t + 1 && v % 2 == 1 && (p - 1) * w == 32 * h * v
    ensures u % 2 == 1 && (pp - 1) * w == 32 * (h + h) * u
  {
    u := v * (16 * t + 1);
    OddProduct(v, 16 * t + 1);
    calc {
      (pp - 1) * w;
      ((p - 1) * w) * (p + 1);
      (32 * h * v) * (2 * (16 * t + 1));
      32 * (h + h) * (v * (16 * t + 1));
    }
  }

  /** If the m-th power of 33 leaves p where it is modulo 2^32, m times p is a multiple of 2^27. */
  lemma PowerMoves(m: nat, p: int)
    requires m > 0 && (Pow33(m) - 1) * p % M32 == 0
    ensures m * p % 0x800_0000 == 0
  {
    var w, u := PowerExcess(m);
    CancelExcess(Pow33(m) - 1, w, u, m, p);
  }

  lemma CancelExcess(e: int, w: int, u: int, m: int, p: int)
    requires u % 2 == 1 && e * w == 32 * m * u && e * p % M32 == 0
    ensures m * p % 0x800_0000 == 0
  {
    calc {
      u * (32 * (m * p));
      (32 * m * u) * p;
      (e * w) * p;
      w * (e * p);
    }
    PlusMultiple(0, w, e * p);
    CancelOddWord(u, 32 * (m * p));
    DropFactor(m * p);
  }

  lemma DropFactor(x: int)
    requires 32 * x % M32 == 0
    ensures x % 0x800_0000 == 0
  {
  }

  lemma NoMove(m: nat, p: nat)
    requires p > 0 && p % 16 != 0 && 0 < m && m * TwoPart(p) < 0x800_0000
    ensures (Pow33(m) - 1) * p % M32 != 0
  {
    if (Pow33(m) - 1) * p % M32 == 0 {
      PowerMoves(m, p);
      var o := OddFactor(p);
      SmallProduct(o, TwoPart(p), m);
    }
  }

  lemma OddFactor(p: nat) returns (o: int)
    requires p > 0 && p % 16 != 0
    ensures p == o * TwoPart(p) && o % 2 == 1
  {
    var a, b, c := p / 2, p / 2 / 2, p / 2 / 2 / 2;
    if p % 2 == 1 {
      o := p;
    } else if a % 2 == 1 {
      assert p == 2 * a;
      o := a;
    } else if b % 2 == 1 {
      assert p == 2 * a && a == 2 * b;
      o := b;
    } else {
      assert p == 2 * a && a == 2 * b && b == 2 * c;
      assert p == 16 * (c / 2) + 8 * (c % 2);
      o := c;
    }
  }

  lemma SmallProduct(o: int, g: int, m: int)
    requires o % 2 == 1 && 0 < m && 0 < g && m * g < 0x800_0000
    ensures m * (o * g) % 0x800_0000 != 0
  {
    if m * (o * g) % 0x800_0000 == 0 {
      assert Pow2(8) == 0x100;
      assert Pow2(16) == 0x1_0000;
      assert Pow2(27) == 0x800_0000;
      assert o * (m * g) == m * (o * g);
      var r := CancelOdd(o, m * g, 27, m * (o * g) / 0x800_0000);
      BetweenMultiples(m * g, r);
    }
  }

  lemma BetweenMultiples(d: int, r: int)
    requires d == r * 0x800_0000
    ensures !(0 < d < 0x800_0000)
  {
  }

  // ----- powers of 33 in closed form -----

  /** n*(n-1)*..., with k factors. */
  function Falling(n: nat, k: nat): int {
    if k == 0 then 1 else Falling(n, k - 1) * (n - k + 1)
  }

  lemma {:induction false} FallingNext(n: nat, k: nat)
    requires k > 0
    ensures Falling(n + 1, k) == (n + 1) * Falling(n, k - 1)
    ensures Falling(n + 1, k) == Falling(n, k) + k * Falling(n, k - 1)
  {
    if k == 1 {
      assert Falling(n + 1, 0) == Falling(n, 0) == 1;
    } else {
      FallingNext(n, k - 1);
      var f := Falling(n, k - 2);
      assert Falling(n + 1, k) == (n + 1) * f * (n + 1 - k + 1);
      assert Falling(n, k - 1) == f * (n - k + 2);
      assert (n + 1) * f * (n - k + 2) == (n + 1) * (f * (n - k + 2));
      Distribute(n - k + 1, k, Falling(n, k - 1));
    }
  }

  /** The binomial sum of HashLogs.Horner, term by term. */
  function Binomial(n: nat): int {
    720 + 23040 * Falling(n, 1) + 368640 * Falling(n, 2) + 3932160 * Falling(n, 3)
    + 31457280 * Falling(n, 4) + 201326592 * Falling(n, 5) + 1073741824 * Falling(n, 6)
  }

  lemma FallingStep(n: nat, k: nat)
    requires k > 0
    ensures Falling(n + 1, k) == Falling(n, k) + k * Falling(n, k - 1)
  {
    FallingNext(n, k);
  }

  lemma BinomialStep(n: nat)
    ensures Binomial(n + 1) == 33 * Binomial(n) - 0x8_0000_0000 * Falling(n, 6)
  {
    assert Falling(n, 0) == 1;
    FallingStep(n, 1);
    FallingStep(n, 2);
    FallingStep(n, 3);
    FallingStep(n, 4);
    FallingStep(n, 5);
    FallingStep(n, 6);
  }

  /** The other terms are multiples of 2^36. */
  lemma {:induction false} PowerIsBinomial(n: nat) returns (q: int)
    ensures 720 * Pow33(n) == Binomial(n) + q * M36
  {
    if n == 0 {
      q := 0;
    } else {
      q := PowerIsBinomial(n - 1);
      BinomialStep(n - 1);
      var e := EvenFalling(n - 1, 6);
      q := 33 * q + e;
    }
  }

  lemma TwoInRow(n: int) returns (e: int)
    ensures n * (n - 1) == 2 * e
  {
    if n % 2 == 0 {
      e := n / 2 * (n - 1);
      Associate(2, n / 2, n - 1);
    } else {
      e := (n - 1) / 2 * n;
      Associate(2, (n - 1) / 2, n);
    }
  }

  lemma {:induction false} EvenFalling(n: nat, k: nat) returns (e: int)
    requires k >= 2
    ensures Falling(n, k) == 2 * e
  {
    if k == 2 {
      assert Falling(n, 1) == n;
      assert Falling(n, 2) == n * (n - 1);
      e := TwoInRow(n);
    } else {
      e := EvenFalling(n, k - 1);
      Associate(2, e, n - k + 1);
      e := e * (n - k + 1);
    }
  }

  lemma Nest(f: int, x: int, g: int, c: int, h: int)
    requires g == f * x
    ensures f * (c + x * h) == c * f + g * h
  {
    Associate(f, x, h);
    Distribute(c, x * h, f);
  }

  lemma Unnest(n: int, f1: int, f2: int, f3: int, f4: int, f5: int, f6: int,
               h1: int, h2: int, h3: int, h4: int, h5: int)
    requires f2 == f1 * (n - 1) && f3 == f2 * (n - 2) && f4 == f3 * (n - 3)
    requires f5 == f4 * (n - 4) && f6 == f5 * (n - 5)
    requires h1 == 23040 + (n - 1) * h2 && h2 == 368640 + (n - 2) * h3 && h3 == 3932160 + (n - 3) * h4
    requires h4 == 31457280 + (n - 4) * h5 && h5 == 201326592 + (n - 5) * 1073741824
    ensures f1 * h1 == 23040 * f1 + 368640 * f2 + 3932160 * f3 + 31457280 * f4 + 201326592 * f5 + 1073741824 * f6
  {
    calc {
      f1 * h1;
      { Nest(f1, n - 1, f2, 23040, h2); }
      23040 * f1 + f2 * h2;
      { Nest(f2, n - 2, f3, 368640, h3); }
      23040 * f1 + 368640 * f2 + f3 * h3;
      { Nest(f3, n - 3, f4, 3932160, h4); }
      23040 * f1 + 368640 * f2 + 3932160 * f3 + f4 * h4;
      { Nest(f4, n - 4, f5, 31457280, h5); }
      23040 * f1 + 368640 * f2 + 3932160 * f3 + 31457280 * f4 + f5 * h5;
      { Nest(f5, n - 5, f6, 201326592, 1073741824); }
      23040 * f1 + 368640 * f2 + 3932160 * f3 + 31457280 * f4 + 201326592 * f5 + 1073741824 * f6;
    }
  }

  lemma HornerIsBinomial(n: nat)
    ensures Horner(n) == Binomial(n)
  {
    assert Falling(n, 1) == n;
    var h5 := 201326592 + (n - 5) * 1073741824;
    var h4 := 31457280 + (n - 4) * h5;
    var h3 := 3932160 + (n - 3) * h4;
    var h2 := 368640 + (n - 2) * h3;
    var h1 := 23040 + (n - 1) * h2;
    Unnest(n, n, Falling(n, 2), Falling(n, 3), Falling(n, 4), Falling(n, 5), Falling(n, 6), h1, h2, h3, h4, h5);
  }

  lemma CertifiedResidue(power: int, b: int, p: int, q: int)
    requires 720 * power == b + q * M36 && (b * p + 720 * (256 - p)) % M36 == 0
    ensures (power * p + (256 - p)) % M32 == 0
  {
    var x, y := power * p + (256 - p), b * p + 720 * (256 - p);
    var r := y / M36 + q * p;
    calc {
      720 * x;
      (720 * power) * p + 720 * (256 - p);
      (b + q * M36) * p + 720 * (256 - p);
      y + q * p * M36;
      r * M36;
    }
    Cancel720(x, r);
  }

  lemma Cancel720(x: int, r: int)
    requires 720 * x == r * M36
    ensures x % M32 == 0
  {
    assert 45 * x == r * M32;
    ShiftResidue(0, r);
    CancelOddWord(45, x);
  }

  /** What a certificate says. */
  lemma CertifiedPower(p: nat, k: nat)
    requires Certified(p, k)
    ensures (Pow33(k) * p + (256 - p)) % M32 == 0
  {
    CertifiedHorner(p, k);
    HornerIsBinomial(k);
    var q := PowerIsBinomial(k);
    CertifiedResidue(Pow33(k), Binomial(k), p, q);
  }

  // ----- no power within a block's length cancels two byte changes that keep the byte sum -----

  lemma EqualMoves(a: int, b: int, c: int, p: int, r: int)
    requires c == a * b && (a * p + r) % M32 == 0 && (c * p + r) % M32 == 0
    ensures a * ((b - 1) * p) % M32 == 0
  {
    EqualResidues(c * p + r, a * p + r);
    Associate(a, b, p);
    Distribute(b, -1, p);
    Distribute(b * p, -p, a);
  }

  /** If exponents j < k take p to the same residue, k - j leaves p where it is. */
  lemma SameTarget(j: nat, k: nat, p: nat, r: int)
    requires j < k && (Pow33(j) * p + r) % M32 == 0 && (Pow33(k) * p + r) % M32 == 0
    ensures (Pow33(k - j) - 1) * p % M32 == 0
  {
    PowAdd(j, k - j);
    EqualMoves(Pow33(j), Pow33(k - j), Pow33(k), p, r);
    OddPower33(j);
    CancelOddWord(Pow33(j), (Pow33(k - j) - 1) * p);
  }

  lemma TwoMoves(a: int, b: int, c: int, p: int, r: int)
    requires c == a * b && (a * r + p) % M32 == 0 && (b * p + r) % M32 == 0
    ensures (c - 1) * p % M32 == 0
  {
    Distribute(b * p, r, a);
    Associate(a, b, p);
    Distribute(c, -1, p);
    assert (c - 1) * p == -(a * r + p) + a * (b * p + r);
    PlusMultiple(-(a * r + p), a, b * p + r);
    NegatedMultiple(a * r + p);
  }

  /** Exponents that take r to -p and p to -r add up to one that leaves p where it is. */
  lemma ThereAndBack(j: nat, k: nat, p: nat, r: int)
    requires (Pow33(j) * r + p) % M32 == 0 && (Pow33(k) * p + r) % M32 == 0
    ensures (Pow33(j + k) - 1) * p % M32 == 0
  {
    PowAdd(j, k);
    TwoMoves(Pow33(j), Pow33(k), Pow33(j + k), p, r);
  }

  lemma NegatedMultiple(x: int)
    requires x % M32 == 0
    ensures (-x) % M32 == 0
  {
  }

  /** Changes by p and -p. */
  lemma OppositeStay(k: nat, p: nat)
    requires 0 < k < 0x1_0000 && 0 < p < 256
    ensures (Pow33(k) * p - p) % M32 != 0
  {
    Distribute(Pow33(k), -1, p);
    if (Pow33(k) - 1) * p % M32 == 0 {
      PowerMoves(k, p);
      TooSmall(k, p);
    }
  }

  lemma TooSmall(k: nat, p: nat)
    requires 0 < k < 0x1_0000 && 0 < p < 256
    ensures k * p % 0x800_0000 != 0
  {
    assert p <= k * p <= 256 * k;
  }

  /** Changes by p and 256 - p, with 16 dividing p. */
  lemma CoarseStay(k: nat, p: nat)
    requires p % 16 == 0
    ensures (Pow33(k) * p + (256 - p)) % M32 != 0
  {
    var t := PowMod32(k);
    var g := p / 16;
    calc {
      Pow33(k) * p + (256 - p);
      (32 * t + 1) * (16 * g) + 256 - 16 * g;
      512 * (t * g) + 256;
    }
    HalfOfStep(t * g);
  }

  lemma HalfOfStep(x: int)
    ensures (512 * x + 256) % M32 != 0
  {
  }

  /** Changes by p and 256 - p, with p below 128. */
  lemma LowerStay(k: nat, p: nat)
    requires 0 < k < 0x1_0000 && 0 < p < 128 && p % 16 != 0
    ensures (Pow33(k) * p + (256 - p)) % M32 != 0
  {
    var l := Logarithm(p);
    CertifiedPower(p, l);
    CertifiedRoom(p, l, k);
    NoMove(l - k, p);
    if (Pow33(k) * p + (256 - p)) % M32 == 0 {
      SameTarget(k, l, p, 256 - p);
    }
  }

  /** Changes by p and r, which is 256 - p and below 128. */
  lemma UpperStay(k: nat, p: nat, r: nat)
    requires 0 < k < 0x1_0000 && 0 < r < 128 && r % 16 != 0 && p == 256 - r
    ensures (Pow33(k) * p + r) % M32 != 0
  {
    var l := Logarithm(r);
    CertifiedPower(r, l);
    CertifiedRoom(r, l, k);
    NoMove(k + l, r);
    if (Pow33(k) * p + r) % M32 == 0 {
      ThereAndBack(k, l, r, p);
    }
  }

  lemma CertifiedRoom(p: nat, l: nat, k: nat)
    requires Certified(p, l) && k < 0x1_0000
    ensures k < l && (l - k) * TwoPart(p) < 0x800_0000 && (k + l) * TwoPart(p) < 0x800_0000
  {
  }

  lemma Negated(a: int, p: int, q: int)
    ensures a * -p + -q == -(a * p + q)
  {
  }

  /** Two byte changes that keep the byte sum modulo 256 never keep the hash: over no distance
      that fits a block does the first change, times the power of 33, cancel the second. */
  lemma NeverCancel(k: nat, p: int, q: int)
    requires 0 < k < 0x1_0000 && p != 0 && -256 < p < 256 && -256 < q < 256 && (p + q) % 256 == 0
    ensures (Pow33(k) * p + q) % M32 != 0
  {
    if p > 0 {
      UpwardStays(k, p, q);
    } else {
      UpwardStays(k, -p, -q);
      Negated(Pow33(k), p, q);
      if (Pow33(k) * p + q) % M32 == 0 {
        NegatedMultiple(Pow33(k) * p + q);
      }
    }
  }

  lemma UpwardStays(k: nat, p: nat, q: int)
    requires 0 < k < 0x1_0000 && 0 < p < 256 && -256 < q < 256 && (p + q) % 256 == 0
    ensures (Pow33(k) * p + q) % M32 != 0
  {
    if p + q == 0 {
      OppositeStay(k, p);
    } else {
      assert q == 256 - p;
      if p % 16 == 0 {
        CoarseStay(k, p);
      } else if p < 128 {
        LowerStay(k, p);
      } else {
        UpperStay(k, p, q);
      }
    }
  }
}
