/** The base-33 hash of the feature blocks. */
module DjbHash {
  import opened Bytes
  import opened DoubleSum
  import opened SumDetection

  const SEED: word := 5381

  /** The running hash after the bytes s, from hash h. */
  function Run(h: word, s: seq<byte>): word
    decreases s
  {
    if s == [] then h else Run((33 * (h as int) + s[0]) % M32, s[1..])
  }

  /** A zero hash starts over from the seed. */
  function Restart(h: word): word {
    if h == 0 then SEED else h
  }

  function Djb(h: word, s: seq<byte>): word {
    Run(Restart(h), s)
  }

  lemma {:induction false} RunAppend(h: word, s: seq<byte>, t: seq<byte>)
    ensures Run(h, s + t) == Run(Run(h, s), t)
    decreases s
  {
    if s == [] {
      assert s + t == t;
    } else {
      assert (s + t)[1..] == s[1..] + t;
      RunAppend((33 * (h as int) + s[0]) % M32, s[1..], t);
    }
  }

  lemma RunStep(h: word, s: seq<byte>, b: byte)
    ensures Run(h, s + [b]) == (33 * (Run(h, s) as int) + b) % M32
  {
    RunAppend(h, s, [b]);
    var one: seq<byte> := [b];
    assert |one[1..]| == 0;
    assert Run(Run(h, s), one) == Run((33 * (Run(h, s) as int) + b) % M32, one[1..]);
  }

  /** The loop, with the hash as a 32-bit in-out value; h << 5 loses its top bits. */
  method DJBHash(buf: array<byte>, at: nat, size: nat, hash: word) returns (r: word)
    requires at + size <= buf.Length
    ensures r == Djb(hash, buf[at..at + size])
  {
    r := hash;
    if r == 0 {
      r := SEED;
    }
    for i := 0 to size
      invariant r == Run(Restart(hash), buf[at..at + i])
    {
      assert buf[at..at + (i + 1)] == buf[at..at + i] + [buf[at + i]];
      RunStep(Restart(hash), buf[at..at + i], buf[at + i]);
      ShiftAdd(r, buf[at + i]);
      r := (32 * (r as int) % M32 + r + buf[at + i]) % M32;
    }
  }

  lemma ShiftAdd(h: word, b: byte)
    ensures (32 * (h as int) % M32 + h + b) % M32 == (33 * (h as int) + b) % M32
  {
  }

  // ----- closed form -----

  function Pow33(n: nat): nat {
    if n == 0 then 1 else 33 * Pow33(n - 1)
  }

  /** The base-33 value of a byte string, first byte most significant. */
  function Base33(s: seq<byte>): nat {
    if s == [] then 0 else s[0] as int * Pow33(|s| - 1) + Base33(s[1..])
  }

  lemma ClosedStep(h: int, b: int, p: int, r: int, next: int, pp: int, base: int)
    requires next == (33 * h + b) % M32 && pp == 33 * p && base == b * p + r
    ensures (next * p + r) % M32 == (h * pp + base) % M32
  {
    var u := 33 * h + b;
    var q := u / M32;
    assert u == next + q * M32;
    calc {
      h * pp + b * p;
      { Distribute(33 * h, b, p); }
      u * p;
      { Distribute(next, q * M32, p); }
      next * p + q * M32 * p;
      next * p + q * p * M32;
    }
    ShiftResidue(next * p + r, q * p);
  }

  /** The hash is the base-33 number with leading digit h and digits s, modulo 2^32. */
  lemma {:induction false} ClosedForm(h: word, s: seq<byte>)
    ensures Run(h, s) == ((h as int) * Pow33(|s|) + Base33(s)) % M32
    decreases s
  {
    if s == [] {
    } else {
      var next: word := (33 * (h as int) + s[0]) % M32;
      ClosedForm(next, s[1..]);
      ClosedStep(h, s[0], Pow33(|s| - 1), Base33(s[1..]), next, Pow33(|s|), Base33(s));
    }
  }

  // ----- sensitivity -----

  /** Each step is one-to-one in the hash: two different hashes stay different under the same bytes. */
  lemma {:induction false} RunInjective(g: word, h: word, s: seq<byte>)
    ensures Run(g, s) == Run(h, s) <==> g == h
    decreases s
  {
    if s == [] {
    } else {
      var g' := (33 * (g as int) + s[0]) % M32;
      var h' := (33 * (h as int) + s[0]) % M32;
      RunInjective(g', h', s[1..]);
      StepInjective(g, h, s[0], s[0]);
      if g' == h' {
        CancelOddWord(33, g as int - h as int);
        SmallMultiple(g as int - h as int);
      }
    }
  }

  lemma StepInjective(g: word, h: word, b: byte, c: byte)
    ensures (33 * (g as int) + b) % M32 == (33 * (h as int) + c) % M32 <==>
            (33 * (g as int - h as int) + (b as int - c as int)) % M32 == 0
  {
    EqualResidues(33 * (g as int) + b, 33 * (h as int) + c);
  }

  const INVERSE_33 := 1041204193

  /** Each step is onto: every hash has exactly one predecessor. */
  lemma StepOnto(h: word, b: byte) returns (g: word)
    ensures (33 * (g as int) + b) % M32 == h
  {
    g := INVERSE_33 * (h as int - b as int) % M32;
    var d := h as int - b as int;
    var q := INVERSE_33 * d / M32;
    assert 33 * (g as int) + b == h + (8 * d - 33 * q) * M32;
    ShiftResidue(h, 8 * d - 33 * q);
  }

  /** So hashing the same bytes is a bijection on the 32-bit hash state. */
  lemma {:induction false} RunOnto(s: seq<byte>, t: word) returns (g: word)
    ensures Run(g, s) == t
    ensures forall h: word :: Run(h, s) == t <==> h == g
    decreases s
  {
    if s == [] {
      g := t;
    } else {
      var next := RunOnto(s[1..], t);
      g := StepOnto(next, s[0]);
    }
    forall h: word
      ensures Run(h, s) == t <==> h == g
    {
      RunInjective(h, g, s);
    }
  }

  lemma SplitAt(s: seq<byte>, k: nat, b: byte)
    requires k < |s|
    ensures s == s[..k] + ([s[k]] + s[k + 1..])
    ensures s[k := b] == s[..k] + ([b] + s[k + 1..])
  {
  }

  lemma StepDiffers(m: word, b: byte, c: byte)
    requires b != c
    ensures (33 * (m as int) + b) % M32 != (33 * (m as int) + c) % M32
  {
    StepInjective(m, m, b, c);
  }

  /** Strings that differ in exactly one byte hash differently from the same start. */
  lemma ByteSensitive(h: word, s: seq<byte>, k: nat, b: byte)
    requires k < |s| && s[k] != b
    ensures Run(h, s[k := b]) != Run(h, s)
  {
    var m := Run(h, s[..k]);
    SplitAt(s, k, b);
    RunThrough(h, s[..k], s[k], s[k + 1..]);
    RunThrough(h, s[..k], b, s[k + 1..]);
    StepDiffers(m, s[k], b);
    RunInjective((33 * (m as int) + s[k]) % M32, (33 * (m as int) + b) % M32, s[k + 1..]);
  }

  lemma RunThrough(h: word, p: seq<byte>, b: byte, q: seq<byte>)
    ensures Run(h, p + ([b] + q)) == Run((33 * (Run(h, p) as int) + b) % M32, q)
  {
    RunAppend(h, p, [b] + q);
    assert ([b] + q)[1..] == q;
  }

  /** Changing the last digit of a number changes it by as much. */
  lemma {:induction false} LastDigit(s: seq<byte>, c: byte)
    requires s != []
    ensures Base33(s[|s| - 1 := c]) - Base33(s) == c as int - s[|s| - 1] as int
  {
    var t: seq<byte> := s[|s| - 1 := c];
    if |s| == 1 {
      assert s[1..] == [] && t[1..] == [];
    } else {
      assert t[1..] == s[1..][|s| - 2 := c];
      LastDigit(s[1..], c);
    }
  }

  /** Changing the first and the last digit of a number. */
  lemma EndDigits(s: seq<byte>, b: byte, c: byte)
    requires |s| > 1
    ensures Base33(s[0 := b][|s| - 1 := c]) - Base33(s) ==
            Pow33(|s| - 1) * (b as int - s[0] as int) + (c as int - s[|s| - 1] as int)
  {
    var t: seq<byte> := s[0 := b][|s| - 1 := c];
    assert t[1..] == s[1..][|s| - 2 := c];
    LastDigit(s[1..], c);
    Distribute(b as int, -(s[0] as int), Pow33(|s| - 1));
  }

  lemma ResidueDifference(a: int, b: int) returns (k: int)
    ensures a % M32 - b % M32 == a - b + k * M32
  {
    k := b / M32 - a / M32;
    assert a == a / M32 * M32 + a % M32 && b == b / M32 * M32 + b % M32;
  }

  /** Changing both ends of a string moves the hash by one multiple of a power of 33 and a remainder. */
  lemma EndsMove(h: word, s: seq<byte>, b: byte, c: byte) returns (k: int)
    requires |s| > 1
    ensures Run(h, s[0 := b][|s| - 1 := c]) as int - Run(h, s) as int ==
            Pow33(|s| - 1) * (b as int - s[0] as int) + (c as int - s[|s| - 1] as int) + k * M32
  {
    var t: seq<byte> := s[0 := b][|s| - 1 := c];
    ClosedForm(h, s);
    ClosedForm(h, t);
    EndDigits(s, b, c);
    var top := (h as int) * Pow33(|s|);
    k := ResidueDifference(top + Base33(t), top + Base33(s));
  }

  lemma ScaledResidues(g: int, h: int, p: int, r: int) returns (k: int)
    ensures (g * p + r) % M32 - (h * p + r) % M32 == p * (g - h) + k * M32
  {
    k := ResidueDifference(g * p + r, h * p + r);
    Distribute(g, -h, p);
  }

  /** Hashing the same bytes multiplies the difference of two hashes by a power of 33. */
  lemma RunDifference(g: word, h: word, s: seq<byte>) returns (k: int)
    ensures Run(g, s) as int - Run(h, s) as int == Pow33(|s|) * (g as int - h as int) + k * M32
  {
    ClosedForm(g, s);
    ClosedForm(h, s);
    k := ScaledResidues(g, h, Pow33(|s|), Base33(s));
  }

  lemma Scaled(d: int, w: int, p: int, e: int, k: int, l: int)
    requires d == p * w + k * M32 && w == e + l * M32
    ensures d == p * e + (k + p * l) * M32
  {
    Distribute(e, l * M32, p);
    Distribute(k, p * l, M32);
  }

  lemma SplitBetween(s: seq<byte>, i: nat, j: nat, b: byte, c: byte)
    requires i < j < |s|
    ensures s == s[..i] + (s[i..j + 1] + s[j + 1..])
    ensures s[i := b][j := c] == s[..i] + (s[i..j + 1][0 := b][j - i := c] + s[j + 1..])
  {
  }

  /** A change in the middle is scaled by what follows. */
  lemma PartsMove(h: word, p: seq<byte>, x: seq<byte>, y: seq<byte>, q: seq<byte>, e: int, l: int) returns (k: int)
    requires Run(Run(h, p), y) as int - Run(Run(h, p), x) as int == e + l * M32
    ensures Run(h, p + (y + q)) as int - Run(h, p + (x + q)) as int == Pow33(|q|) * e + k * M32
  {
    var u, v := Run(Run(h, p), y), Run(Run(h, p), x);
    RunParts(h, p, x, q);
    RunParts(h, p, y, q);
    var m := RunDifference(u, v, q);
    k := m + Pow33(|q|) * l;
    Scaled(Run(u, q) as int - Run(v, q) as int, u as int - v as int, Pow33(|q|), e, m, l);
  }

  /** What changing two bytes at once does to the hash. */
  lemma TwoBytesMove(h: word, s: seq<byte>, i: nat, j: nat, b: byte, c: byte) returns (k: int)
    requires i < j < |s|
    ensures Run(h, s[i := b][j := c]) as int - Run(h, s) as int ==
            Pow33(|s| - 1 - j) * (Pow33(j - i) * (b as int - s[i] as int) + (c as int - s[j] as int)) + k * M32
  {
    var p, x, q := s[..i], s[i..j + 1], s[j + 1..];
    var y: seq<byte> := x[0 := b][j - i := c];
    var e := Pow33(j - i) * (b as int - s[i] as int) + (c as int - s[j] as int);
    SplitBetween(s, i, j, b, c);
    assert |x| - 1 == j - i && x[0] == s[i] && x[|x| - 1] == s[j] && |q| == |s| - 1 - j;
    var l := EndsMove(Run(h, p), x, b, c);
    k := PartsMove(h, p, x, y, q, e, l);
  }

  lemma RunParts(h: word, p: seq<byte>, x: seq<byte>, q: seq<byte>)
    ensures Run(h, p + (x + q)) == Run(Run(Run(h, p), x), q)
  {
    RunAppend(h, p, x + q);
    RunAppend(Run(h, p), x, q);
  }

  lemma OddPower33(n: nat)
    ensures Pow33(n) % 2 == 1
  {
    if n == 0 {
    } else {
      OddPower33(n - 1);
      OddTimes33(Pow33(n - 1));
    }
  }

  lemma OddTimes33(p: int)
    requires p % 2 == 1
    ensures 33 * p % 2 == 1
  {
  }

  /** Two bytes changed at once collide exactly when the first change, times 33 to the power of
      their distance, cancels the second modulo 2^32. */
  lemma TwoBytesCollide(h: word, s: seq<byte>, i: nat, j: nat, b: byte, c: byte)
    requires i < j < |s|
    ensures Run(h, s[i := b][j := c]) == Run(h, s) <==>
            (Pow33(j - i) * (b as int - s[i] as int) + (c as int - s[j] as int)) % M32 == 0
  {
    var d := Run(h, s[i := b][j := c]) as int - Run(h, s) as int;
    var e := Pow33(j - i) * (b as int - s[i] as int) + (c as int - s[j] as int);
    var k := TwoBytesMove(h, s, i, j, b, c);
    OddPower33(|s| - 1 - j);
    SmallDifference(Run(h, s[i := b][j := c]), Run(h, s));
    OddScaled(d, Pow33(|s| - 1 - j), e, k);
  }

  lemma OddScaled(d: int, p: int, e: int, k: int)
    requires p % 2 == 1 && d == p * e + k * M32
    ensures d % M32 == 0 <==> e % M32 == 0
  {
    ShiftResidue(p * e, k);
    if p * e % M32 == 0 {
      CancelOddWord(p, e);
    } else if e % M32 == 0 {
      PlusMultiple(0, p, e);
    }
  }

  /** Two adjacent bytes changed at once collide exactly when the second drops by 33 times
      what the first gains. */
  lemma AdjacentCollision(h: word, s: seq<byte>, k: nat, b: byte, c: byte)
    requires k + 1 < |s|
    ensures Run(h, s[k := b][k + 1 := c]) == Run(h, s) <==>
            s[k + 1] as int - c as int == 33 * (b as int - s[k] as int)
  {
    TwoBytesCollide(h, s, k, k + 1, b, c);
    assert Pow33(1) == 33;
    SmallIffZero(33 * (b as int - s[k] as int) + (c as int - s[k + 1] as int));
  }

  lemma SmallIffZero(d: int)
    requires -M32 < d < M32
    ensures d % M32 == 0 <==> d == 0
  {
  }
}
