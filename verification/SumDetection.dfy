/** Which changes of a word sequence the double checksum detects. */
module SumDetection {
  import opened Bytes
  import opened DoubleSum

  /** x and y agree outside positions i and j. */
  ghost predicate SameExcept(x: seq<int>, y: seq<int>, i: nat, j: nat) {
    |x| == |y| && forall k :: 0 <= k < |x| && k != i && k != j ==> x[k] == y[k]
  }

  /** Two such sequences are equal when they agree there too. */
  lemma PairAgrees(x: seq<int>, y: seq<int>, i: nat)
    requires SameExcept(x, y, i, i + 1) && i + 1 < |x|
    ensures y == x <==> y[i] == x[i] && y[i + 1] == x[i + 1]
  {
    if y[i] == x[i] && y[i + 1] == x[i + 1] {
      assert forall k :: 0 <= k < |x| ==> x[k] == y[k];
    }
  }

  // ----- residues modulo 2^32 -----

  lemma EqualResidues(a: int, b: int)
    ensures a % M32 == b % M32 <==> (a - b) % M32 == 0
  {
    var p, q := a / M32, b / M32;
    assert a == p * M32 + a % M32 && b == q * M32 + b % M32;
    assert a - b == (p - q) * M32 + (a % M32 - b % M32);
  }

  lemma PlusMultiple(a: int, m: int, c: int)
    requires c % M32 == 0
    ensures (a + m * c) % M32 == a % M32
  {
    var q := c / M32;
    assert c == q * M32;
    assert m * c == (m * q) * M32;
    ShiftResidue(a, m * q);
  }

  lemma ShiftResidue(a: int, q: int)
    ensures (a + q * M32) % M32 == a % M32
  {
  }

  lemma SmallMultiple(d: int)
    requires d % M32 == 0 && -M32 < d < M32
    ensures d == 0
  {
  }

  lemma SmallDifference(g: word, h: word)
    ensures (g as int - h as int) % M32 == 0 <==> g == h
  {
  }

  function Pow2(e: nat): (p: int)
    ensures p > 0
  {
    if e == 0 then 1 else 2 * Pow2(e - 1)
  }

  lemma Twice(a: int, b: int)
    ensures a * (2 * b) == 2 * (a * b)
  {
  }

  /** An odd multiple of d that is even: so is d. */
  lemma OddHalves(k: int, d: int, m: int) returns (half: int)
    requires k % 2 == 1 && k * d == 2 * m
    ensures d == 2 * half && k * half == m
  {
    var h := k / 2;
    half := m - h * d;
    Distribute(2 * h, 1, d);
    Twice(k, half);
  }

  /** An odd factor can be cancelled modulo a power of two. */
  lemma {:induction false} CancelOdd(k: int, d: int, e: nat, q: int) returns (r: int)
    requires k % 2 == 1 && k * d == q * Pow2(e)
    ensures d == r * Pow2(e)
    decreases e
  {
    if e == 0 {
      r := d;
    } else {
      Twice(q, Pow2(e - 1));
      var half := OddHalves(k, d, q * Pow2(e - 1));
      r := CancelOdd(k, half, e - 1, q);
      Twice(r, Pow2(e - 1));
    }
  }

  lemma CancelOddWord(k: int, d: int)
    requires k % 2 == 1 && k * d % M32 == 0
    ensures d % M32 == 0
  {
    assert Pow2(8) == 0x100;
    assert Pow2(16) == 0x1_0000;
    assert Pow2(24) == 0x100_0000;
    assert Pow2(32) == M32;
    var r := CancelOdd(k, d, 32, k * d / M32);
  }

  // ----- the effect of a change on the two sums -----

  lemma {:induction false} OneWordChange(ws: seq<int>, i: nat, v: int)
    requires i < |ws|
    ensures Sum(ws[i := v]) == Sum(ws) + (v - ws[i])
    ensures WeightedSum(ws[i := v]) == WeightedSum(ws) + (|ws| - i) * (v - ws[i])
  {
    if i == 0 {
      assert ws[0 := v][1..] == ws[1..];
      Distribute(ws[0], v - ws[0], |ws|);
    } else {
      assert ws[i := v][1..] == ws[1..][i - 1 := v];
      OneWordChange(ws[1..], i - 1, v);
    }
  }

  lemma LeverArm(n: int, i: int, j: int, d: int, e: int)
    ensures (n - i) * d + (n - j) * e == (j - i) * d + (n - j) * (d + e)
  {
    Distribute(j - i, n - j, d);
    Distribute(d, e, n - j);
  }

  lemma TwoWordSums(x: seq<int>, y: seq<int>, i: nat, j: nat, d: int, e: int)
    requires i < j < |x| && SameExcept(x, y, i, j) && d == y[i] - x[i] && e == y[j] - x[j]
    ensures Sum(y) == Sum(x) + d + e
    ensures WeightedSum(y) == WeightedSum(x) + (|x| - i) * d + (|x| - j) * e
  {
    var z := x[i := y[i]];
    OneWordChange(x, i, y[i]);
    OneWordChange(z, j, y[j]);
    assert z[j := y[j]] == y;
  }

  lemma TwoWordChange(x: seq<int>, y: seq<int>, i: nat, j: nat)
    requires i < j < |x| && SameExcept(x, y, i, j)
    ensures Sum(y) - Sum(x) == (y[i] - x[i]) + (y[j] - x[j])
    ensures WeightedSum(y) - WeightedSum(x) ==
            (j - i) * (y[i] - x[i]) + (|x| - j) * ((y[i] - x[i]) + (y[j] - x[j]))
  {
    TwoWordSums(x, y, i, j, y[i] - x[i], y[j] - x[j]);
    LeverArm(|x|, i, j, y[i] - x[i], y[j] - x[j]);
  }

  // ----- detection -----

  /** Replacing two words at distance k is missed exactly when the changes are opposite
      and k times the change is a multiple of 2^32. */
  lemma TwoWordsMissed(x: seq<int>, y: seq<int>, i: nat, j: nat)
    requires i < j < |x| && SameExcept(x, y, i, j)
    ensures CheckOf(x) == CheckOf(y) <==>
            && ((y[i] - x[i]) + (y[j] - x[j])) % M32 == 0
            && (j - i) * (y[i] - x[i]) % M32 == 0
  {
    TwoWordChange(x, y, i, j);
    EqualResidues(Sum(y), Sum(x));
    EqualResidues(WeightedSum(y), WeightedSum(x));
    BothResidues((j - i) * (y[i] - x[i]), |x| - j, (y[i] - x[i]) + (y[j] - x[j]));
  }

  lemma BothResidues(lever: int, m: int, both: int)
    ensures both % M32 == 0 && (lever + m * both) % M32 == 0 <==> both % M32 == 0 && lever % M32 == 0
  {
    if both % M32 == 0 {
      PlusMultiple(lever, m, both);
    }
  }

  /** A change at odd distance never goes unnoticed; in particular none in two adjacent words. */
  lemma OddDistanceDetected(x: seq<word>, y: seq<word>, i: nat, j: nat)
    requires i < j < |x| && SameExcept(x, y, i, j) && (j - i) % 2 == 1
    requires CheckOf(x) == CheckOf(y)
    ensures x == y
  {
    TwoWordsMissed(x, y, i, j);
    var di: int, dj: int := y[i] as int - x[i] as int, y[j] as int - x[j] as int;
    assert di % M32 == 0 by { CancelOddWord(j - i, di); }
    SmallMultiple(di);
    SmallMultiple(dj);
    assert forall k :: 0 <= k < |x| ==> x[k] == y[k];
  }

  /** At even distance some change always goes unnoticed: the top bits of both words. */
  lemma EvenDistanceMissed(x: seq<word>, i: nat, j: nat) returns (y: seq<word>)
    requires i < j < |x| && (j - i) % 2 == 0
    ensures SameExcept(x, y, i, j) && y != x && CheckOf(x) == CheckOf(y)
  {
    var top := 0x8000_0000;
    var u: word := if x[i] < top then x[i] + top else x[i] - top;
    var v: word := if x[j] < top then x[j] + top else x[j] - top;
    y := x[i := u][j := v];
    assert y[i] != x[i];
    var h := (j - i) / 2;
    var d: int := y[i] as int - x[i] as int;
    assert (j - i) * d == h * (2 * d);
    PlusMultiple(0, h, 2 * d);
    TwoWordsMissed(x, y, i, j);
  }

  /** Exactly the odd distances are safe. */
  lemma SafeDistances(x: seq<word>, i: nat, j: nat)
    requires i < j < |x|
    ensures (j - i) % 2 == 1 <==>
            forall y: seq<word> :: SameExcept(x, y, i, j) && CheckOf(x) == CheckOf(y) ==> x == y
  {
    if (j - i) % 2 == 1 {
      forall y: seq<word> | SameExcept(x, y, i, j) && CheckOf(x) == CheckOf(y)
        ensures x == y
      {
        OddDistanceDetected(x, y, i, j);
      }
    } else {
      var y := EvenDistanceMissed(x, i, j);
    }
  }

  /** Exchanging two words is missed exactly when distance times difference is a multiple
      of 2^32; exchanging unequal words at odd distance is always detected. */
  lemma SwapMissed(x: seq<word>, i: nat, j: nat)
    requires i < j < |x|
    ensures CheckOf(x[i := x[j]][j := x[i]]) == CheckOf(x) <==> (j - i) * (x[j] as int - x[i] as int) % M32 == 0
    ensures (j - i) % 2 == 1 && x[i] != x[j] ==> CheckOf(x[i := x[j]][j := x[i]]) != CheckOf(x)
  {
    var y := x[i := x[j]][j := x[i]];
    TwoWordsMissed(x, y, i, j);
    if (j - i) % 2 == 1 && CheckOf(y) == CheckOf(x) {
      OddDistanceDetected(x, y, i, j);
    }
  }
}
