/** The two-accumulator checksum of both configuration generators. */
module DoubleSum {
  import opened Bytes

  type u64 = x: int | 0 <= x < 0x1_0000_0000_0000_0000

  /** The plain sum of the words. */
  function Sum(ws: seq<int>): int {
    if ws == [] then 0 else ws[0] + Sum(ws[1..])
  }

  /** The sum in which word i of n weighs n - i. */
  function WeightedSum(ws: seq<int>): int {
    if ws == [] then 0 else |ws| * ws[0] + WeightedSum(ws[1..])
  }

  datatype Check = Check(a: word, b: word)

  /** What the checksum of a word sequence means. */
  function CheckOf(ws: seq<int>): Check {
    Check(Sum(ws) % M32, WeightedSum(ws) % M32)
  }

  /** A buffer seen through a pointer to 32-bit words. */
  function Words(s: seq<byte>): (ws: seq<word>)
    ensures |ws| == |s| / 4
  {
    seq(|s| / 4, i requires 0 <= i < |s| / 4 => Get32(s, 4 * i))
  }

  /** Composition: the checksum of a concatenation from the checksums of its parts. */
  lemma {:induction false} SumsAppend(x: seq<int>, y: seq<int>)
    ensures Sum(x + y) == Sum(x) + Sum(y)
    ensures WeightedSum(x + y) == WeightedSum(x) + |y| * Sum(x) + WeightedSum(y)
  {
    if x == [] {
      assert x + y == y;
    } else {
      assert (x + y)[1..] == x[1..] + y;
      SumsAppend(x[1..], y);
      assert |x + y| * x[0] == |x| * x[0] + |y| * x[0] by { Distribute(|x|, |y|, x[0]); }
      assert |y| * Sum(x) == |y| * x[0] + |y| * Sum(x[1..]) by {
        Distribute(x[0], Sum(x[1..]), |y|);
      }
    }
  }

  lemma Distribute(a: int, b: int, c: int)
    ensures (a + b) * c == a * c + b * c
    ensures c * (a + b) == c * a + c * b
  {
  }

  /** One round of the loop: after word w, the second accumulator has gained the new first one. */
  lemma SumsStep(ws: seq<int>, w: int)
    ensures Sum(ws + [w]) == Sum(ws) + w
    ensures WeightedSum(ws + [w]) == WeightedSum(ws) + Sum(ws + [w])
  {
    SumsAppend(ws, [w]);
    var rest: seq<int> := [w][1..];
    assert rest == [];
    assert Sum([w]) == w + Sum(rest);
    assert WeightedSum([w]) == w + WeightedSum(rest);
  }

  /** The sums from word i on. */
  lemma Unfold(ws: seq<int>, i: nat)
    requires i < |ws|
    ensures Sum(ws[i..]) == ws[i] + Sum(ws[i + 1..])
    ensures WeightedSum(ws[i..]) == (|ws| - i) * ws[i] + WeightedSum(ws[i + 1..])
  {
    assert ws[i..][1..] == ws[i + 1..];
  }

  lemma CongruentSum(a: int, b: int)
    ensures (a % M32 + b) % M32 == (a + b) % M32
    ensures (b + a % M32) % M32 == (a + b) % M32
  {
  }

  /** The accumulators after i words. */
  ghost predicate Accumulated(ws: seq<word>, i: nat, cka: word, ckb: word) {
    i <= |ws| && cka == Sum(ws[..i]) % M32 && ckb == WeightedSum(ws[..i]) % M32
  }

  /** One round of the loop on the 32-bit accumulators. */
  lemma Accumulate(ws: seq<word>, i: nat, cka: word, ckb: word)
    requires i < |ws| && Accumulated(ws, i, cka, ckb)
    ensures Accumulated(ws, i + 1, (cka + ws[i]) % M32, (ckb + (cka + ws[i]) % M32) % M32)
  {
    assert ws[..i + 1] == ws[..i] + [ws[i]];
    SumsStep(ws[..i], ws[i]);
    CongruentSum(Sum(ws[..i]), ws[i]);
    CongruentSum(Sum(ws[..i + 1]), ckb);
    CongruentSum(WeightedSum(ws[..i]), Sum(ws[..i + 1]));
  }

  lemma AllAccumulated(ws: seq<word>, cka: word, ckb: word)
    requires Accumulated(ws, |ws|, cka, ckb)
    ensures CheckOf(ws) == Check(cka, ckb)
  {
    assert ws[..|ws|] == ws;
  }

  /** The loop leaves exactly when all words are summed: 4*i does not wrap before. */
  lemma LoopEnds(i: nat, length: word)
    requires length % 4 == 0 && i <= length / 4
    ensures i * 4 % M32 < length <==> i < length / 4
  {
  }

  /** The cell a caller's 64-bit checksum lives in. */
  class SumCell {
    var value: u64
    constructor (v: u64)
      ensures value == v
    {
      value := v;
    }
  }

  /** Packing as (a << 32) + b, and the two casts that unpack it. */
  function Pack(c: Check): u64 {
    c.a * M32 + c.b
  }

  function Unpack(v: u64): Check {
    Check(v / M32, v % M32)
  }

  lemma PackUnpack(c: Check, v: u64)
    ensures Unpack(Pack(c)) == c
    ensures Pack(Unpack(v)) == v
    ensures Pack(c) == v <==> Unpack(v) == c
  {
  }

  /** The loop over the words of a buffer, with 32-bit accumulators and a 32-bit index. */
  method Accumulators(start: array<byte>, length: word) returns (cka: word, ckb: word)
    requires length % 4 == 0 && length <= start.Length
    ensures Check(cka, ckb) == CheckOf(Words(start[..length]))
  {
    ghost var ws := Words(start[..length]);
    cka, ckb := 0, 0;
    var i: word := 0;
    while i * 4 % M32 < length
      invariant Accumulated(ws, i, cka, ckb)
      decreases |ws| - i
    {
      LoopEnds(i, length);
      Accumulate(ws, i, cka, ckb);
      var w := ReadWord(start, 4 * i, length);
      assert w == ws[i];
      cka := (cka + w) % M32;
      ckb := (ckb + cka) % M32;
      i := i + 1;
    }
    LoopEnds(i, length);
    AllAccumulated(ws, cka, ckb);
  }

  /** In check mode the sums are compared with the cell; otherwise they are stored into it: the plain
      sum in its upper half, the weighted one in its lower half. Without a cell neither mode succeeds. */
  method DoubleCheckSum(start: array<byte>, length: word, sum64: SumCell?, doCheck: bool)
    returns (ok: bool)
    requires length % 4 == 0 && length <= start.Length
    modifies sum64
    ensures ok <==>
            && sum64 != null
            && (doCheck ==>
                  && old(sum64.value) / 0x1_0000_0000 == Sum(Words(start[..length])) % 0x1_0000_0000
                  && old(sum64.value) % 0x1_0000_0000 == WeightedSum(Words(start[..length])) % 0x1_0000_0000)
    ensures sum64 != null && doCheck ==> sum64.value == old(sum64.value)
    ensures sum64 != null && !doCheck ==>
              && sum64.value / 0x1_0000_0000 == Sum(Words(start[..length])) % 0x1_0000_0000
              && sum64.value % 0x1_0000_0000 == WeightedSum(Words(start[..length])) % 0x1_0000_0000
  {
    var cka, ckb := Accumulators(start, length);
    if doCheck {
      if sum64 != null {
        if sum64.value / M32 == cka && sum64.value % M32 == ckb {
          return true;
        }
      }
    } else if sum64 != null {
      PackUnpack(Check(cka, ckb), 0);
      sum64.value := Pack(Check(cka, ckb));
      return true;
    }
    return false;
  }

  /** The word at a byte position, of the whole buffer or of a part that contains it. */
  method ReadWord(a: array<byte>, at: nat, ghost n: nat) returns (w: word)
    requires at + 4 <= n <= a.Length
    ensures w == Get32(a[..], at) == Get32(a[..n], at)
  {
    var b0: int, b1: int, b2: int, b3: int := a[at], a[at + 1], a[at + 2], a[at + 3];
    w := b0 + 0x100 * b1 + 0x1_0000 * b2 + 0x100_0000 * b3;
  }
}
