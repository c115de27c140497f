/** Images that carry their own double checksum in words 4 and 5. */
module SealedImage {
  import opened Bytes
  import opened DoubleSum
  import opened SumDetection
  import opened Memory

  const CRC1 := 4
  const CRC2 := 5

  /** The image as it is summed by the generators: both checksum words zero. */
  function Blank(ws: seq<word>): (r: seq<word>)
    requires |ws| >= 6
    ensures |r| == |ws|
  {
    ws[CRC1 := 0][CRC2 := 0]
  }

  /** The image a generator leaves: blank, summed, and the sums stored. */
  function Seal(ws: seq<word>): (r: seq<word>)
    requires |ws| >= 6
    ensures |r| == |ws|
  {
    var c := CheckOf(Blank(ws));
    ws[CRC1 := c.a][CRC2 := c.b]
  }

  /** Verification as the format intends it: blank the words, sum, compare with what was stored. */
  predicate Verifies(ws: seq<word>)
    requires |ws| >= 6
  {
    CheckOf(Blank(ws)) == Check(ws[CRC1], ws[CRC2])
  }

  /** Verification as the parse mode performs it: nothing is blanked, and the sums are compared
      with a checksum variable that is still zero. */
  predicate VerifiesAsCoded(ws: seq<word>) {
    CheckOf(ws) == Unpack(0)
  }

  /** Exactly the sealed images verify, and sealing keeps every other word. */
  lemma VerifiesIffSealed(ws: seq<word>)
    requires |ws| >= 6
    ensures Verifies(Seal(ws))
    ensures Verifies(ws) <==> Seal(ws) == ws
    ensures forall k :: 0 <= k < |ws| && k != CRC1 && k != CRC2 ==> Seal(ws)[k] == ws[k]
  {
    assert Blank(Seal(ws)) == Blank(ws);
    if Verifies(ws) {
      assert Seal(ws) == ws;
    }
  }

  /** Tampering with the two checksum words alone is always rejected. */
  lemma CrcWordsTamper(ws: seq<word>, vs: seq<word>)
    requires |ws| >= 6 && Verifies(ws) && SameExcept(ws, vs, CRC1, CRC2)
    ensures Verifies(vs) <==> vs == ws
  {
    assert Blank(vs) == Blank(ws);
    if Verifies(vs) {
      assert forall k :: 0 <= k < |ws| ==> vs[k] == ws[k];
    }
  }

  lemma OutsideTamper(ws: seq<word>, vs: seq<word>, i: nat)
    requires |ws| >= 6 && Verifies(ws) && i + 1 < |ws| && (i + 1 < CRC1 || CRC2 < i)
    requires SameExcept(ws, vs, i, i + 1)
    ensures Verifies(vs) <==> vs == ws
  {
    if Verifies(vs) {
      OddDistanceDetected(Blank(ws), Blank(vs), i, i + 1);
      assert forall k :: 0 <= k < |ws| && k != CRC1 && k != CRC2 ==> Blank(vs)[k] == vs[k] && Blank(ws)[k] == ws[k];
      assert forall k :: 0 <= k < |ws| ==> vs[k] == ws[k];
    }
  }

  /** The effect on both sums of a change in one word that is not a checksum word. */
  lemma BlankChange(ws: seq<word>, vs: seq<word>, k: nat)
    requires |ws| == |vs| && 6 <= |ws| && k < |ws| && k != CRC1 && k != CRC2
    requires forall m :: 0 <= m < |ws| && m != CRC1 && m != CRC2 && m != k ==> ws[m] == vs[m]
    ensures var d := vs[k] as int - ws[k] as int;
            && CheckOf(Blank(vs)).a == (Sum(Blank(ws)) + d) % M32
            && CheckOf(Blank(vs)).b == (WeightedSum(Blank(ws)) + (|ws| - k) * d) % M32
  {
    assert Blank(vs) == Blank(ws)[k := vs[k]];
    OneWordChange(Blank(ws), k, vs[k]);
  }

  /** x and y are the blank sums before the change, a and b their residues; d is the change of the
      word, e that of the checksum word, m the weight of the word. */
  lemma BelowArithmetic(x: int, y: int, a: int, b: int, d: int, e: int, m: int)
    requires x % M32 == a && y % M32 == b && 0 <= a + e < M32
    ensures (x + d) % M32 == a + e && (y + m * d) % M32 == b <==> (e - d) % M32 == 0 && m * d % M32 == 0
  {
    EqualResidues(y + m * d, y);
    SumMoves(x, a, d, e);
  }

  lemma SumMoves(x: int, a: int, d: int, e: int)
    requires x % M32 == a && 0 <= a + e < M32
    ensures (x + d) % M32 == a + e <==> (e - d) % M32 == 0
  {
    var q := x / M32;
    assert x == a + q * M32;
    assert x + d == (a + d) + q * M32;
    ShiftResidue(a + d, q);
    EqualResidues(a + e, a + d);
  }

  lemma BelowCrcTamper(ws: seq<word>, vs: seq<word>)
    requires |ws| >= 6 && Verifies(ws) && SameExcept(ws, vs, CRC1 - 1, CRC1)
    ensures var d := vs[CRC1 - 1] as int - ws[CRC1 - 1] as int;
            Verifies(vs) <==>
            && (vs[CRC1] as int - ws[CRC1] as int - d) % M32 == 0
            && (|ws| - (CRC1 - 1)) * d % M32 == 0
  {
    BlankChange(ws, vs, CRC1 - 1);
    BelowArithmetic(Sum(Blank(ws)), WeightedSum(Blank(ws)), ws[CRC1], ws[CRC2],
                    vs[CRC1 - 1] as int - ws[CRC1 - 1] as int, vs[CRC1] as int - ws[CRC1] as int,
                    |ws| - (CRC1 - 1));
  }

  lemma AboveCrcTamper(ws: seq<word>, vs: seq<word>)
    requires |ws| >= 7 && Verifies(ws) && SameExcept(ws, vs, CRC2, CRC2 + 1)
    ensures Verifies(vs) <==> vs == ws
  {
    if Verifies(vs) {
      var k := CRC2 + 1;
      BlankChange(ws, vs, k);
      var d := vs[k] as int - ws[k] as int;
      EqualResidues(Sum(Blank(ws)) + d, Sum(Blank(ws)));
      SmallMultiple(d);
      assert vs[k] == ws[k];
      assert Blank(vs) == Blank(ws);
      assert forall m :: 0 <= m < |ws| ==> vs[m] == ws[m];
    }
  }

  /** Changing two adjacent words of a verifying image, anywhere, is rejected with one exception:
      the word before the first checksum word changes by d, the checksum word changes by the same d,
      and d times the number of words from there on is a multiple of 2^32. */
  lemma AdjacentTamper(ws: seq<word>, vs: seq<word>, i: nat)
    requires |ws| >= 6 && Verifies(ws) && i + 1 < |ws| && SameExcept(ws, vs, i, i + 1)
    ensures Verifies(vs) <==>
            || vs == ws
            || (&& i + 1 == CRC1
                && (vs[CRC1] as int - ws[CRC1] as int - (vs[i] as int - ws[i] as int)) % M32 == 0
                && (|ws| - i) * (vs[i] as int - ws[i] as int) % M32 == 0)
  {
    if i + 1 < CRC1 || CRC2 < i {
      OutsideTamper(ws, vs, i);
    } else if i + 1 == CRC1 {
      BelowCrcTamper(ws, vs);
    } else if i == CRC1 {
      CrcWordsTamper(ws, vs);
    } else {
      AboveCrcTamper(ws, vs);
    }
  }

  // ----- what the parse mode accepts -----

  /** The sums of an image, from the sums of its blank form and the two words put in. */
  lemma UnblankSums(ws: seq<word>, a: int, b: int, u: int)
    requires |ws| >= 6 && a == ws[CRC1] && b == ws[CRC2]
    requires u == (|ws| - CRC1) * a + (|ws| - CRC2) * b
    ensures Sum(ws) == Sum(Blank(ws)) + (a + b)
    ensures WeightedSum(ws) == WeightedSum(Blank(ws)) + u
  {
    var z := Blank(ws);
    var z1: seq<word> := z[CRC1 := ws[CRC1]];
    OneWordChange(z, CRC1, a);
    OneWordChange(z1, CRC2, b);
    assert z1[CRC2 := ws[CRC2]] == ws;
  }

  lemma SumResidue(w: int, y: int, b: int, u: int)
    requires w == y + u && y % M32 == b
    ensures w % M32 == (b + u) % M32
  {
    CongruentSum(y, u);
  }

  /** The arithmetic of the coded check: x and y are the blank sums, a and b their residues,
      u what the two stored words add to the weighted sum. */
  lemma CodedArithmetic(x: int, y: int, a: int, b: int, u: int, m: int)
    requires x % M32 == a && y % M32 == b && u == m * a + (m - 1) * b
    ensures (x + (a + b)) % M32 == 0 && (y + u) % M32 == 0 <==>
            (2 * a + b) % M32 == 0 && m * a % M32 == 0
  {
    var t := 2 * a + b;
    SumResidue(x + (a + b), x, a, a + b);
    SumResidue(y + u, y, b, u);
    assert b + u == -(m * a) + m * t by {
      Distribute(2 * a, b, m);
      Distribute(m - 1, 1, b);
    }
    if t % M32 == 0 {
      PlusMultiple(-(m * a), m, t);
      EqualResidues(0, m * a);
      EqualResidues(0, -(m * a));
    }
  }

  /** On a sealed image of n words the coded check accepts exactly when
      2*crc1 + crc2 and (n-4)*crc1 are both multiples of 2^32. */
  lemma CodedCheckAccepts(ws: seq<word>)
    requires |ws| >= 6 && Verifies(ws)
    ensures VerifiesAsCoded(ws) <==>
            && (2 * (ws[CRC1] as int) + ws[CRC2] as int) % M32 == 0
            && (|ws| - CRC1) * (ws[CRC1] as int) % M32 == 0
  {
    var a: int, b: int, m := ws[CRC1], ws[CRC2], |ws| - CRC1;
    var u := m * a + (m - 1) * b;
    CodedArithmetic(Sum(Blank(ws)), WeightedSum(Blank(ws)), a, b, u, m);
    UnblankSums(ws, a, b, u);
  }

  /** With an odd number of words it accepts exactly when both stored words are zero. */
  lemma CodedCheckOdd(ws: seq<word>)
    requires |ws| >= 6 && |ws| % 2 == 1 && Verifies(ws)
    ensures VerifiesAsCoded(ws) <==> ws[CRC1] == 0 && ws[CRC2] == 0
  {
    CodedCheckAccepts(ws);
    if VerifiesAsCoded(ws) {
      CancelOddWord(|ws| - CRC1, ws[CRC1]);
      SmallMultiple(ws[CRC1]);
      SmallMultiple(ws[CRC2]);
    }
  }

  // ----- the same on bytes -----

  /** Storing a word changes that word of the image only. */
  lemma WordsSplice(s: seq<byte>, i: nat, v: word)
    requires 4 * i + 4 <= |s|
    ensures Words(Splice(s, 4 * i, Le32(v))) == Words(s)[i := v]
  {
    var t := Splice(s, 4 * i, Le32(v));
    forall k | 0 <= k < |s| / 4
      ensures Words(t)[k] == Words(s)[i := v][k]
    {
      if k == i {
        assert t[4 * i..4 * i + 4] == Le32(v);
        Le32RoundTrip(t, 4 * i, v);
      } else {
        Get32Agree(s, t, 4 * k);
      }
    }
  }

  /** The stores that finish a generator: both sums of an image whose checksum bytes are zero. */
  function SealBytes(s: seq<byte>): (r: seq<byte>)
    requires |s| >= 24
    ensures |r| == |s|
  {
    var c := CheckOf(Words(s));
    Splice(Splice(s, 4 * CRC1, Le32(c.a)), 4 * CRC2, Le32(c.b))
  }

  lemma SealBytesSeals(s: seq<byte>)
    requires |s| >= 24
    requires Get32(s, 4 * CRC1) == 0 && Get32(s, 4 * CRC2) == 0
    ensures Words(SealBytes(s)) == Seal(Words(s))
    ensures Verifies(Words(SealBytes(s)))
  {
    var ws := Words(s);
    assert Blank(ws) == ws;
    var c := CheckOf(ws);
    WordsSplice(s, CRC1, c.a);
    WordsSplice(Splice(s, 4 * CRC1, Le32(c.a)), CRC2, c.b);
    VerifiesIffSealed(ws);
  }

  /** Byte 16 starts the plain sum of the words, byte 20 the weighted one. */
  lemma SealedWords(s: seq<byte>)
    requires |s| >= 24
    ensures Get32(SealBytes(s), 16) == Sum(Words(s)) % 0x1_0000_0000
    ensures Get32(SealBytes(s), 20) == WeightedSum(Words(s)) % 0x1_0000_0000
  {
    var c, t := CheckOf(Words(s)), SealBytes(s);
    assert t[16..20] == Le32(c.a) && t[20..24] == Le32(c.b);
    Le32RoundTrip(t, 16, c.a);
    Le32RoundTrip(t, 20, c.b);
  }

  /** The end of both generators: the structure is summed and the sums are stored inside it. */
  method StoreChecksums(g: array<byte>)
    requires 24 <= g.Length < M32 && g.Length % 4 == 0
    modifies g
    ensures g[..] == SealBytes(old(g[..]))
  {
    var checksum := new SumCell(0);
    var ok := DoubleCheckSum(g, g.Length, checksum, false);
    assert g[..g.Length] == g[..];
    if !ok {
      assert false;
    }
    Store32(g, 4 * CRC1, checksum.value / M32);
    Store32(g, 4 * CRC2, checksum.value % M32);
  }
}
