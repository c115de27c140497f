/** The one-byte checksum of headers and blocks. */
module ByteCheckSum {
  import opened Bytes
  import opened DoubleSum
  import opened SumDetection

  /** The complement of the byte sum: zero exactly when the bytes sum to 0xFF modulo 256. */
  function Complement(s: seq<byte>): byte {
    0xFF - Sum(s) % 0x100
  }

  method GenCheckSum(buf: array<byte>, size: nat) returns (c: byte)
    requires size <= buf.Length
    ensures c == Complement(buf[..size])
  {
    var checkSum: byte := 0;
    for i := 0 to size
      invariant checkSum == Sum(buf[..i]) % 0x100
    {
      assert buf[..i + 1] == buf[..i] + [buf[i]];
      SumsStep(buf[..i], buf[i]);
      checkSum := (checkSum + buf[i]) % 0x100;
    }
    return 0xFF - checkSum;
  }

  /** Of the 256 values byte k can take, exactly one makes the slice check out: the complement
      of the slice with that byte zero. */
  lemma OneByteChecks(s: seq<byte>, k: nat, v: byte)
    requires k < |s|
    ensures Complement(s[k := v]) == 0 <==> v == Complement(s[k := 0])
  {
    OneWordChange(s, k, v);
    OneWordChange(s, k, 0);
    CongruentByte(Sum(s[k := 0]), v);
    assert Sum(s[k := v]) == Sum(s[k := 0]) + v;
  }

  lemma CongruentByte(a: int, v: byte)
    ensures (a + v) % 0x100 == 0xFF <==> v == 0xFF - a % 0x100
  {
  }

  lemma {:induction false} SumOfZeros(n: nat)
    ensures Sum(Fill(n, 0)) == 0
  {
    if n == 0 {
    } else {
      SumOfZeros(n - 1);
      assert Fill(n, 0)[1..] == Fill(n - 1, 0);
    }
  }

  /** Zeros never check out. */
  lemma ZerosNeverCheck(s: seq<byte>)
    requires forall i :: 0 <= i < |s| ==> s[i] == 0
    ensures Complement(s) == 0xFF
  {
    assert s == Fill(|s|, 0);
    SumOfZeros(|s|);
  }

  /** A slice that checks out no longer does after a change of any one byte. */
  lemma ByteChangeDetected(s: seq<byte>, k: nat, v: byte)
    requires k < |s| && Complement(s) == 0 && v != s[k]
    ensures Complement(s[k := v]) != 0
  {
    assert s[k := s[k]] == s;
    OneByteChecks(s, k, s[k]);
    OneByteChecks(s, k, v);
  }
}
