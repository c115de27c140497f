/** The file the TrustZone tool writes, and what its parse mode accepts, in numbers. */
module TrustZoneFile {
  import opened Bytes
  import opened DoubleSum
  import opened SealedImage
  import opened TrustZone
  import opened TrustZoneLaws

  lemma FileByte(timestamp: word, c: Config, i: nat)
    requires i < 36 && !(16 <= i < 24)
    ensures |Plain(timestamp, c)| == 36 && File(timestamp, c)[i] == Plain(timestamp, c)[i]
  {
    PlainShape(timestamp, c);
  }

  lemma FileWord(timestamp: word, c: Config, i: nat)
    requires i + 4 <= 36 && (i + 4 <= 16 || 24 <= i)
    ensures |Plain(timestamp, c)| == 36 && Get32(File(timestamp, c), i) == Get32(Plain(timestamp, c), i)
  {
    FileByte(timestamp, c, i);
    FileByte(timestamp, c, i + 1);
    FileByte(timestamp, c, i + 2);
    FileByte(timestamp, c, i + 3);
  }

  /** Everything in the file but the configured block and the checksums. */
  lemma HeaderInFile(timestamp: word, c: Config)
    ensures |File(timestamp, c)| == 4096
    ensures Get32(File(timestamp, c), 0) == 1 && Get32(File(timestamp, c), 4) == timestamp
    ensures Get32(File(timestamp, c), 8) == 36 && Get32(File(timestamp, c), 12) == 0x4643_5A54
    ensures forall i :: 36 <= i < 4096 ==> File(timestamp, c)[i] == 0xFF
  {
    PlainShape(timestamp, c);
    PlainWords(timestamp, c);
    var ws := Words(Plain(timestamp, c));
    assert ws[0] == 1 && ws[1] == timestamp && ws[2] == 36 && ws[3] == 0x4643_5A54;
    FileWord(timestamp, c, 0);
    FileWord(timestamp, c, 4);
    FileWord(timestamp, c, 8);
    FileWord(timestamp, c, 12);
  }

  lemma BlockInFile(timestamp: word, c: Config)
    ensures var f := File(timestamp, c);
            && f[24] == c.versionId && f[25] == c.length && f[26] == c.speFeatureEn && f[27] == c.storageType
            && Get32(f, 28) == c.storageAddr && Get32(f, 32) == c.storageSize
  {
    Offsets();
    PlainByte(timestamp, c, 7);
    PlainByte(timestamp, c, 8);
    PlainByte(timestamp, c, 9);
    PlainByte(timestamp, c, 10);
    PlainWord(timestamp, c, 11, c.storageAddr);
    PlainWord(timestamp, c, 12, c.storageSize);
    FileByte(timestamp, c, 24);
    FileByte(timestamp, c, 25);
    FileByte(timestamp, c, 26);
    FileByte(timestamp, c, 27);
    FileWord(timestamp, c, 28);
    FileWord(timestamp, c, 32);
  }

  lemma ZeroWord(s: seq<byte>, at: nat)
    requires at + 4 <= |s| && Get32(s, at) == 0
    ensures s[at] == 0 && s[at + 1] == 0 && s[at + 2] == 0 && s[at + 3] == 0
  {
  }

  /** A configured block is in the file as it stands; without one there are 1, 12 and ten zeros. */
  lemma ConfigInFile(timestamp: word, user: Option<Config>)
    ensures var f := File(timestamp, Chosen(user));
            match user
            case Some(c) =>
              && f[24..28] == [c.versionId, c.length, c.speFeatureEn, c.storageType]
              && Get32(f, 28) == c.storageAddr && Get32(f, 32) == c.storageSize
            case None => f[24..36] == [1, 12, 0, 0, 0, 0, 0, 0, 0, 0, 0, 0]
  {
    var f := File(timestamp, Chosen(user));
    BlockInFile(timestamp, Chosen(user));
    if user.None? {
      ZeroWord(f, 28);
      ZeroWord(f, 32);
    }
  }

  /** The first checksum is the sum of the words of the structure modulo 2^32, the second one the sum
      in which they weigh from 9 down to 1; the two checksum words count as zero. */
  lemma ChecksumsInFile(timestamp: word, c: Config)
    ensures var f := File(timestamp, c);
            && Get32(f, 16) == (1 + timestamp + 36 + 0x4643_5A54 + (Get32(f, 24) as int)
                                + c.storageAddr + c.storageSize) % 0x1_0000_0000
            && Get32(f, 20) == (9 * 1 + 8 * (timestamp as int) + 7 * 36 + 6 * 0x4643_5A54 + 3 * (Get32(f, 24) as int)
                                + 2 * (c.storageAddr as int) + c.storageSize) % 0x1_0000_0000
  {
    PlainShape(timestamp, c);
    PlainWords(timestamp, c);
    var p, f := Plain(timestamp, c), File(timestamp, c);
    NineWords(Words(p));
    FileWord(timestamp, c, 24);
    assert Words(p)[6] == Get32(p, 24);
    SealedWords(p);
    Get32Agree(f, SealBytes(p), 16);
    Get32Agree(f, SealBytes(p), 20);
  }

  /** The coded check of a structure of nine words: both sums over all of them vanish modulo 2^32. */
  lemma CodedCheckInNumbers(g: seq<byte>)
    requires |g| == 36
    ensures VerifiesAsCoded(Words(g)) <==>
            var a: int, b: int, c: int := Get32(g, 0), Get32(g, 4), Get32(g, 8);
            var d: int, e: int, h: int := Get32(g, 12), Get32(g, 16), Get32(g, 20);
            var i: int, j: int, k: int := Get32(g, 24), Get32(g, 28), Get32(g, 32);
            && (a + b + c + d + e + h + i + j + k) % 0x1_0000_0000 == 0
            && (9 * a + 8 * b + 7 * c + 6 * d + 5 * e + 4 * h + 3 * i + 2 * j + k) % 0x1_0000_0000 == 0
  {
    NineWords(Words(g));
  }
}
