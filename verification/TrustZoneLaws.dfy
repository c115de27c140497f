/** What the TrustZone tool's parse mode makes of the images its generate mode writes. */
module TrustZoneLaws {
  import opened Bytes
  import opened DoubleSum
  import opened SumDetection
  import opened SealedImage
  import opened TrustZone

  /** The word that holds the first four bytes of the configured block. */
  function ConfigWord(c: Config): word {
    var v: int, l: int, e: int, t: int := c.versionId, c.length, c.speFeatureEn, c.storageType;
    v + 0x100 * l + 0x1_0000 * e + 0x100_0000 * t
  }

  /** The generated structure as nine words, before the checksums are stored. */
  lemma PlainWords(timestamp: word, c: Config)
    ensures |Plain(timestamp, c)| == IMAGE_SIZE
    ensures Words(Plain(timestamp, c)) ==
            [VERSION_MAJOR, timestamp, IMAGE_SIZE, SIGNATURE, 0, 0, ConfigWord(c), c.storageAddr, c.storageSize]
  {
    Offsets();
    var p := Plain(timestamp, c);
    PlainField(timestamp, c, 0);
    Le16RoundTrip(p, 0, VERSION_MAJOR);
    PlainField(timestamp, c, 1);
    Le16RoundTrip(p, 2, VERSION_MINOR);
    PlainWord(timestamp, c, 2, timestamp);
    PlainWord(timestamp, c, 3, IMAGE_SIZE);
    PlainWord(timestamp, c, 4, SIGNATURE);
    PlainWord(timestamp, c, 5, 0);
    PlainWord(timestamp, c, 6, 0);
    PlainByte(timestamp, c, 7);
    PlainByte(timestamp, c, 8);
    PlainByte(timestamp, c, 9);
    PlainByte(timestamp, c, 10);
    PlainWord(timestamp, c, 11, c.storageAddr);
    PlainWord(timestamp, c, 12, c.storageSize);
    assert Get32(p, 0) == VERSION_MAJOR;
    assert Get32(p, 24) == ConfigWord(c);
  }

  lemma NineWords(ws: seq<int>)
    requires |ws| == 9
    ensures Sum(ws) == ws[0] + ws[1] + ws[2] + ws[3] + ws[4] + ws[5] + ws[6] + ws[7] + ws[8]
    ensures WeightedSum(ws) == 9 * ws[0] + 8 * ws[1] + 7 * ws[2] + 6 * ws[3] + 5 * ws[4] + 4 * ws[5]
                               + 3 * ws[6] + 2 * ws[7] + ws[8]
  {
    assert ws[0..] == ws && ws[9..] == [];
    Unfold(ws, 8);
    Unfold(ws, 7);
    Unfold(ws, 6);
    Unfold(ws, 5);
    Unfold(ws, 4);
    Unfold(ws, 3);
    Unfold(ws, 2);
    Unfold(ws, 1);
    Unfold(ws, 0);
  }

  /** Every generated image verifies in the intended way, and the coded check accepts it
      exactly when both of its stored checksum words are zero. */
  lemma GeneratedImage(timestamp: word, c: Config)
    ensures |Plain(timestamp, c)| == IMAGE_SIZE
    ensures Verifies(Words(SealBytes(Plain(timestamp, c))))
    ensures VerifiesAsCoded(Words(SealBytes(Plain(timestamp, c)))) <==>
            CheckOf(Words(Plain(timestamp, c))) == Check(0, 0)
  {
    var p := Plain(timestamp, c);
    PlainWords(timestamp, c);
    assert Words(p)[4] == 0 && Words(p)[5] == 0;
    SealBytesSeals(p);
    CodedCheckOdd(Words(SealBytes(p)));
    assert Blank(Words(p)) == Words(p);
  }

  /** A word with its top bit flipped. */
  function Flipped(w: word): word {
    if w < 0x8000_0000 then w + 0x8000_0000 else w - 0x8000_0000
  }

  /** Two words that change by the same amount modulo 2^32, six times which is a multiple of 2^32. */
  lemma TopBits(w: word, w': word, x: word, x': word)
    ensures (x' as int - x as int - (w' as int - w as int)) % M32 == 0 && 6 * (w' as int - w as int) % M32 == 0 <==>
            (w' == w && x' == x) || (w' == Flipped(w) && x' == Flipped(x))
  {
  }

  /** A generated image with two adjacent words changed verifies in the intended way if and only if
      the change flips the top bits of the signature and of the first checksum; so no change is
      accepted that leaves the signature alone. */
  lemma GeneratedTamper(timestamp: word, c: Config, vs: seq<word>, i: nat)
    requires |Plain(timestamp, c)| == IMAGE_SIZE && i + 1 < 9
    requires SameExcept(Words(SealBytes(Plain(timestamp, c))), vs, i, i + 1)
    ensures var ws := Words(SealBytes(Plain(timestamp, c)));
            Verifies(vs) <==>
            vs == ws || (i == 3 && vs[3] == Flipped(ws[3]) && vs[4] == Flipped(ws[4]))
    ensures Words(SealBytes(Plain(timestamp, c)))[3] == SIGNATURE
    ensures Verifies(vs) && vs[3] == SIGNATURE ==> vs == Words(SealBytes(Plain(timestamp, c)))
  {
    var ws := Words(SealBytes(Plain(timestamp, c)));
    GeneratedImage(timestamp, c);
    SignatureStays(timestamp, c);
    AdjacentTamper(ws, vs, i);
    PairAgrees(ws, vs, i);
    if i == 3 {
      TopBits(ws[3], vs[3], ws[4], vs[4]);
    }
  }

  lemma SignatureStays(timestamp: word, c: Config)
    ensures |Plain(timestamp, c)| == IMAGE_SIZE
    ensures Words(SealBytes(Plain(timestamp, c)))[3] == SIGNATURE
  {
    var p := Plain(timestamp, c);
    PlainWords(timestamp, c);
    assert Words(p)[3] == SIGNATURE;
    Get32Agree(p, SealBytes(p), 12);
  }

  /** The timestamp at which the sum of all words is zero, and the value that then has to be
      zero for the weighted sum to vanish as well; both depend on the configured block only. */
  function ZeroTime(c: Config): word {
    -FixedSum(c) % M32
  }

  /** The sum of all words but the timestamp. */
  function FixedSum(c: Config): int {
    VERSION_MAJOR + IMAGE_SIZE + (SIGNATURE as int) + ConfigWord(c) + c.storageAddr + c.storageSize
  }

  function Leftover(c: Config): int {
    VERSION_MAJOR - IMAGE_SIZE - 2 * (SIGNATURE as int) - 5 * (ConfigWord(c) as int)
    - 6 * (c.storageAddr as int) - 7 * (c.storageSize as int)
  }

  lemma SumsOfPlain(timestamp: word, c: Config)
    ensures Sum(Words(Plain(timestamp, c))) == FixedSum(c) + timestamp
    ensures WeightedSum(Words(Plain(timestamp, c))) == 8 * Sum(Words(Plain(timestamp, c))) + Leftover(c)
  {
    PlainWords(timestamp, c);
    NineWords(Words(Plain(timestamp, c)));
  }

  lemma ZeroBoth(s: int, t: int, a: int, l: int)
    requires a == s + t && 0 <= t < M32
    ensures a % M32 == 0 && (8 * a + l) % M32 == 0 <==> t == -s % M32 && l % M32 == 0
  {
    EqualResidues(t, -s);
    if a % M32 == 0 {
      PlusMultiple(l, 8, a);
    }
  }

  lemma BothZero(ws: seq<int>)
    ensures CheckOf(ws) == Check(0, 0) <==> Sum(ws) % M32 == 0 && WeightedSum(ws) % M32 == 0
  {
  }

  lemma ZeroCheck(timestamp: word, c: Config)
    ensures CheckOf(Words(Plain(timestamp, c))) == Check(0, 0) <==>
            timestamp == ZeroTime(c) && Leftover(c) % M32 == 0
  {
    var ws := Words(Plain(timestamp, c));
    SumsOfPlain(timestamp, c);
    BothZero(ws);
    ZeroBoth(FixedSum(c), timestamp, Sum(ws), Leftover(c));
  }

  /** Exact acceptance of the parse mode: a generated image passes the tool's own checksum
      verification for one timestamp at most, and only if the configured block satisfies a
      linear equation modulo 2^32. */
  lemma ParseAcceptance(timestamp: word, c: Config)
    ensures |Plain(timestamp, c)| == IMAGE_SIZE
    ensures VerifiesAsCoded(Words(SealBytes(Plain(timestamp, c)))) <==>
            timestamp == ZeroTime(c) && Leftover(c) % M32 == 0
  {
    GeneratedImage(timestamp, c);
    ZeroCheck(timestamp, c);
  }

  /** The block the repository ships: its image never passes, whatever the timestamp,
      although it verifies in the intended way. */
  const SHIPPED := Config(1, 12, 1, 1, 0x60_0000, 0x20_0000)

  lemma ShippedNeverPasses(timestamp: word)
    ensures |Plain(timestamp, SHIPPED)| == IMAGE_SIZE
    ensures AcceptableConfig(SHIPPED)
    ensures Verifies(Words(SealBytes(Plain(timestamp, SHIPPED))))
    ensures !VerifiesAsCoded(Words(SealBytes(Plain(timestamp, SHIPPED))))
  {
    GeneratedImage(timestamp, SHIPPED);
    ParseAcceptance(timestamp, SHIPPED);
    ShippedLeftover();
  }

  lemma ShippedLeftover()
    ensures Leftover(SHIPPED) % M32 == 1800671024
  {
    assert ConfigWord(SHIPPED) == 0x0101_0C01;
    assert Leftover(SHIPPED) == -2494296272;
  }

  lemma PassingLeftover()
    ensures var c := SHIPPED.(storageSize := 0xA1BE_4B50);
            Leftover(c) % M32 == 0 && ZeroTime(c) == 379407926
  {
    var c := SHIPPED.(storageSize := 0xA1BE_4B50);
    assert ConfigWord(c) == 0x0101_0C01;
    assert Leftover(c) == -5 * M32;
  }

  /** A block that does pass, at its one timestamp. */
  lemma SomethingPasses()
    ensures var c := SHIPPED.(storageSize := 0xA1BE_4B50);
            && AcceptableConfig(c)
            && ZeroTime(c) == 379407926
            && |Plain(379407926, c)| == IMAGE_SIZE
            && VerifiesAsCoded(Words(SealBytes(Plain(379407926, c))))
  {
    PassingLeftover();
    ParseAcceptance(379407926, SHIPPED.(storageSize := 0xA1BE_4B50));
  }

  /** Generate, then parse the written file: validation always succeeds, and the file's first
      36 bytes are the sealed image. */
  method GenerateThenParse(timestamp: word, user: Option<Config>) returns (r: Option<ParseResult>)
    ensures r.None? <==>
            && user.Some?
            && !(user.value.versionId == 1 && user.value.length == 12 && user.value.storageType < 0xFF)
    ensures r.Some? ==>
              r.value == Parsed(timestamp == ZeroTime(Chosen(user)) && Leftover(Chosen(user)) % M32 == 0)
  {
    var g := Generate(timestamp, user);
    if g.ValidationFailed? {
      return None;
    }
    var p := Parse(g.file);
    assert g.file[..IMAGE_SIZE] == SealBytes(Plain(timestamp, Chosen(user)));
    PlainAcceptable(timestamp, Chosen(user));
    SealAcceptable(Plain(timestamp, Chosen(user)));
    AcceptableBytes(SealBytes(Plain(timestamp, Chosen(user))));
    ParseAcceptance(timestamp, Chosen(user));
    return Some(p);
  }

  /** Storing the checksums does not affect validation. */
  lemma SealAcceptable(g: seq<byte>)
    requires |g| == IMAGE_SIZE
    ensures Acceptable(SealBytes(g)) <==> Acceptable(g)
  {
    Get32Agree(g, SealBytes(g), 12);
  }
}
