/** The TrustZone configuration tool: generate mode, parse mode, and what the one makes of the
    other's output. */
module TrustZone {
  import opened Bytes
  import opened Memory
  import opened Layout
  import opened DoubleSum
  import opened SealedImage

  const BIN_SIZE := 4096
  const SIGNATURE: word := 0x4643_5A54 // "TZCF", first letter lowest
  const VERSION_MAJOR := 1
  const VERSION_MINOR := 0
  const STORAGE_DISABLED := 0
  const STORAGE_INVALID := 0xFF
  const CONFIG_SIZE := 12
  const IMAGE_SIZE := 36

  datatype Config = Config(versionId: byte, length: byte, speFeatureEn: byte,
                           storageType: byte, storageAddr: word, storageSize: word)

  /** version_major, version_minor, timestamp, length, signature, crc1, crc2, then the config. */
  const SIZES: seq<nat> := [2, 2, 4, 4, 4, 4, 4, 1, 1, 1, 1, 4, 4]

  lemma Offsets()
    ensures Offset(SIZES, 1) == 2 && Offset(SIZES, 2) == 4 && Offset(SIZES, 3) == 8
    ensures Offset(SIZES, 4) == 12 && Offset(SIZES, 5) == 16 && Offset(SIZES, 6) == 20
    ensures Offset(SIZES, 7) == 24 && Offset(SIZES, 8) == 25 && Offset(SIZES, 9) == 26
    ensures Offset(SIZES, 10) == 27 && Offset(SIZES, 11) == 28 && Offset(SIZES, 12) == 32
    ensures Offset(SIZES, 13) == IMAGE_SIZE
  {
    assert Offset(SIZES, 3) == 8;
    assert Offset(SIZES, 6) == 20;
    assert Offset(SIZES, 9) == 26;
    assert Offset(SIZES, 12) == 32;
  }

  /** The configuration a disabled build falls back to. */
  const MINIMAL := Config(VERSION_MAJOR, CONFIG_SIZE, 0, STORAGE_DISABLED, 0, 0)

  function Chosen(user: Option<Config>): Config {
    match user
    case Some(c) => c
    case None => MINIMAL
  }

  function Fields(timestamp: word, c: Config): seq<seq<byte>> {
    [Le16(VERSION_MAJOR), Le16(VERSION_MINOR), Le32(timestamp), Le32(IMAGE_SIZE), Le32(SIGNATURE),
     Le32(0), Le32(0), [c.versionId], [c.length], [c.speFeatureEn], [c.storageType],
     Le32(c.storageAddr), Le32(c.storageSize)]
  }

  /** The image before the checksums are stored. */
  function Plain(timestamp: word, c: Config): seq<byte> {
    Flatten(Fields(timestamp, c))
  }

  /** What validate_config demands of an image in memory. */
  predicate Acceptable(g: seq<byte>)
    requires |g| == IMAGE_SIZE
  {
    && Get32(g, 12) == SIGNATURE
    && Get16(g, 0) == VERSION_MAJOR && Get16(g, 2) == VERSION_MINOR
    && g[24] == VERSION_MAJOR
    && g[25] == CONFIG_SIZE
    && g[27] < STORAGE_INVALID
  }

  predicate AcceptableConfig(c: Config) {
    c.versionId == VERSION_MAJOR && c.length == CONFIG_SIZE && c.storageType != STORAGE_INVALID
  }

  method ValidateConfig(g: array<byte>) returns (r: int)
    requires g.Length == IMAGE_SIZE
    ensures r == 0 || r == -1
    ensures r == 0 <==> Acceptable(g[..])
  {
    var signature := ReadWord(g, 12, g.Length);
    if signature != SIGNATURE {
      return -1;
    }
    if Get16(g[..], 0) != VERSION_MAJOR || Get16(g[..], 2) != VERSION_MINOR {
      return -1;
    }
    if g[24] != VERSION_MAJOR {
      return -1;
    }
    if g[25] != CONFIG_SIZE {
      return -1;
    }
    if g[27] >= STORAGE_INVALID {
      return -1;
    }
    return 0;
  }

  lemma PlainShape(timestamp: word, c: Config)
    ensures Shaped(Fields(timestamp, c), SIZES)
    ensures |Plain(timestamp, c)| == IMAGE_SIZE
  {
    FlattenLength(Fields(timestamp, c), SIZES);
    Offsets();
  }

  lemma PlainField(timestamp: word, c: Config, k: nat)
    requires k < |SIZES|
    ensures |Plain(timestamp, c)| == IMAGE_SIZE && Offset(SIZES, k) + SIZES[k] <= IMAGE_SIZE
    ensures Plain(timestamp, c)[Offset(SIZES, k)..Offset(SIZES, k) + SIZES[k]] == Fields(timestamp, c)[k]
  {
    PlainShape(timestamp, c);
    FieldAt(Fields(timestamp, c), SIZES, k);
  }

  lemma PlainByte(timestamp: word, c: Config, k: nat)
    requires k < |SIZES| && SIZES[k] == 1
    ensures |Plain(timestamp, c)| == IMAGE_SIZE && Offset(SIZES, k) < IMAGE_SIZE
    ensures Plain(timestamp, c)[Offset(SIZES, k)] == Fields(timestamp, c)[k][0]
  {
    PlainField(timestamp, c, k);
    var p, o := Plain(timestamp, c), Offset(SIZES, k);
    assert p[o] == p[o..o + 1][0];
  }

  lemma PlainWord(timestamp: word, c: Config, k: nat, v: word)
    requires k < |SIZES| && SIZES[k] == 4 && Fields(timestamp, c)[k] == Le32(v)
    ensures |Plain(timestamp, c)| == IMAGE_SIZE && Offset(SIZES, k) + 4 <= IMAGE_SIZE
    ensures Get32(Plain(timestamp, c), Offset(SIZES, k)) == v
  {
    PlainField(timestamp, c, k);
    Le32RoundTrip(Plain(timestamp, c), Offset(SIZES, k), v);
  }

  /** Validation of a generated image comes down to three bytes of the user's configuration. */
  lemma PlainAcceptable(timestamp: word, c: Config)
    ensures |Plain(timestamp, c)| == IMAGE_SIZE
    ensures Acceptable(Plain(timestamp, c)) <==> AcceptableConfig(c)
  {
    Offsets();
    PlainWord(timestamp, c, 4, SIGNATURE);
    PlainField(timestamp, c, 0);
    Le16RoundTrip(Plain(timestamp, c), 0, VERSION_MAJOR);
    PlainField(timestamp, c, 1);
    Le16RoundTrip(Plain(timestamp, c), 2, VERSION_MINOR);
    PlainByte(timestamp, c, 7);
    PlainByte(timestamp, c, 8);
    PlainByte(timestamp, c, 10);
  }

  datatype GenerateResult = ValidationFailed | Written(file: seq<byte>)

  ghost function HeaderFields(timestamp: word): (segs: seq<seq<byte>>)
    ensures Shaped(segs, SIZES)
  {
    Filled(SIZES, 0xFF)[0 := Le16(VERSION_MAJOR)][1 := Le16(VERSION_MINOR)][2 := Le32(timestamp)]
    [3 := Le32(IMAGE_SIZE)][4 := Le32(SIGNATURE)][6 := Le32(0)][5 := Le32(0)]
  }

  /** The whole structure is set to 0xFF, then the header fields are assigned one by one. */
  method StoreHeader(g: array<byte>, timestamp: word) returns (ghost segs: seq<seq<byte>>)
    requires g.Length == IMAGE_SIZE
    modifies g
    ensures segs == HeaderFields(timestamp) && g[..] == Flatten(segs)
  {
    Offsets();
    FillStructure(g, SIZES, 0xFF);
    segs := Filled(SIZES, 0xFF);
    StoreField(g, segs, SIZES, 0, 0, Le16(VERSION_MAJOR));
    segs := segs[0 := Le16(VERSION_MAJOR)];
    StoreField(g, segs, SIZES, 1, 2, Le16(VERSION_MINOR));
    segs := segs[1 := Le16(VERSION_MINOR)];
    StoreField(g, segs, SIZES, 2, 4, Le32(timestamp));
    segs := segs[2 := Le32(timestamp)];
    StoreField(g, segs, SIZES, 3, 8, Le32(IMAGE_SIZE));
    segs := segs[3 := Le32(IMAGE_SIZE)];
    StoreField(g, segs, SIZES, 4, 12, Le32(SIGNATURE));
    segs := segs[4 := Le32(SIGNATURE)];
    StoreField(g, segs, SIZES, 6, 20, Le32(0));
    segs := segs[6 := Le32(0)];
    StoreField(g, segs, SIZES, 5, 16, Le32(0));
    segs := segs[5 := Le32(0)];
  }

  /** Everything generate mode writes for a configured block. */
  function File(timestamp: word, c: Config): (r: seq<byte>)
    ensures |r| == BIN_SIZE
  {
    PlainShape(timestamp, c);
    SealBytes(Plain(timestamp, c)) + Fill(BIN_SIZE - IMAGE_SIZE, 0xFF)
  }

  /** Generate mode, given the seconds since the epoch and the configured block, if any. The minimal
      block always passes; the user's has to carry version 1, length 12 and a known storage type. */
  method Generate(timestamp: word, user: Option<Config>) returns (r: GenerateResult)
    ensures r.ValidationFailed? <==>
            && user.Some?
            && !(user.value.versionId == 1 && user.value.length == 12 && user.value.storageType < 0xFF)
    ensures r.Written? ==> r.file == File(timestamp, Chosen(user))
  {
    var g := new byte[IMAGE_SIZE];
    ghost var segs := StoreHeader(g, timestamp);
    StoreConfig(g, segs, user);
    segs := StoredConfig(segs, Chosen(user));
    assert segs == Fields(timestamp, Chosen(user));

    PlainAcceptable(timestamp, Chosen(user));
    var invalid := ValidateConfig(g);
    if invalid != 0 {
      return ValidationFailed;
    }
    StoreChecksums(g);
    r := Written(g[..] + Fill(BIN_SIZE - IMAGE_SIZE, 0xFF));
  }

  ghost function StoredConfig(segs: seq<seq<byte>>, c: Config): seq<seq<byte>>
    requires |segs| == |SIZES|
  {
    segs[7 := [c.versionId]][8 := [c.length]][9 := [c.speFeatureEn]][10 := [c.storageType]]
    [11 := Le32(c.storageAddr)][12 := Le32(c.storageSize)]
  }

  /** The configured block, or the minimal one, stored field by field. */
  method StoreConfig(g: array<byte>, ghost segs: seq<seq<byte>>, user: Option<Config>)
    requires Shaped(segs, SIZES) && g[..] == Flatten(segs)
    modifies g
    ensures g[..] == Flatten(StoredConfig(segs, Chosen(user)))
  {
    Offsets();
    var c := Chosen(user);
    ghost var s := segs;
    StoreField(g, s, SIZES, 7, 24, [c.versionId]);
    s := s[7 := [c.versionId]];
    StoreField(g, s, SIZES, 8, 25, [c.length]);
    s := s[8 := [c.length]];
    StoreField(g, s, SIZES, 9, 26, [c.speFeatureEn]);
    s := s[9 := [c.speFeatureEn]];
    StoreField(g, s, SIZES, 10, 27, [c.storageType]);
    s := s[10 := [c.storageType]];
    StoreField(g, s, SIZES, 11, 28, Le32(c.storageAddr));
    s := s[11 := Le32(c.storageAddr)];
    StoreField(g, s, SIZES, 12, 32, Le32(c.storageSize));
  }

  datatype ParseResult = ShortFile | Unacceptable | Parsed(checksumPassed: bool)

  lemma HalfBytes(a: byte, b: byte, v: half)
    requires v == a + 0x100 * (b as int)
    ensures Le16(v) == [a, b]
  {
  }

  lemma WordHalves(lo: half, hi: half, v: word)
    requires v == lo + 0x1_0000 * (hi as int)
    ensures Le32(v) == Le16(lo) + Le16(hi)
  {
  }

  lemma WordBytes(a: byte, b: byte, c: byte, d: byte, lo: half, hi: half, v: word)
    requires lo == a + 0x100 * (b as int) && hi == c + 0x100 * (d as int) && v == lo + 0x1_0000 * (hi as int)
    ensures Le32(v) == [a, b, c, d]
  {
    WordHalves(lo, hi, v);
    HalfBytes(a, b, lo);
    HalfBytes(c, d, hi);
  }

  lemma WordIs(s: seq<byte>, at: nat, v: word)
    requires at + 4 <= |s|
    ensures Get32(s, at) == v <==> s[at..at + 4] == Le32(v)
  {
    WordBytes(s[at], s[at + 1], s[at + 2], s[at + 3], Get16(s, at), Get16(s, at + 2), Get32(s, at));
    if s[at..at + 4] == Le32(v) {
      Le32RoundTrip(s, at, v);
    }
  }

  /** What validation demands, byte by byte: the signature, both versions, and three bytes of the block. */
  lemma AcceptableBytes(g: seq<byte>)
    requires |g| == 36
    ensures Acceptable(g) <==>
            && g[12..16] == [0x54, 0x5A, 0x43, 0x46] && g[0..4] == [1, 0, 0, 0]
            && g[24] == 1 && g[25] == 12 && g[27] < 0xFF
  {
    WordIs(g, 12, SIGNATURE);
    assert Le32(SIGNATURE) == [0x54, 0x5A, 0x43, 0x46];
    WordIs(g, 0, 1);
    assert Le32(1) == [1, 0, 0, 0];
    assert Get32(g, 0) == 1 <==> Get16(g, 0) == 1 && Get16(g, 2) == 0;
  }

  lemma FrontSlice(file: seq<byte>, n: nat, a: nat, b: nat)
    requires a <= b <= n <= |file|
    ensures file[..n][a..b] == file[a..b]
  {
  }

  /** Parse mode: read the structure from a file, validate it, and check its sums. */
  method Parse(file: seq<byte>) returns (r: ParseResult)
    ensures r.ShortFile? <==> |file| < 36
    ensures r.Unacceptable? <==>
            && 36 <= |file|
            && !(&& file[12..16] == [0x54, 0x5A, 0x43, 0x46] && file[0..4] == [1, 0, 0, 0]
                 && file[24] == 1 && file[25] == 12 && file[27] < 0xFF)
    ensures r.Parsed? ==> (r.checksumPassed <==> VerifiesAsCoded(Words(file[..36])))
  {
    if |file| < IMAGE_SIZE {
      return ShortFile;
    }
    var g := new byte[IMAGE_SIZE];
    CopyBytes(g, 0, file[..IMAGE_SIZE]);
    assert g[..] == file[..IMAGE_SIZE];
    FrontSlice(file, 36, 12, 16);
    FrontSlice(file, 36, 0, 4);
    AcceptableBytes(g[..]);
    var invalid := ValidateConfig(g);
    if invalid != 0 {
      return Unacceptable;
    }
    var checksum := new SumCell(0);
    var passed := DoubleCheckSum(g, IMAGE_SIZE, checksum, true);
    assert g[..IMAGE_SIZE] == g[..];
    r := Parsed(passed);
  }
}
