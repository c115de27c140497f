/** A changed byte of an earlier feature block that does not show in the stored hash. */
module MemHashMerge {
  import opened Bytes
  import opened DoubleSum
  import opened SumDetection
  import opened ByteCheckSum
  import opened DjbHash
  import opened HashLogs
  import opened HashPairs
  import opened MemImage
  import opened MemLayout
  import opened MemTiling
  import opened MemRoundTrip
  import opened MemBoundary
  import opened MemFeatHash
  import opened MemStoredHash
  import opened MemHashChange

  // ----- blocks that lead to any hash -----

  /** Any number below a power of 33 has as many base-33 digits. */
  lemma {:induction false} Digits(r: nat, n: nat) returns (s: seq<byte>)
    requires r < Pow33(n)
    ensures |s| == n && Base33(s) == r
  {
    if n == 0 {
      s := [];
    } else {
      var p := Pow33(n - 1);
      LeadingDigit(r, p);
      var t := Digits(r % p, n - 1);
      s := [r / p] + t;
      assert s[1..] == t;
    }
  }

  lemma LeadingDigit(r: nat, p: nat)
    requires 0 < p && r < 33 * p
    ensures r / p < 33 && r == r / p * p + r % p
  {
    var q := r / p;
    assert (33 - q) * p == 33 * p - r + r % p;
    PositiveFactor(33 - q, p);
  }

  lemma PositiveFactor(a: int, p: int)
    requires p > 0 && a * p > 0
    ensures a > 0
  {
  }

  lemma EightDigits(h: word, g: word) returns (x: seq<byte>)
    ensures |x| == 8 && Run(h, x) == g
  {
    PowerEight();
    var top := (h as int) * Pow33(8);
    x := Digits((g - top) % M32, 8);
    ClosedForm(h, x);
    CongruentSum(g - top, top);
  }

  lemma PowerEight()
    ensures Pow33(8) == 1406408618241
  {
    assert Pow33(4) == 1185921;
  }

  /** Eight bytes followed by zeros lead from any hash to any other. */
  lemma Leading(h: word, t: word) returns (x: seq<byte>)
    ensures |x| == 8 && Run(h, x + Fill(8, 0)) == t
  {
    var g := RunOnto(Fill(8, 0), t);
    x := EightDigits(h, g);
    RunAppend(h, x, Fill(8, 0));
  }

  /** A block of which only eight bytes are copied, neither its size nor its checksum. */
  function ShortBlock(x: seq<byte>): (b: seq<byte>)
    requires |x| == 8
    ensures |b| == 16
  {
    x + Le16(8) + Fill(6, 0)
  }

  lemma ShortBlockCopied(x: seq<byte>)
    requires |x| == 8
    ensures Sound(ShortBlock(x)) && Size(ShortBlock(x)) == 8
    ensures Content(SealBlock(ShortBlock(x))) == x
  {
    assert ShortBlock(x)[8..10] == Le16(8);
    Le16RoundTrip(ShortBlock(x), 8, 8);
  }

  // ----- the block that is changed -----

  const LENGTH := 768
  const PLACE := 228
  const VALUE: byte := 56
  const MOVED: word := 4164381184

  function LongBlock(): (b: seq<byte>)
    ensures |b| == LENGTH
  {
    SizedBlock(LENGTH, LENGTH)
  }

  /** Its checksum is 252, and every byte but the size and the checksum is zero. */
  lemma LongBlockSealed()
    ensures Sound(LongBlock()) && Size(LongBlock()) == LENGTH
    ensures Content(SealBlock(LongBlock()))[CHECKSUM_AT] == 252
    ensures LongBlock()[PLACE] == 0
  {
    var b := LongBlock();
    SizedBlockSize(LENGTH, LENGTH);
    SealedContent(b);
    assert b[CHECKSUM_AT := 0][..LENGTH] == Fill(LENGTH, 0)[9 := 3];
    SumOfZeros(LENGTH);
    OneWordChange(Fill(LENGTH, 0), 9, 3);
  }

  lemma MovedChecksum(y: byte)
    requires (56 + (y as int - 252)) % 0x100 == 0
    ensures y == 196
  {
  }

  /** The sealed block with the byte set: two bytes of the copied part differ. */
  lemma LongBlockPair(s: seq<byte>, t: seq<byte>)
    requires Sound(LongBlock()) && Sound(LongBlock()[PLACE := VALUE])
    requires s == Content(SealBlock(LongBlock())) && t == Content(SealBlock(LongBlock()[PLACE := VALUE]))
    ensures |s| == LENGTH && s[CHECKSUM_AT] == 252 && s[PLACE] == 0
    ensures t == s[CHECKSUM_AT := 196][PLACE := VALUE]
  {
    LongBlockSealed();
    var y := MovedTogether(LongBlock(), PLACE, VALUE);
    MovedChecksum(y);
    var u: seq<byte> := s[CHECKSUM_AT := 196];
    assert t == u[PLACE := VALUE];
  }

  /** Setting that byte to 56 moves the checksum to 196, and the hash by a known amount. */
  lemma LongBlockMoves(g: word, s: seq<byte>, i: nat, j: nat) returns (k: int)
    requires |s| == LENGTH && i == CHECKSUM_AT && j == PLACE && s[i] == 252 && s[j] == 0
    ensures Run(g, s[i := 196][j := VALUE]) as int - Run(g, s) as int == MOVED as int + k * M32
  {
    k := TwoBytesMove(g, s, i, j, 196, VALUE);
    var l := MovedAmount(|s| - 1 - j, j - i, Pow33(j - i) * (196 - s[i] as int) + (VALUE as int - s[j] as int));
    k := k + l;
  }

  lemma MovedAmount(m: nat, n: nat, e: int) returns (l: int)
    requires m == 539 && n == 218 && e == Pow33(n) * -56 + 56
    ensures Pow33(m) * e == MOVED as int + l * M32
  {
    PowAdd(m, n);
    l := FixedPowers(m, m + n);
    MovedProduct(Pow33(m), Pow33(n), Pow33(m + n), e);
  }

  lemma MovedProduct(a: int, b: int, c: int, e: int)
    requires c == a * b && e == b * -56 + 56
    ensures a * e == -56 * c + 56 * a
  {
    Distribute(b * -56, 56, a);
    Associate(a, b, -56);
  }

  /** A power of 33 is worth its binomial sum. */
  lemma PowerHorner(n: nat) returns (q: int)
    ensures 720 * Pow33(n) == Horner(n) + q * M36
  {
    HornerIsBinomial(n);
    q := PowerIsBinomial(n);
  }

  lemma FixedPowers(m: nat, n: nat) returns (l: int)
    requires m == 539 && n == 757
    ensures -56 * Pow33(n) + 56 * Pow33(m) == MOVED as int + l * M32
  {
    var p := PowerHorner(n);
    var q := PowerHorner(m);
    FixedResidue(Pow33(n), Horner(n), p, Pow33(m), Horner(m), q);
    l := (-56 * Pow33(n) + 56 * Pow33(m) - MOVED as int) / M32;
  }

  function FixedQuotient(): int {
    (-56 * Horner(757) + 56 * Horner(539) - 720 * 4164381184) / 0x10_0000_0000
  }

  lemma FixedSum()
    ensures -56 * Horner(757) + 56 * Horner(539) - 720 * 4164381184 == FixedQuotient() * 0x10_0000_0000
  {
  }

  lemma FixedResidue(a: int, x: int, p: int, b: int, y: int, q: int)
    requires 720 * a == x + p * M36 && 720 * b == y + q * M36
    requires x == Horner(757) && y == Horner(539)
    ensures (-56 * a + 56 * b - MOVED as int) % M32 == 0
  {
    FixedSum();
    Cancel720(-56 * a + 56 * b - MOVED as int, FixedQuotient() - 56 * p + 56 * q);
  }

  // ----- four feature blocks -----

  /** Hashes 0 and 4164381184 become 5381 and 0 over a block that leads from 5381 to 5381. */
  lemma SecondStart(w: seq<byte>)
    requires |w| == 16 && Run(SEED, w) == SEED
    ensures Run(MOVED, w) == 0
  {
    var k := RunDifference(SEED, MOVED, w);
    assert Pow33(4) == 1185921 && Pow33(8) == 1406408618241;
    PowAdd(8, 8);
    assert Pow33(16) == 1977985201462558877934081;
    var r: int := Run(MOVED, w);
    assert r == 5381 - 1977985201462558877934081 * (5381 - 4164381184) - k * M32;
    assert r % M32 == 0;
  }

  lemma FourBlocks(ws: seq<Block>, vs: seq<Block>, g: word)
    requires |ws| == 4 && SameBut(ws, vs, 1) && forall k :: 0 <= k < 4 ==> ws[k].guid == FEATURE_GUID
    requires g != 0 && Run(SEED, ws[0].bytes) == g
    requires Run(g, ws[1].bytes) == 0 && Run(g, vs[1].bytes) == MOVED
    requires Run(SEED, ws[2].bytes) == SEED && Run(MOVED, ws[2].bytes) == 0
    ensures ListHash(ws, 4) == ListHash(vs, 4)
  {
    assert ws[0] == vs[0] && ws[2] == vs[2] && ws[3] == vs[3];
    assert ListHash(ws, 1) == g && ListHash(vs, 1) == g;
    assert ListHash(ws, 2) == 0 && ListHash(vs, 2) == MOVED;
    assert ListHash(ws, 3) == SEED && ListHash(vs, 3) == 0;
  }

  function FourList(p: seq<byte>, q: seq<byte>): seq<Block>
    requires |p| == |q| == 8
  {
    [Block(FEATURE_GUID, ShortBlock(p)), Block(FEATURE_GUID, LongBlock()),
     Block(FEATURE_GUID, ShortBlock(q)), Block(FEATURE_GUID, ShortBlock(q))]
  }

  lemma FourOffsets(bs: seq<Block>)
    requires AllSound(bs) && |bs| == 4
    requires Size(bs[0].bytes) == Size(bs[2].bytes) == Size(bs[3].bytes) == 8 && Size(bs[1].bytes) == LENGTH
    ensures BlockOffset(bs, 0) == 80 && BlockOffset(bs, 1) == 96 && BlockOffset(bs, 2) == 864
    ensures BlockOffset(bs, 3) == 880 && TotalSize(bs) == 896
  {
    AlignIsShift(8);
    AlignIsShift(16);
    AlignIsShift(LENGTH);
    assert BlockOffset(bs, 0) == 80;
    assert BlockOffset(bs, 1) == 96;
    assert BlockOffset(bs, 2) == 864;
    assert BlockOffset(bs, 3) == 880;
  }

  /** No byte string whose checksum is right leads from hash 0 to hash 0. */
  lemma CheckedNotZero(s: seq<byte>)
    requires Complement(s) == 0
    ensures Run(0, s) != 0
  {
    RunParity(0, s);
    OddSum(Sum(s));
  }

  lemma OddSum(a: int)
    requires a % 0x100 == 0xFF
    ensures a % 2 == 1
  {
    var q := a / 0x100;
    OddAbove(0x80 * q + 0x7F, a);
  }

  lemma OddAbove(h: int, a: int)
    requires a == 2 * h + 1
    ensures a % 2 == 1
  {
  }

  /** Modulo 2 the hash is a sum. */
  lemma {:induction false} RunParity(h: word, s: seq<byte>)
    ensures Run(h, s) % 2 == (h + Sum(s)) % 2
    decreases s
  {
    if s == [] {
    } else {
      var next: word := (33 * (h as int) + s[0]) % M32;
      RunParity(next, s[1..]);
      StepParity(h, s[0], Sum(s[1..]));
    }
  }

  lemma StepParity(h: int, b: int, r: int)
    ensures ((33 * h + b) % M32 + r) % 2 == (h + (b + r)) % 2
  {
    var u := 33 * h + b;
    var q := u / M32;
    assert u == q * M32 + u % M32;
    assert u % M32 + r == (h + (b + r)) + 2 * (16 * h - q * 0x8000_0000);
  }

  /** The window of a block in reach is its padded copy. */
  lemma WindowInReach(quick: seq<byte>, bs: seq<Block>, k: nat, c: seq<byte>, n: nat)
    requires |quick| == QUICK_SIZE && AllSound(bs) && k < |bs| && QUICK_SIZE + BlockOffset(bs, k) < CURSOR_LIMIT
    requires Content(bs[k].bytes) == c && |c| + n == Align16(|c|)
    ensures Windows(quick, bs)[k] == Block(bs[k].guid, c + Fill(n, 0))
  {
  }

  /** A list of four feature blocks and one byte of the second, which is hashed and changes the
      block's hash, but leaves the word the tool stores the same: one running hash is zero and starts
      over, and a block later the other one is. */
  lemma EarlierByteHidden(quick: seq<byte>) returns (bs: seq<Block>)
    requires |quick| == QUICK_SIZE
    ensures Packable(quick, bs) && |bs| == 4 && Changeable(bs, 1, PLACE)
    ensures bs[1].guid == FEATURE_GUID && Hashed(bs[1].bytes, PLACE) && bs[1].bytes[PLACE] != VALUE
    ensures AllSound(Changed(bs, 1, PLACE, VALUE))
    ensures Packable(quick, SealAll(bs)) && Packable(quick, SealAll(Changed(bs, 1, PLACE, VALUE)))
    ensures Get32(PackedImage(quick, SealAll(Changed(bs, 1, PLACE, VALUE))), FEAT_HASH_AT)
            == Get32(PackedImage(quick, SealAll(bs)), FEAT_HASH_AT)
    ensures Merges(Windows(quick, SealAll(bs)), Windows(quick, SealAll(Changed(bs, 1, PLACE, VALUE))), 2, 4)
  {
    LongBlockSealed();
    SealedBlockChecks(LongBlock());
    var s := Content(SealBlock(LongBlock()));
    var g := RunOnto(s, 0);
    CheckedNotZero(s);
    var p := Leading(SEED, g);
    var q := Leading(SEED, SEED);
    bs := FourList(p, q);
    FourPackable(quick, p, q);
    ChangedPackable(quick, bs, 1, PLACE, VALUE);
    FourWindows(quick, p, q, g);
    StoredHash(quick, SealAll(bs));
    StoredHash(quick, SealAll(Changed(bs, 1, PLACE, VALUE)));
    FeatureByteHidden(quick, bs, 1, PLACE, VALUE);
  }

  lemma FourPackable(quick: seq<byte>, p: seq<byte>, q: seq<byte>)
    requires |quick| == QUICK_SIZE && |p| == |q| == 8
    ensures Packable(quick, FourList(p, q)) && Changeable(FourList(p, q), 1, PLACE)
    ensures Hashed(LongBlock(), PLACE) && LongBlock()[PLACE] != VALUE
  {
    ShortBlockCopied(p);
    ShortBlockCopied(q);
    LongBlockSealed();
    FourOffsets(FourList(p, q));
  }

  /** The windows of the sealed list, and of a list that differs in its second block. */
  lemma FourParts(quick: seq<byte>, p: seq<byte>, q: seq<byte>, ds: seq<Block>)
    requires |quick| == QUICK_SIZE && |p| == |q| == 8 && AllSound(ds) && |ds| == 4
    requires Content(ds[0].bytes) == p && Content(ds[2].bytes) == q && Content(ds[3].bytes) == q
    requires |Content(ds[1].bytes)| == LENGTH
    ensures Windows(quick, ds)[0] == Block(ds[0].guid, p + Fill(8, 0))
    ensures Windows(quick, ds)[1] == Block(ds[1].guid, Content(ds[1].bytes))
    ensures Windows(quick, ds)[2] == Block(ds[2].guid, q + Fill(8, 0))
  {
    assert |Content(ds[0].bytes)| == Size(ds[0].bytes) && |Content(ds[1].bytes)| == Size(ds[1].bytes);
    assert |Content(ds[2].bytes)| == Size(ds[2].bytes) && |Content(ds[3].bytes)| == Size(ds[3].bytes);
    FourOffsets(ds);
    AlignIsShift(8);
    AlignIsShift(LENGTH);
    WindowInReach(quick, ds, 0, p, 8);
    WindowInReach(quick, ds, 1, Content(ds[1].bytes), 0);
    WindowInReach(quick, ds, 2, q, 8);
    PlusNothing(Content(ds[1].bytes));
  }

  lemma FourWindows(quick: seq<byte>, p: seq<byte>, q: seq<byte>, g: word)
    requires Sound(LongBlock())
    requires |p| == |q| == 8 && Packable(quick, FourList(p, q)) && Changeable(FourList(p, q), 1, PLACE)
    requires g != 0 && Run(SEED, p + Fill(8, 0)) == g && Run(SEED, q + Fill(8, 0)) == SEED
    requires Run(g, Content(SealBlock(LongBlock()))) == 0
    ensures AllSound(Changed(FourList(p, q), 1, PLACE, VALUE))
    ensures ListHash(Windows(quick, SealAll(FourList(p, q))), 4) ==
            ListHash(Windows(quick, SealAll(Changed(FourList(p, q), 1, PLACE, VALUE))), 4)
  {
    var bs := FourList(p, q);
    ChangedSound(bs, 1, PLACE, VALUE);
    OtherWindows(quick, bs, 1, PLACE, VALUE);
    ShortBlockCopied(p);
    ShortBlockCopied(q);
    var s, t := Content(SealBlock(LongBlock())), Content(SealBlock(LongBlock()[PLACE := VALUE]));
    LongBlockPair(s, t);
    FourParts(quick, p, q, SealAll(bs));
    FourParts(quick, p, q, SealAll(Changed(bs, 1, PLACE, VALUE)));
    MovedFromZero(g, s, t);
    SecondStart(q + Fill(8, 0));
    FourBlocks(Windows(quick, SealAll(bs)), Windows(quick, SealAll(Changed(bs, 1, PLACE, VALUE))), g);
  }

  lemma MovedFromZero(g: word, s: seq<byte>, t: seq<byte>)
    requires |s| == LENGTH && s[CHECKSUM_AT] == 252 && s[PLACE] == 0 && Run(g, s) == 0
    requires t == s[CHECKSUM_AT := 196][PLACE := VALUE]
    ensures Run(g, t) == MOVED
  {
    var k := LongBlockMoves(g, s, CHECKSUM_AT, PLACE);
    ShiftResidue(MOVED, k);
  }
}
