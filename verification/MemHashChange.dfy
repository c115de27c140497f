/** Which single-byte changes of the input list show in the stored hash. */
module MemHashChange {
  import opened Bytes
  import opened DoubleSum
  import opened SumDetection
  import opened ByteCheckSum
  import opened DjbHash
  import opened HashPairs
  import opened MemImage
  import opened MemLayout
  import opened MemTiling
  import opened MemFeatHash
  import opened MemStoredHash

  // ----- one byte of one block -----

  /** Whether byte n of a block shows in the image at all: it is copied, and it is not the checksum
      byte, which the tool overwrites first. */
  predicate Hashed(b: seq<byte>, n: nat)
    requires Sound(b)
  {
    n < Size(b) && n != CHECKSUM_AT
  }

  /** Byte n of the block does not belong to its size. */
  predicate NotSize(n: nat) {
    n != SIZE_AT && n != SIZE_AT + 1
  }

  lemma SizeStays(b: seq<byte>, n: nat, v: byte)
    requires Sound(b) && n < |b| && NotSize(n)
    ensures Sound(b[n := v]) && Size(b[n := v]) == Size(b)
  {
  }

  /** A byte that is not hashed leaves no trace in the sealed and copied part. */
  lemma UnhashedByte(b: seq<byte>, n: nat, v: byte)
    requires Sound(b) && n < |b| && NotSize(n) && !Hashed(b, n)
    ensures Sound(b[n := v]) && Size(b[n := v]) == Size(b)
    ensures Content(SealBlock(b[n := v])) == Content(SealBlock(b))
  {
    SizeStays(b, n, v);
    var z, y := b[CHECKSUM_AT := 0], b[n := v][CHECKSUM_AT := 0];
    assert z[..Size(b)] == y[..Size(b)];
  }

  /** A byte that is hashed, in a block too short to have its checksum copied: only that byte
      of the copied part changes. */
  lemma LoneByte(b: seq<byte>, n: nat, v: byte)
    requires Sound(b) && n < |b| && NotSize(n) && Hashed(b, n) && Size(b) <= CHECKSUM_AT
    ensures Sound(b[n := v]) && Size(b[n := v]) == Size(b)
    ensures Content(SealBlock(b))[n] == b[n]
    ensures Content(SealBlock(b[n := v])) == Content(SealBlock(b))[n := v]
  {
    SizeStays(b, n, v);
  }

  lemma SealedContent(b: seq<byte>)
    requires Sound(b) && CHECKSUM_AT < Size(b)
    ensures var z := b[CHECKSUM_AT := 0][..Size(b)];
            Content(SealBlock(b)) == z[CHECKSUM_AT := Complement(z)]
  {
  }

  lemma ChangedContent(b: seq<byte>, n: nat, v: byte)
    requires Sound(b) && n < |b| && NotSize(n) && Hashed(b, n) && CHECKSUM_AT < Size(b)
    ensures Sound(b[n := v]) && Size(b[n := v]) == Size(b)
    ensures var w: seq<byte> := b[CHECKSUM_AT := 0][..Size(b)][n := v];
            Content(SealBlock(b[n := v])) == w[CHECKSUM_AT := Complement(w)]
  {
    SizeStays(b, n, v);
    SealedContent(b[n := v]);
    assert b[n := v][CHECKSUM_AT := 0][..Size(b)] == b[CHECKSUM_AT := 0][..Size(b)][n := v];
  }

  /** In any other block the checksum byte moves with it, and the two moves cancel modulo 256. */
  lemma MovedTogether(b: seq<byte>, n: nat, v: byte) returns (y: byte)
    requires Sound(b) && n < |b| && NotSize(n) && Hashed(b, n) && CHECKSUM_AT < Size(b)
    ensures Sound(b[n := v]) && Size(b[n := v]) == Size(b)
    ensures var s := Content(SealBlock(b));
            && s[n] == b[n]
            && Content(SealBlock(b[n := v])) == s[n := v][CHECKSUM_AT := y]
            && ((v as int - b[n]) + (y as int - s[CHECKSUM_AT])) % 0x100 == 0
  {
    var z := b[CHECKSUM_AT := 0][..Size(b)];
    var w: seq<byte> := z[n := v];
    y := Complement(w);
    SealedContent(b);
    ChangedContent(b, n, v);
    var s: seq<byte> := Content(SealBlock(b));
    assert w[CHECKSUM_AT := y] == s[n := v][CHECKSUM_AT := y];
    OneWordChange(z, n, v);
    ComplementMoves(Sum(z), v as int - b[n]);
  }

  lemma ComplementMoves(a: int, d: int)
    ensures (d + ((0xFF - (a + d) % 0x100) - (0xFF - a % 0x100))) % 0x100 == 0
  {
    var p, q := a / 0x100, (a + d) / 0x100;
    assert a == 0x100 * p + a % 0x100 && a + d == 0x100 * q + (a + d) % 0x100;
    assert d + ((0xFF - (a + d) % 0x100) - (0xFF - a % 0x100)) == 0x100 * (q - p);
  }

  /** A hashed byte and the checksum byte that moves with it never cancel in the hash. */
  lemma PairShows(h: word, s: seq<byte>, n: nat, v: byte, y: byte)
    requires n < |s| && n < 0x1_0000 && CHECKSUM_AT < |s| && n != CHECKSUM_AT && v != s[n]
    requires ((v as int - s[n]) + (y as int - s[CHECKSUM_AT])) % 0x100 == 0
    ensures Run(h, s[n := v][CHECKSUM_AT := y]) != Run(h, s)
  {
    var d, e := v as int - s[n], y as int - s[CHECKSUM_AT];
    MovesBoth(d, e);
    if n < CHECKSUM_AT {
      TwoBytesCollide(h, s, n, CHECKSUM_AT, v, y);
      NeverCancel(CHECKSUM_AT - n, d, e);
    } else {
      assert s[n := v][CHECKSUM_AT := y] == s[CHECKSUM_AT := y][n := v];
      TwoBytesCollide(h, s, CHECKSUM_AT, n, y, v);
      NeverCancel(n - CHECKSUM_AT, e, d);
    }
  }

  lemma MovesBoth(d: int, e: int)
    requires d != 0 && -0x100 < d < 0x100 && (d + e) % 0x100 == 0
    ensures e != 0
  {
  }

  /** So every change of a hashed byte changes the hash of the sealed block, from any start. */
  lemma HashedByteShows(h: word, b: seq<byte>, n: nat, v: byte)
    requires Sound(b) && n < |b| && NotSize(n) && Hashed(b, n) && v != b[n]
    ensures Sound(b[n := v])
    ensures Run(h, Content(SealBlock(b[n := v]))) != Run(h, Content(SealBlock(b)))
  {
    if Size(b) <= CHECKSUM_AT {
      LoneByte(b, n, v);
      ByteSensitive(h, Content(SealBlock(b)), n, v);
    } else {
      var y := MovedTogether(b, n, v);
      PairShows(h, Content(SealBlock(b)), n, v, y);
    }
  }

  /** And still does when the same bytes follow. */
  lemma ShowsBefore(h: word, x: seq<byte>, y: seq<byte>, tail: seq<byte>)
    requires Run(h, x) != Run(h, y)
    ensures Run(h, x + tail) != Run(h, y + tail)
  {
    RunAppend(h, x, tail);
    RunAppend(h, y, tail);
    RunInjective(Run(h, x), Run(h, y), tail);
  }

  // ----- one byte of the list -----

  /** The list with byte n of block j changed to v. */
  function Changed(bs: seq<Block>, j: nat, n: nat, v: byte): seq<Block>
    requires j < |bs| && n < |bs[j].bytes|
  {
    bs[j := Block(bs[j].guid, bs[j].bytes[n := v])]
  }

  /** What every statement about a changed byte of the input list asks for. */
  ghost predicate Changeable(bs: seq<Block>, j: nat, n: nat) {
    AllSound(bs) && j < |bs| && n < |bs[j].bytes| && NotSize(n)
  }

  lemma ChangedSound(bs: seq<Block>, j: nat, n: nat, v: byte)
    requires Changeable(bs, j, n)
    ensures AllSound(Changed(bs, j, n, v)) && SameShape(bs, Changed(bs, j, n, v))
  {
    SizeStays(bs[j].bytes, n, v);
  }

  lemma ChangedPackable(quick: seq<byte>, bs: seq<Block>, j: nat, n: nat, v: byte)
    requires Changeable(bs, j, n) && Packable(quick, bs)
    ensures AllSound(Changed(bs, j, n, v))
    ensures Packable(quick, SealAll(bs)) && Packable(quick, SealAll(Changed(bs, j, n, v)))
  {
    ChangedSound(bs, j, n, v);
    SealTable(bs);
    ShapeTable(bs, Changed(bs, j, n, v));
    SealTable(Changed(bs, j, n, v));
  }

  lemma UnhashedContents(bs: seq<Block>, j: nat, n: nat, v: byte)
    requires Changeable(bs, j, n) && !Hashed(bs[j].bytes, n)
    ensures AllSound(Changed(bs, j, n, v))
    ensures SameContents(SealAll(bs), SealAll(Changed(bs, j, n, v)))
  {
    ChangedSound(bs, j, n, v);
    UnhashedByte(bs[j].bytes, n, v);
  }

  /** A byte that is not hashed shows nowhere: the tool writes the identical image. */
  lemma UnhashedChange(quick: seq<byte>, bs: seq<Block>, j: nat, n: nat, v: byte)
    requires Changeable(bs, j, n) && !Hashed(bs[j].bytes, n) && Packable(quick, bs)
    ensures AllSound(Changed(bs, j, n, v))
    ensures Packable(quick, SealAll(bs)) && Packable(quick, SealAll(Changed(bs, j, n, v)))
    ensures PackedImage(quick, SealAll(Changed(bs, j, n, v))) == PackedImage(quick, SealAll(bs))
  {
    ChangedPackable(quick, bs, j, n, v);
    UnhashedContents(bs, j, n, v);
    SameContentsSameImage(quick, SealAll(bs), SealAll(Changed(bs, j, n, v)));
  }

  // ----- the stored hash -----

  lemma TailOfShape(quick: seq<byte>, bs: seq<Block>, cs: seq<Block>, k: nat)
    requires |quick| == QUICK_SIZE && AllSound(bs) && AllSound(cs) && SameShape(bs, cs) && k < |bs|
    ensures Tail(quick, bs, k) == Tail(quick, cs, k)
  {
    ShapeOffsets(bs, cs, k);
  }

  lemma SealedShape(bs: seq<Block>, cs: seq<Block>)
    requires AllSound(bs) && AllSound(cs) && SameShape(bs, cs)
    ensures SameShape(SealAll(bs), SealAll(cs))
  {
  }

  /** What is hashed differs in the changed block only. */
  lemma OtherWindows(quick: seq<byte>, bs: seq<Block>, j: nat, n: nat, v: byte)
    requires Changeable(bs, j, n) && |quick| == QUICK_SIZE
    ensures AllSound(Changed(bs, j, n, v))
    ensures SameBut(Windows(quick, SealAll(bs)), Windows(quick, SealAll(Changed(bs, j, n, v))), j)
  {
    var cs := Changed(bs, j, n, v);
    ChangedSound(bs, j, n, v);
    SealedShape(bs, cs);
    var ds, es := SealAll(bs), SealAll(cs);
    forall k | 0 <= k < |bs| && k != j
      ensures Windows(quick, ds)[k] == Windows(quick, es)[k]
    {
      TailOfShape(quick, ds, es, k);
      assert ds[k] == es[k];
    }
  }

  /** The changed block itself hashes differently, from any start. */
  lemma ChangedWindow(quick: seq<byte>, bs: seq<Block>, j: nat, n: nat, v: byte, h: word)
    requires Changeable(bs, j, n) && |quick| == QUICK_SIZE && Hashed(bs[j].bytes, n) && v != bs[j].bytes[n]
    ensures AllSound(Changed(bs, j, n, v))
    ensures Run(h, Windows(quick, SealAll(bs))[j].bytes)
            != Run(h, Windows(quick, SealAll(Changed(bs, j, n, v)))[j].bytes)
  {
    var cs := Changed(bs, j, n, v);
    ChangedSound(bs, j, n, v);
    SealedShape(bs, cs);
    TailOfShape(quick, SealAll(bs), SealAll(cs), j);
    HashedByteShows(h, bs[j].bytes, n, v);
    ShowsBefore(h, Content(SealBlock(bs[j].bytes)), Content(SealBlock(cs[j].bytes)), Tail(quick, SealAll(bs), j));
  }

  /** Exactly when a changed byte of a feature block leaves the stored hash alone, for every list the
      tool packs: it is not hashed, or a later feature block confuses the two running hashes. */
  lemma FeatureByteHidden(quick: seq<byte>, bs: seq<Block>, j: nat, n: nat, v: byte)
    requires Packable(quick, bs) && Changeable(bs, j, n) && bs[j].guid == FEATURE_GUID && v != bs[j].bytes[n]
    ensures AllSound(Changed(bs, j, n, v))
    ensures Packable(quick, SealAll(bs)) && Packable(quick, SealAll(Changed(bs, j, n, v)))
    ensures Get32(PackedImage(quick, SealAll(bs)), FEAT_HASH_AT)
            == Get32(PackedImage(quick, SealAll(Changed(bs, j, n, v))), FEAT_HASH_AT) <==>
            || !Hashed(bs[j].bytes, n)
            || Merges(Windows(quick, SealAll(bs)), Windows(quick, SealAll(Changed(bs, j, n, v))), j + 1, |bs|)
  {
    ChangedPackable(quick, bs, j, n, v);
    if Hashed(bs[j].bytes, n) {
      HashedChange(quick, bs, j, n, v);
    } else {
      UnhashedChange(quick, bs, j, n, v);
    }
  }

  lemma HashedChange(quick: seq<byte>, bs: seq<Block>, j: nat, n: nat, v: byte)
    requires Packable(quick, bs) && Changeable(bs, j, n) && bs[j].guid == FEATURE_GUID && v != bs[j].bytes[n]
    requires Hashed(bs[j].bytes, n)
    ensures AllSound(Changed(bs, j, n, v))
    ensures Packable(quick, SealAll(bs)) && Packable(quick, SealAll(Changed(bs, j, n, v)))
    ensures Get32(PackedImage(quick, SealAll(bs)), FEAT_HASH_AT)
            == Get32(PackedImage(quick, SealAll(Changed(bs, j, n, v))), FEAT_HASH_AT) <==>
            Merges(Windows(quick, SealAll(bs)), Windows(quick, SealAll(Changed(bs, j, n, v))), j + 1, |bs|)
  {
    ChangedPackable(quick, bs, j, n, v);
    var ds, es := SealAll(bs), SealAll(Changed(bs, j, n, v));
    StoredHash(quick, ds);
    StoredHash(quick, es);
    OtherWindows(quick, bs, j, n, v);
    ChangedWindow(quick, bs, j, n, v, Restart(ListHash(Windows(quick, ds), j)));
    DifferenceEnds(Windows(quick, ds), Windows(quick, es), j);
  }

  /** The hash the tool stores, for the last feature block of any list it packs: a changed byte shows
      in it if and only if it is one the tool hashes, that is, any byte below the block's size
      other than the checksum byte. Bytes of the size field are not considered. */
  lemma LastFeatureSensitive(quick: seq<byte>, bs: seq<Block>, j: nat, n: nat, v: byte)
    requires Packable(quick, bs) && Changeable(bs, j, n) && v != bs[j].bytes[n]
    requires bs[j].guid == FEATURE_GUID && NoFeature(bs, j + 1, |bs|)
    ensures AllSound(Changed(bs, j, n, v))
    ensures Packable(quick, SealAll(bs)) && Packable(quick, SealAll(Changed(bs, j, n, v)))
    ensures Get32(PackedImage(quick, SealAll(Changed(bs, j, n, v))), FEAT_HASH_AT)
            != Get32(PackedImage(quick, SealAll(bs)), FEAT_HASH_AT)
            <==> Hashed(bs[j].bytes, n)
  {
    ChangedPackable(quick, bs, j, n, v);
    NothingMerges(quick, bs, Changed(bs, j, n, v), j + 1);
    FeatureByteHidden(quick, bs, j, n, v);
  }

  lemma NothingMerges(quick: seq<byte>, bs: seq<Block>, cs: seq<Block>, j: nat)
    requires |quick| == QUICK_SIZE && AllSound(bs) && AllSound(cs) && |bs| == |cs|
    requires j <= |bs| && NoFeature(bs, j, |bs|)
    ensures !Merges(Windows(quick, SealAll(bs)), Windows(quick, SealAll(cs)), j, |bs|)
  {
    var ws := Windows(quick, SealAll(bs));
    forall k | 0 <= k < |bs|
      ensures ws[k].guid == bs[k].guid
    {
      assert SealAll(bs)[k].guid == bs[k].guid;
    }
  }
}
