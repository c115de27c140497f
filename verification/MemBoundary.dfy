/** The exact boundary of what the packer writes and a reader finds, for blocks of any size. */
module MemBoundary {
  import opened Bytes
  import opened ByteCheckSum
  import opened MemImage
  import opened MemLayout
  import opened MemTiling
  import opened MemRoundTrip

  /** The caller's side of the boundary: the total is 65520 and the last block is no longer
      than a bare header. */
  predicate ShortBlockAtTheEnd(bs: seq<Block>)
    requires AllSound(bs)
  {
    bs != [] && TotalSize(bs) == CURSOR_LIMIT - 16 && Size(bs[|bs| - 1].bytes) <= 16
  }

  // ----- what is in the image -----

  /** Header and table are in place, and the length is right. */
  ghost predicate Fronted(img: seq<byte>, bs: seq<Block>)
    requires AllSound(bs) && |bs| < 0x100 && TotalSize(bs) < CURSOR_LIMIT
  {
    && |img| == QUICK_SIZE + TotalSize(bs)
    && HeaderIn(img, |bs|, TotalSize(bs)) && TableIn(img, QUICK_SIZE + HEADER_SIZE, bs)
  }

  /** The first m blocks are in place. */
  ghost predicate RegionsIn(img: seq<byte>, bs: seq<Block>, m: nat)
    requires AllSound(bs) && m <= |bs|
  {
    forall k :: 0 <= k < m ==> RegionIn(img, BlockOffset(bs, k), bs[k].bytes)
  }

  ghost predicate ZeroFrom(img: seq<byte>, at: nat) {
    forall i :: at <= i < |img| ==> img[i] == 0
  }

  /** The image holds header, table, the first m blocks, and zeros at the places of the others. */
  ghost predicate Found(img: seq<byte>, bs: seq<Block>, m: nat)
    requires AllSound(bs) && |bs| < 0x100 && TotalSize(bs) < CURSOR_LIMIT && m <= |bs|
  {
    Fronted(img, bs) && RegionsIn(img, bs, m) && ZeroFrom(img, QUICK_SIZE + BlockOffset(bs, m))
  }

  lemma SlicesFrom16(s: seq<byte>, t: seq<byte>, a: nat, b: nat)
    requires SameFrom16(s, t) && 16 <= a <= b <= |s|
    ensures s[a..b] == t[a..b]
  {
    var x, y := s[a..b], t[a..b];
    forall i | 0 <= i < |x|
      ensures x[i] == y[i]
    {
    }
  }

  lemma FrontOfUpto(quick: seq<byte>, bs: seq<Block>, m: nat)
    requires Packable(quick, bs) && m <= |bs|
    ensures HeaderIn(Upto(quick, bs, m), |bs|, TotalSize(bs))
    ensures TableIn(Upto(quick, bs, m), QUICK_SIZE + HEADER_SIZE, bs)
  {
    OffsetsGrow(bs, m, |bs|);
    HeaderLength(|bs|, TotalSize(bs));
    var body, rest := Body(bs, m), Fill(TotalSize(bs) - BlockOffset(bs, m), 0);
    ThreeParts(quick, Header(|bs|, TotalSize(bs)), Table(bs), body + rest);
    ConcatAssociates(Front(quick, bs), body, rest);
  }

  lemma RegionWithin(part: seq<byte>, rest: seq<byte>, b: seq<byte>, offset: nat)
    requires Sound(b) && RegionIn(part, offset, b)
    ensures RegionIn(part + rest, offset, b)
  {
    var at := QUICK_SIZE + offset;
    SliceOfFirst(part, rest, at, at + Align16(Size(b)));
  }

  lemma BlockOfUpto(quick: seq<byte>, bs: seq<Block>, m: nat, k: nat)
    requires Packable(quick, bs) && k < m <= |bs|
    ensures RegionIn(Upto(quick, bs, m), BlockOffset(bs, k), bs[k].bytes)
  {
    OffsetsGrow(bs, m, |bs|);
    FrontLength(quick, bs);
    BodyLength(bs, k);
    var after := BodySplit(bs, m, k);
    RegionAt(Before(quick, bs, m), Front(quick, bs), Body(bs, k), bs[k].bytes, after, BlockOffset(bs, k));
    RegionWithin(Before(quick, bs, m), Fill(TotalSize(bs) - BlockOffset(bs, m), 0), bs[k].bytes, BlockOffset(bs, k));
  }

  lemma ZerosOfUpto(quick: seq<byte>, bs: seq<Block>, m: nat)
    requires Packable(quick, bs) && m <= |bs|
    ensures ZeroFrom(Upto(quick, bs, m), QUICK_SIZE + BlockOffset(bs, m))
  {
    OffsetsGrow(bs, m, |bs|);
  }

  /** Whatever the sizes, the written image holds the front, the blocks the cursor reaches, and zeros. */
  lemma PackedFound(quick: seq<byte>, bs: seq<Block>, m: nat)
    requires Packable(quick, bs) && ReachedTo(bs, m)
    ensures Found(PackedImage(quick, bs), bs, m)
  {
    PackedFrom16(quick, bs, m);
    FoundFrom16(quick, bs, m, PackedImage(quick, bs));
  }

  lemma FoundFrom16(quick: seq<byte>, bs: seq<Block>, m: nat, img: seq<byte>)
    requires Packable(quick, bs) && m <= |bs| && SameFrom16(img, Upto(quick, bs, m))
    ensures Found(img, bs, m)
  {
    var u := Upto(quick, bs, m);
    FrontOfUpto(quick, bs, m);
    SlicesFrom16(img, u, QUICK_SIZE, QUICK_SIZE + HEADER_SIZE);
    SlicesFrom16(img, u, QUICK_SIZE + HEADER_SIZE, QUICK_SIZE + HEADER_SIZE + TableSize(|bs|));
    assert Fronted(img, bs);
    forall k | 0 <= k < m
      ensures RegionIn(img, BlockOffset(bs, k), bs[k].bytes)
    {
      BlockOfUpto(quick, bs, m, k);
      RegionFrom16(img, u, BlockOffset(bs, k), bs[k].bytes);
    }
    ZerosOfUpto(quick, bs, m);
    ZerosFrom16(img, u, QUICK_SIZE + BlockOffset(bs, m));
  }

  lemma RegionFrom16(img: seq<byte>, u: seq<byte>, offset: nat, b: seq<byte>)
    requires SameFrom16(img, u) && Sound(b) && RegionIn(u, offset, b)
    ensures RegionIn(img, offset, b)
  {
    SlicesFrom16(img, u, QUICK_SIZE + offset, QUICK_SIZE + offset + Align16(Size(b)));
  }

  lemma ZerosFrom16(img: seq<byte>, u: seq<byte>, at: nat)
    requires SameFrom16(img, u) && 16 <= at && ZeroFrom(u, at)
    ensures ZeroFrom(img, at)
  {
  }

  // ----- what a reader finds in it -----

  /** The size found at the place of a block the cursor reaches. */
  lemma SizeReached(img: seq<byte>, bs: seq<Block>, m: nat, k: nat)
    requires AllSound(bs) && m <= |bs| && RegionsIn(img, bs, m)
    requires k < m && 0 < Size(bs[k].bytes)
    ensures SizeRead(img, BlockOffset(bs, k), if SIZE_AT < Size(bs[k].bytes) then Size(bs[k].bytes) else 0)
  {
    assert RegionIn(img, BlockOffset(bs, k), bs[k].bytes);
    FoundSize(img, BlockOffset(bs, k), bs[k].bytes);
  }

  /** No size is found at the place of any other one. */
  lemma SizeUnreached(img: seq<byte>, bs: seq<Block>, m: nat, k: nat)
    requires AllSound(bs) && m <= k < |bs| && 0 < Size(bs[k].bytes)
    requires |img| == QUICK_SIZE + TotalSize(bs) && ZeroFrom(img, QUICK_SIZE + BlockOffset(bs, m))
    ensures SizeRead(img, BlockOffset(bs, k), 0)
  {
    OffsetsGrow(bs, k, |bs|);
    OffsetsGrow(bs, m, k);
    ZeroSize(img, QUICK_SIZE + BlockOffset(bs, m), BlockOffset(bs, k));
  }

  lemma ZeroSize(img: seq<byte>, from: nat, offset: nat)
    requires from <= QUICK_SIZE + offset && QUICK_SIZE + offset + BLOCK_HEADER_SIZE <= |img| && ZeroFrom(img, from)
    ensures SizeRead(img, offset, 0)
  {
    var at := QUICK_SIZE + offset + SIZE_AT;
    assert img[at] == 0 && img[at + 1] == 0;
  }

  lemma ReadLength(img: seq<byte>, table: nat, k: nat)
    requires ReadBlocks(img).Some? && k < |ReadBlocks(img).value|
    requires table == QUICK_SIZE + HEADER_SIZE && Get16(img, QUICK_SIZE + 12) == HEADER_SIZE
    ensures EntryReadable(img, table, k)
    ensures ReadBlocks(img).value[k] == ReadEntry(img, table, k)
  {
  }

  lemma EntryLength(img: seq<byte>, table: nat, i: nat, guid: half, offset: half)
    requires EntryReadable(img, table, i) && RowGives(img, table, i, guid, offset)
    ensures SizeRead(img, offset, |ReadEntry(img, table, i).bytes|)
  {
  }

  /** Where another size is found than a block should have, or none, that block is not read. */
  lemma WrongSize(img: seq<byte>, table: nat, k: nat, guid: half, offset: half, rs: seq<Block>)
    requires table == QUICK_SIZE + HEADER_SIZE && QUICK_SIZE + 14 <= |img| && Get16(img, QUICK_SIZE + 12) == HEADER_SIZE
    requires RowGives(img, table, k, guid, offset)
    requires k < |rs| && !SizeRead(img, offset, |rs[k].bytes|)
    ensures ReadBlocks(img) != Some(rs)
  {
    if ReadBlocks(img) == Some(rs) {
      ReadLength(img, table, k);
      EntryLength(img, table, k, guid, offset);
    }
  }

  /** An entry that points behind the image, or where another size is found, spoils the reading. */
  lemma Misread(img: seq<byte>, bs: seq<Block>, k: nat)
    requires AllSound(bs) && |bs| < 0x100 && TotalSize(bs) < CURSOR_LIMIT && k < |bs| && Fronted(img, bs)
    requires !SizeRead(img, BlockOffset(bs, k), Size(bs[k].bytes))
    ensures ReadBlocks(img) != Some(Contents(bs))
  {
    var table, rs := QUICK_SIZE + HEADER_SIZE, Contents(bs);
    HeaderReads(img, |bs|, TotalSize(bs));
    RowReads(img, table, bs, k);
    assert |rs[k].bytes| == Size(bs[k].bytes);
    WrongSize(img, table, k, bs[k].guid, BlockOffset(bs, k), rs);
  }

  lemma LastUnmeasured(bs: seq<Block>) returns (k: nat, j: nat)
    requires AllSound(bs) && !AllMeasured(bs)
    ensures j == k + 1 <= |bs| && Size(bs[k].bytes) <= SIZE_AT
    ensures j < |bs| ==> SIZE_AT < Size(bs[j].bytes)
  {
    j := |bs|;
    while j > 0 && SIZE_AT < Size(bs[j - 1].bytes)
      invariant j <= |bs| && forall i :: j <= i < |bs| ==> SIZE_AT < Size(bs[i].bytes)
    {
      j := j - 1;
    }
    k := j - 1;
  }

  lemma OneSize(img: seq<byte>, offset: nat, n: nat, m: nat)
    requires SizeRead(img, offset, n) && n != m
    ensures !SizeRead(img, offset, m)
  {
  }

  /** An empty block is read with the header of the block behind it. */
  lemma EmptyBefore(img: seq<byte>, bs: seq<Block>, k: nat, j: nat, n: nat)
    requires AllSound(bs) && |bs| < 0x100 && TotalSize(bs) < CURSOR_LIMIT && Fronted(img, bs)
    requires j == k + 1 < |bs| && Size(bs[k].bytes) == 0 && n > 0 && SizeRead(img, BlockOffset(bs, j), n)
    ensures ReadBlocks(img) != Some(Contents(bs))
  {
    EmptyOffset(bs, k);
    OneSize(img, BlockOffset(bs, j), n, 0);
    Misread(img, bs, k);
  }

  /** An empty block at the end is looked for behind the image. */
  lemma EmptyAtEnd(img: seq<byte>, bs: seq<Block>, k: nat)
    requires AllSound(bs) && |bs| < 0x100 && TotalSize(bs) < CURSOR_LIMIT && Fronted(img, bs)
    requires k + 1 == |bs| && Size(bs[k].bytes) == 0
    ensures ReadBlocks(img) != Some(Contents(bs))
  {
    EmptyOffset(bs, k);
    BehindImage(img, TotalSize(bs), 0);
    Misread(img, bs, k);
  }

  lemma BehindImage(img: seq<byte>, offset: nat, n: nat)
    requires |img| == QUICK_SIZE + offset
    ensures !SizeRead(img, offset, n)
  {
  }

  lemma EmptyOffset(bs: seq<Block>, k: nat)
    requires AllSound(bs) && k < |bs| && Size(bs[k].bytes) == 0
    ensures BlockOffset(bs, k + 1) == BlockOffset(bs, k)
  {
    assert Align16(0) == 0;
  }

  /** A nonempty block out of the cursor's reach is read back as empty. */
  lemma UnreachedMisread(img: seq<byte>, bs: seq<Block>, m: nat, k: nat)
    requires AllSound(bs) && |bs| < 0x100 && TotalSize(bs) < CURSOR_LIMIT && m <= |bs| && Found(img, bs, m)
    requires m <= k < |bs| && 0 < Size(bs[k].bytes)
    ensures ReadBlocks(img) != Some(Contents(bs))
  {
    SizeUnreached(img, bs, m, k);
    OneSize(img, BlockOffset(bs, k), 0, Size(bs[k].bytes));
    Misread(img, bs, k);
  }

  /** So is one whose copied part ends before its size. */
  lemma TinyMisread(img: seq<byte>, bs: seq<Block>, m: nat, k: nat)
    requires AllSound(bs) && |bs| < 0x100 && TotalSize(bs) < CURSOR_LIMIT && m <= |bs| && Found(img, bs, m)
    requires k < m && 0 < Size(bs[k].bytes) <= SIZE_AT
    ensures ReadBlocks(img) != Some(Contents(bs))
  {
    SizeReached(img, bs, m, k);
    OneSize(img, BlockOffset(bs, k), 0, Size(bs[k].bytes));
    Misread(img, bs, k);
  }

  /** An empty block misleads the reader in any case. */
  lemma EmptyMisread(img: seq<byte>, bs: seq<Block>, m: nat, k: nat, j: nat)
    requires AllSound(bs) && |bs| < 0x100 && TotalSize(bs) < CURSOR_LIMIT && m <= |bs| && Found(img, bs, m)
    requires j == k + 1 <= |bs| && Size(bs[k].bytes) == 0
    requires j < |bs| ==> SIZE_AT < Size(bs[j].bytes)
    ensures ReadBlocks(img) != Some(Contents(bs))
  {
    if j == |bs| {
      EmptyAtEnd(img, bs, k);
    } else if j < m {
      SizeReached(img, bs, m, j);
      EmptyBefore(img, bs, k, j, Size(bs[j].bytes));
    } else {
      UnreachedMisread(img, bs, m, j);
    }
  }

  lemma ShortMisread(img: seq<byte>, bs: seq<Block>, m: nat, k: nat, j: nat)
    requires AllSound(bs) && |bs| < 0x100 && TotalSize(bs) < CURSOR_LIMIT && m <= |bs| && Found(img, bs, m)
    requires j == k + 1 <= |bs| && Size(bs[k].bytes) <= SIZE_AT
    requires j < |bs| ==> SIZE_AT < Size(bs[j].bytes)
    ensures ReadBlocks(img) != Some(Contents(bs))
  {
    if Size(bs[k].bytes) == 0 {
      EmptyMisread(img, bs, m, k, j);
    } else if k < m {
      TinyMisread(img, bs, m, k);
    } else {
      UnreachedMisread(img, bs, m, k);
    }
  }

  /** With a block whose copied part ends before its size, the image does not read back. */
  lemma UnmeasuredMisread(img: seq<byte>, bs: seq<Block>, m: nat)
    requires AllSound(bs) && |bs| < 0x100 && TotalSize(bs) < CURSOR_LIMIT && m <= |bs| && Found(img, bs, m)
    requires !AllMeasured(bs)
    ensures ReadBlocks(img) != Some(Contents(bs))
  {
    var k, j := LastUnmeasured(bs);
    ShortMisread(img, bs, m, k, j);
  }

  // ----- the boundary of the copying cursor -----

  /** In terms of what the table says: everything is in reach unless the total is 65520 and the
      last block is no longer than a bare header. */
  lemma ReachCondition(bs: seq<Block>)
    requires AllMeasured(bs) && TotalSize(bs) < CURSOR_LIMIT && |bs| < 0x100
    ensures CursorReaches(bs, |bs|) <==> !ShortBlockAtTheEnd(bs)
  {
    if !CursorReaches(bs, |bs|) {
      var k :| 0 <= k < |bs| && QUICK_SIZE + BlockOffset(bs, k) >= CURSOR_LIMIT;
      OutOfReach(bs, k);
    } else if bs != [] {
      assert QUICK_SIZE + BlockOffset(bs, |bs| - 1) < CURSOR_LIMIT;
    }
  }

  lemma StartWrite(s: seq<byte>, d: seq<byte>, h: seq<byte>, i: nat)
    requires |d| <= |s| && |h| == 4 && 16 <= |s| && i < FEAT_HASH_AT && i < |d|
    ensures Splice(Splice(s, 0, d), FEAT_HASH_AT, h)[i] == d[i]
  {
  }

  lemma CopiedOver(p: Pass, b: Block, q: Pass, i: nat)
    requires Next(p, b, q) && p.cursor == 0 && i < FEAT_HASH_AT && i < Size(b.bytes) && 16 <= |p.buf|
    ensures Splice(q.buf, FEAT_HASH_AT, Le32(q.hash))[i] == b.bytes[i]
  {
    StartWrite(p.buf, Content(b.bytes), Le32(q.hash), i);
  }

  lemma WrappedOver(quick: seq<byte>, bs: seq<Block>, k: nat, i: nat)
    requires Packable(quick, bs) && k == |bs| - 1 && QUICK_SIZE + BlockOffset(bs, k) == CURSOR_LIMIT
    requires i < FEAT_HASH_AT && i < Size(bs[k].bytes)
    ensures PackedImage(quick, bs)[i] == bs[k].bytes[i]
  {
    CursorFits(quick, bs, k);
    CopiedOver(Copied(quick, bs, k), bs[k], Copied(quick, bs, |bs|), i);
  }

  /** A block out of reach is written over the quick config, and its own place stays zero. */
  lemma WrappedBlockLost(quick: seq<byte>, bs: seq<Block>, k: nat)
    requires Packable(quick, bs) && AllMeasured(bs)
    requires k < |bs| && QUICK_SIZE + BlockOffset(bs, k) >= CURSOR_LIMIT
    ensures forall i :: 0 <= i < FEAT_HASH_AT && i < Size(bs[k].bytes) ==>
              PackedImage(quick, bs)[i] == bs[k].bytes[i]
    ensures ZeroFrom(PackedImage(quick, bs), QUICK_SIZE + BlockOffset(bs, k))
    ensures PackedImage(quick, bs) != TiledImage(quick, bs)
  {
    OutOfReach(bs, k);
    PackedFound(quick, bs, k);
    UnreachedMisread(PackedImage(quick, bs), bs, k, k);
    TiledRoundTrip(quick, bs);
    forall i | 0 <= i < FEAT_HASH_AT && i < Size(bs[k].bytes)
      ensures PackedImage(quick, bs)[i] == bs[k].bytes[i]
    {
      WrappedOver(quick, bs, k, i);
    }
  }

  /** The exact boundary: the tool writes the intended image if and only if its 16-bit copying
      cursor reaches every block. */
  lemma PackedIffReached(quick: seq<byte>, bs: seq<Block>)
    requires Packable(quick, bs) && AllMeasured(bs)
    ensures PackedImage(quick, bs) == TiledImage(quick, bs) <==> CursorReaches(bs, |bs|)
  {
    if CursorReaches(bs, |bs|) {
      PackedTiles(quick, bs);
    } else {
      var k :| 0 <= k < |bs| && QUICK_SIZE + BlockOffset(bs, k) >= CURSOR_LIMIT;
      WrappedBlockLost(quick, bs, k);
    }
  }

  // ----- the round trip -----

  /** The exact round trip, for blocks of any size: the image the tool writes reads back as the
      ids and the copied bytes of all blocks if and only if every block's copied part takes in its
      size and the copying cursor reaches every block. */
  lemma RoundTripIff(quick: seq<byte>, bs: seq<Block>)
    requires Packable(quick, bs)
    ensures ReadBlocks(PackedImage(quick, bs)) == Some(Contents(bs)) <==> AllMeasured(bs) && !ShortBlockAtTheEnd(bs)
  {
    var m := FirstUnreached(bs);
    PackedFound(quick, bs, m);
    if !AllMeasured(bs) {
      UnmeasuredMisread(PackedImage(quick, bs), bs, m);
    } else {
      ReachCondition(bs);
      if m == |bs| {
        PackedTiles(quick, bs);
        TiledRoundTrip(quick, bs);
      } else {
        UnreachedMisread(PackedImage(quick, bs), bs, m, m);
      }
    }
  }

  lemma ShapeKeepsBoundary(bs: seq<Block>, cs: seq<Block>)
    requires AllSound(bs) && AllSound(cs) && SameShape(bs, cs)
    ensures AllMeasured(cs) <==> AllMeasured(bs)
    ensures TotalSize(cs) == TotalSize(bs)
    ensures ShortBlockAtTheEnd(cs) <==> ShortBlockAtTheEnd(bs)
  {
    ShapeOffsets(bs, cs, |bs|);
    assert forall i :: 0 <= i < |bs| ==> Size(cs[i].bytes) == Size(bs[i].bytes);
  }

  /** The packer's main result, about any input list whose table offsets fit 16 bits: the image reads
      back as the ids and the checksum-filled bytes of all blocks, in order, if and only if every
      size is at least 9 and the last block is not out of the copying cursor's reach. */
  lemma PackReadsBack(quick: seq<byte>, bs: seq<Block>)
    requires |quick| == QUICK_SIZE && AllSound(bs) && |bs| < 0x100 && TotalSize(bs) < CURSOR_LIMIT
    ensures Packable(quick, SealAll(bs))
    ensures ReadBlocks(PackedImage(quick, SealAll(bs))) == Some(Contents(SealAll(bs))) <==>
            AllMeasured(bs) && !ShortBlockAtTheEnd(bs)
  {
    SealShape(bs);
    ShapeKeepsBoundary(bs, SealAll(bs));
    RoundTripIff(quick, SealAll(bs));
  }

  /** At the place of a block out of reach nothing checks out. */
  lemma LostBlockFails(quick: seq<byte>, bs: seq<Block>, k: nat)
    requires Packable(quick, bs) && AllMeasured(bs)
    requires k < |bs| && QUICK_SIZE + BlockOffset(bs, k) >= CURSOR_LIMIT
    ensures !ChecksHold(PackedImage(quick, bs), bs)
  {
    OutOfReach(bs, k);
    PackedFound(quick, bs, k);
    OffsetsGrow(bs, k, |bs|);
    ZerosFail(PackedImage(quick, bs), QUICK_SIZE + BlockOffset(bs, k), Size(bs[k].bytes));
    assert !BlockSliceChecks(PackedImage(quick, bs), bs, k);
  }

  lemma ZerosFail(img: seq<byte>, at: nat, n: nat)
    requires ZeroFrom(img, at) && at + n <= |img|
    ensures !SliceChecks(img, at, n)
  {
    ZerosNeverCheck(img[at..at + n]);
  }

  /** And if the sizes take in the checksums: every checksum in the written image holds if and only
      if the last block is not out of reach. */
  lemma PackedChecks(quick: seq<byte>, bs: seq<Block>)
    requires |quick| == QUICK_SIZE && AllCovered(bs) && |bs| < 0x100 && TotalSize(bs) < CURSOR_LIMIT
    ensures Packable(quick, SealAll(bs))
    ensures ChecksHold(PackedImage(quick, SealAll(bs)), SealAll(bs)) <==> !ShortBlockAtTheEnd(bs)
  {
    SealShape(bs);
    ShapeKeepsBoundary(bs, SealAll(bs));
    SealAllChecked(bs);
    ReachCondition(SealAll(bs));
    if ShortBlockAtTheEnd(bs) {
      var k :| 0 <= k < |bs| && QUICK_SIZE + BlockOffset(SealAll(bs), k) >= CURSOR_LIMIT;
      LostBlockFails(quick, SealAll(bs), k);
    } else {
      PackedTiles(quick, SealAll(bs));
      ImageChecks(quick, SealAll(bs));
    }
  }

  // ----- such lists exist -----

  /** A block of n bytes, zero but for a size field that says size. */
  function SizedBlock(n: nat, size: half): (b: seq<byte>)
    requires n >= BLOCK_HEADER_SIZE
    ensures |b| == n
  {
    Fill(SIZE_AT, 0) + Le16(size) + Fill(n - 10, 0)
  }

  lemma SizedBlockSize(n: nat, size: half)
    requires size <= n && n >= BLOCK_HEADER_SIZE
    ensures Size(SizedBlock(n, size)) == size && Sound(SizedBlock(n, size))
  {
    assert SizedBlock(n, size)[SIZE_AT..10] == Le16(size);
    Le16RoundTrip(SizedBlock(n, size), SIZE_AT, size);
  }

  function BoundaryList(): seq<Block> {
    [Block(0x1000, SizedBlock(65424, 65424)), Block(0x1001, SizedBlock(16, 16))]
  }

  lemma BoundaryOffsets()
    ensures AllCovered(BoundaryList()) && Size(BoundaryList()[1].bytes) == 16
    ensures TotalSize(BoundaryList()) == CURSOR_LIMIT - 16
  {
    SizedBlockSize(65424, 65424);
    SizedBlockSize(16, 16);
    AlignIsShift(65424);
    AlignIsShift(16);
    AlignIsShift(8);
    assert BlockOffset(BoundaryList(), 0) == 80;
    assert BlockOffset(BoundaryList(), 1) == 65504;
  }

  /** Two blocks of 65424 and 16 bytes: every table offset fits, and the image does not read back. */
  lemma BoundaryExists(quick: seq<byte>) returns (bs: seq<Block>)
    requires |quick| == QUICK_SIZE
    ensures AllCovered(bs) && |bs| == 2 && TotalSize(bs) == CURSOR_LIMIT - 16
    ensures Packable(quick, SealAll(bs))
    ensures ReadBlocks(PackedImage(quick, SealAll(bs))) != Some(Contents(SealAll(bs)))
  {
    bs := BoundaryList();
    BoundaryOffsets();
    PackReadsBack(quick, bs);
  }

  /** A single block whose size field says 8: its size is not copied, and it is read back as empty. */
  lemma TinyExists(quick: seq<byte>) returns (bs: seq<Block>)
    requires |quick| == QUICK_SIZE
    ensures AllSound(bs) && |bs| == 1 && TotalSize(bs) == 96
    ensures Packable(quick, SealAll(bs))
    ensures ReadBlocks(PackedImage(quick, SealAll(bs))) != Some(Contents(SealAll(bs)))
  {
    bs := [Block(0x1000, SizedBlock(16, 8))];
    SizedBlockSize(16, 8);
    AlignIsShift(8);
    AlignIsShift(4);
    assert BlockOffset(bs, 0) == 80;
    PackReadsBack(quick, bs);
  }
}
