/** Reading the image back, and the checksums found in it. */
module MemRoundTrip {
  import opened Bytes
  import opened Layout
  import opened ByteCheckSum
  import opened MemImage
  import opened MemLayout
  import opened MemTiling

  // ----- regions -----

  lemma SliceOfSum(p: seq<byte>, q: seq<byte>, a: nat, b: nat)
    requires a <= b <= |q|
    ensures (p + q)[|p| + a..|p| + b] == q[a..b]
  {
  }

  lemma SliceOfFirst(p: seq<byte>, q: seq<byte>, a: nat, b: nat)
    requires a <= b <= |p|
    ensures (p + q)[a..b] == p[a..b]
  {
  }

  lemma SubSlice(s: seq<byte>, at: nat, n: nat, a: nat, b: nat)
    requires a <= b <= n && at + n <= |s|
    ensures s[at..at + n][a..b] == s[at + a..at + b]
  {
    var x, y := s[at..at + n][a..b], s[at + a..at + b];
    forall i | 0 <= i < |x|
      ensures x[i] == y[i]
    {
    }
  }

  /** The padded blocks before block i, block i, and those after it. */
  lemma {:induction false} BodySplit(bs: seq<Block>, n: nat, i: nat) returns (after: seq<byte>)
    requires AllSound(bs) && i < n <= |bs|
    ensures Body(bs, n) == (Body(bs, i) + Padded(bs[i].bytes)) + after
  {
    if i == n - 1 {
      after := [];
      assert Body(bs, n) + after == Body(bs, n);
    } else {
      var a := BodySplit(bs, n - 1, i);
      var last := Padded(bs[n - 1].bytes);
      after := a + last;
      ConcatAssociates(Body(bs, i) + Padded(bs[i].bytes), a, last);
    }
  }

  lemma {:induction false} RowAt(bs: seq<Block>, n: nat, i: nat)
    requires AllSound(bs) && i < n <= |bs| && BlockOffset(bs, n) < CURSOR_LIMIT
    ensures BlockOffset(bs, i) < CURSOR_LIMIT
    ensures Rows(bs, n)[4 * i..4 * i + 2] == Le16(bs[i].guid)
    ensures Rows(bs, n)[4 * i + 2..4 * i + 4] == Le16(BlockOffset(bs, i))
  {
    OffsetsGrow(bs, i, n);
    var p, q := Rows(bs, n - 1), Le16(bs[n - 1].guid) + Le16(BlockOffset(bs, n - 1));
    assert Rows(bs, n) == p + q;
    if i < n - 1 {
      RowAt(bs, n - 1, i);
      SliceOfFirst(p, q, 4 * i, 4 * i + 2);
      SliceOfFirst(p, q, 4 * i + 2, 4 * i + 4);
    } else {
      SliceOfSum(p, q, 0, 2);
      SliceOfSum(p, q, 2, 4);
    }
  }

  lemma Slot(front: seq<byte>, before: seq<byte>, m: seq<byte>, after: seq<byte>)
    ensures |front| + |before| + |m| <= |front + ((before + m) + after)|
    ensures (front + ((before + m) + after))[|front| + |before|..|front| + |before| + |m|] == m
  {
    assert front + ((before + m) + after) == ((front + before) + m) + after;
    MiddleSlice(front + before, m, after);
  }

  /** Behind the quick config, at this offset, the image holds block b padded with zeros to its
      aligned size. */
  ghost predicate RegionIn(img: seq<byte>, offset: nat, b: seq<byte>)
    requires Sound(b)
  {
    var at := QUICK_SIZE + offset;
    at + Align16(Size(b)) <= |img| && img[at..at + Align16(Size(b))] == Padded(b)
  }

  lemma RegionAt(whole: seq<byte>, front: seq<byte>, before: seq<byte>, b: seq<byte>, after: seq<byte>, offset: nat)
    requires Sound(b) && whole == front + ((before + Padded(b)) + after)
    requires QUICK_SIZE + offset == |front| + |before|
    ensures RegionIn(whole, offset, b)
  {
    Slot(front, before, Padded(b), after);
  }

  /** Block i lies at 32 plus its table offset. */
  lemma BlockRegion(quick: seq<byte>, bs: seq<Block>, i: nat)
    requires Packable(quick, bs) && i < |bs|
    ensures RegionIn(TiledImage(quick, bs), BlockOffset(bs, i), bs[i].bytes)
  {
    var after := BodySplit(bs, |bs|, i);
    BodyLength(bs, i);
    LeadLength(quick, bs);
    RegionAt(TiledImage(quick, bs), Lead(quick, bs), Body(bs, i), bs[i].bytes, after, BlockOffset(bs, i));
  }

  lemma HeaderRegion(quick: seq<byte>, bs: seq<Block>)
    requires Packable(quick, bs)
    ensures QUICK_SIZE + HEADER_SIZE + TableSize(|bs|) <= |TiledImage(quick, bs)|
    ensures TiledImage(quick, bs)[QUICK_SIZE..QUICK_SIZE + HEADER_SIZE] == Header(|bs|, TotalSize(bs))
    ensures TiledImage(quick, bs)[QUICK_SIZE + HEADER_SIZE..QUICK_SIZE + HEADER_SIZE + TableSize(|bs|)] == Table(bs)
  {
    HeaderLength(|bs|, TotalSize(bs));
    ThreeParts(Splice(quick, FEAT_HASH_AT, Le32(FeatHash(bs, |bs|))),
               Header(|bs|, TotalSize(bs)), Table(bs), Body(bs, |bs|));
  }

  lemma ThreeParts(q: seq<byte>, h: seq<byte>, t: seq<byte>, b: seq<byte>)
    ensures ((q + h + t) + b)[|q|..|q| + |h|] == h
    ensures ((q + h + t) + b)[|q| + |h|..|q| + |h| + |t|] == t
  {
  }

  // ----- the reader -----

  /** Whether table entry i of an image points at a block that lies inside the image. */
  predicate EntryReadable(img: seq<byte>, table: nat, i: nat) {
    && table + 4 * i + 4 <= |img|
    && var at := QUICK_SIZE + Get16(img, table + 4 * i + 2);
       && at + BLOCK_HEADER_SIZE <= |img|
       && at + Get16(img, at + SIZE_AT) <= |img|
  }

  function ReadEntry(img: seq<byte>, table: nat, i: nat): Block
    requires EntryReadable(img, table, i)
  {
    var at := QUICK_SIZE + Get16(img, table + 4 * i + 2);
    Block(Get16(img, table + 4 * i), img[at..at + Get16(img, at + SIZE_AT)])
  }

  /** A reader of such images: header after the quick config, table where the header says,
      blocks where the table says, each as long as its own header says. */
  function ReadBlocks(img: seq<byte>): Option<seq<Block>> {
    if |img| < QUICK_SIZE + HEADER_SIZE || Get32(img, QUICK_SIZE) != SIGNATURE then None
    else
      var table := QUICK_SIZE + Get16(img, QUICK_SIZE + 12);
      var count: int := img[QUICK_SIZE + 14];
      if forall i :: 0 <= i < count ==> EntryReadable(img, table, i) then
        Some(seq(count, i requires 0 <= i < count => ReadEntry(img, table, i)))
      else None
  }

  /** The header of a list of that many blocks and that total size is in place. */
  ghost predicate HeaderIn(img: seq<byte>, count: byte, total: half) {
    QUICK_SIZE + HEADER_SIZE <= |img| && img[QUICK_SIZE..QUICK_SIZE + HEADER_SIZE] == Header(count, total)
  }

  function HeaderSegments(count: byte, total: half): seq<seq<byte>> {
    HeaderFields(count, Complement(Flatten(HeaderFields(count, 0, total))), total)
  }

  lemma HeaderShaped(count: byte, total: half)
    ensures Shaped(HeaderSegments(count, total), HEADER_FIELDS)
    ensures Flatten(HeaderSegments(count, total)) == Header(count, total)
    ensures |Header(count, total)| == HEADER_SIZE
  {
    HeaderLength(count, total);
  }

  /** Field k of the header, in the image. */
  lemma HeaderField(img: seq<byte>, count: byte, total: half, k: nat, at: nat)
    requires HeaderIn(img, count, total) && k < |HEADER_FIELDS| && at == Offset(HEADER_FIELDS, k)
    ensures var f := HeaderSegments(count, total)[k];
            QUICK_SIZE + at + |f| <= |img| && img[QUICK_SIZE + at..QUICK_SIZE + at + |f|] == f
  {
    HeaderShaped(count, total);
    FieldOfPart(img, HeaderSegments(count, total), HEADER_FIELDS, QUICK_SIZE, k, at);
  }

  /** Field k of a structure that lies at position base. */
  lemma FieldOfPart(img: seq<byte>, segs: seq<seq<byte>>, sizes: seq<nat>, base: nat, k: nat, at: nat)
    requires Shaped(segs, sizes) && k < |sizes| && at == Offset(sizes, k)
    requires base + |Flatten(segs)| <= |img| && img[base..base + |Flatten(segs)|] == Flatten(segs)
    ensures base + at + |segs[k]| <= |img| && img[base + at..base + at + |segs[k]|] == segs[k]
  {
    FieldAt(segs, sizes, k);
    SubSlice(img, base, |Flatten(segs)|, at, at + |segs[k]|);
  }

  lemma HeaderHalf(img: seq<byte>, count: byte, total: half, k: nat, at: nat, v: half)
    requires HeaderIn(img, count, total) && k < |HEADER_FIELDS| && at == Offset(HEADER_FIELDS, k)
    requires at + 2 <= HEADER_SIZE && HeaderSegments(count, total)[k] == Le16(v)
    ensures Get16(img, QUICK_SIZE + at) == v
  {
    HeaderField(img, count, total, k, at);
    Le16RoundTrip(img, QUICK_SIZE + at, v);
  }

  lemma HeaderByte(img: seq<byte>, count: byte, total: half, k: nat, at: nat, v: byte)
    requires HeaderIn(img, count, total) && k < |HEADER_FIELDS| && at == Offset(HEADER_FIELDS, k)
    requires at < HEADER_SIZE && HeaderSegments(count, total)[k] == [v]
    ensures img[QUICK_SIZE + at] == v
  {
    HeaderField(img, count, total, k, at);
    assert img[QUICK_SIZE + at] == img[QUICK_SIZE + at..QUICK_SIZE + at + 1][0];
  }

  lemma HeaderSignature(img: seq<byte>, count: byte, total: half)
    requires HeaderIn(img, count, total)
    ensures Get32(img, QUICK_SIZE) == SIGNATURE
  {
    HeaderField(img, count, total, 0, 0);
    Le32RoundTrip(img, QUICK_SIZE, SIGNATURE);
  }

  /** Every field of the header, read from the image. */
  lemma HeaderReads(img: seq<byte>, count: byte, total: half)
    requires HeaderIn(img, count, total)
    ensures Get32(img, QUICK_SIZE) == SIGNATURE
    ensures Get16(img, QUICK_SIZE + 12) == HEADER_SIZE
    ensures img[QUICK_SIZE + 14] == count && img[QUICK_SIZE + 16] == HEADER_SIZE
    ensures Get16(img, QUICK_SIZE + 18) == total
    ensures Get16(img, QUICK_SIZE + 8) == MAJOR_VER && Get16(img, QUICK_SIZE + 10) == MINOR_VER
  {
    HeaderOffsets();
    HeaderSignature(img, count, total);
    HeaderHalf(img, count, total, 2, 8, MAJOR_VER);
    HeaderHalf(img, count, total, 3, 10, MINOR_VER);
    HeaderHalf(img, count, total, 4, 12, HEADER_SIZE);
    HeaderByte(img, count, total, 5, 14, count);
    HeaderByte(img, count, total, 7, 16, HEADER_SIZE);
    HeaderHalf(img, count, total, 9, 18, total);
  }

  lemma TableAt(bs: seq<Block>, i: nat)
    requires AllSound(bs) && TotalSize(bs) < CURSOR_LIMIT && i < |bs|
    ensures BlockOffset(bs, i) < CURSOR_LIMIT
    ensures Table(bs)[4 * i..4 * i + 2] == Le16(bs[i].guid)
    ensures Table(bs)[4 * i + 2..4 * i + 4] == Le16(BlockOffset(bs, i))
  {
    RowAt(bs, |bs|, i);
    RowInFront(Rows(bs, |bs|), Fill(TableSize(|bs|) - 4 * |bs|, 0), i);
  }

  lemma RowInFront(rows: seq<byte>, rest: seq<byte>, i: nat)
    requires 4 * i + 4 <= |rows|
    ensures (rows + rest)[4 * i..4 * i + 2] == rows[4 * i..4 * i + 2]
    ensures (rows + rest)[4 * i + 2..4 * i + 4] == rows[4 * i + 2..4 * i + 4]
  {
  }

  lemma RowFromTable(img: seq<byte>, at: nat, table: seq<byte>, i: nat, guid: half, offset: half)
    requires at + |table| <= |img| && img[at..at + |table|] == table && 4 * i + 4 <= |table|
    requires table[4 * i..4 * i + 2] == Le16(guid) && table[4 * i + 2..4 * i + 4] == Le16(offset)
    ensures RowGives(img, at, i, guid, offset)
  {
    SubSlice(img, at, |table|, 4 * i, 4 * i + 2);
    SubSlice(img, at, |table|, 4 * i + 2, 4 * i + 4);
    Le16RoundTrip(img, at + 4 * i, guid);
    Le16RoundTrip(img, at + 4 * i + 2, offset);
  }

  /** At this offset the image holds block b: its own size and its copied bytes. */
  ghost predicate BlockIn(img: seq<byte>, offset: nat, b: seq<byte>)
    requires Sound(b)
  {
    var at := QUICK_SIZE + offset;
    && at + BLOCK_HEADER_SIZE <= |img| && at + Size(b) <= |img|
    && Get16(img, at + SIZE_AT) == Size(b)
    && img[at..at + Size(b)] == Content(b)
  }

  /** Behind the quick config, at this offset, a block header says n. */
  ghost predicate SizeRead(img: seq<byte>, offset: nat, n: nat) {
    var at := QUICK_SIZE + offset;
    at + BLOCK_HEADER_SIZE <= |img| && Get16(img, at + SIZE_AT) == n
  }

  lemma PaddedReads(img: seq<byte>, offset: nat, b: seq<byte>)
    requires Sound(b) && SIZE_AT < Size(b) && RegionIn(img, offset, b)
    ensures BlockIn(img, offset, b)
  {
    SubSlice(img, QUICK_SIZE + offset, Align16(Size(b)), 0, Size(b));
    assert Padded(b)[..Size(b)] == Content(b);
    FoundSize(img, offset, b);
  }

  /** The size a reader finds at a block's place: the block's own, if that much of it is copied. */
  lemma FoundSize(img: seq<byte>, offset: nat, b: seq<byte>)
    requires Sound(b) && 0 < Size(b) && RegionIn(img, offset, b)
    ensures SizeRead(img, offset, if SIZE_AT < Size(b) then Size(b) else 0)
  {
    var at := QUICK_SIZE + offset;
    var x := img[at..at + Align16(Size(b))];
    assert x[8] == img[at + 8] && x[9] == img[at + 9];
    SizeInPadded(b);
  }

  lemma SizeInPadded(b: seq<byte>)
    requires Sound(b) && 0 < Size(b)
    ensures |Padded(b)| >= BLOCK_HEADER_SIZE
    ensures Get16(Padded(b), SIZE_AT) == if SIZE_AT < Size(b) then Size(b) else 0
  {
    var n := Size(b);
    assert b[SIZE_AT + 1] == n / 0x100;
    if SIZE_AT < n {
      assert Padded(b)[SIZE_AT] == b[SIZE_AT];
      assert Padded(b)[SIZE_AT + 1] == b[SIZE_AT + 1];
    }
  }

  lemma BlockReads(quick: seq<byte>, bs: seq<Block>, i: nat)
    requires Packable(quick, bs) && AllMeasured(bs) && i < |bs|
    ensures BlockIn(TiledImage(quick, bs), BlockOffset(bs, i), bs[i].bytes)
  {
    BlockRegion(quick, bs, i);
    PaddedReads(TiledImage(quick, bs), BlockOffset(bs, i), bs[i].bytes);
  }

  /** Everything a reader of the image relies on: the header, the table, and every block. */
  ghost predicate ImageOf(img: seq<byte>, bs: seq<Block>)
    requires AllSound(bs) && |bs| < 0x100 && TotalSize(bs) < CURSOR_LIMIT
  {
    && HeaderIn(img, |bs|, TotalSize(bs))
    && TableIn(img, QUICK_SIZE + HEADER_SIZE, bs)
    && forall i :: 0 <= i < |bs| ==> BlockIn(img, BlockOffset(bs, i), bs[i].bytes)
  }

  lemma TiledIsImage(quick: seq<byte>, bs: seq<Block>)
    requires Packable(quick, bs) && AllMeasured(bs)
    ensures ImageOf(TiledImage(quick, bs), bs)
  {
    HeaderRegion(quick, bs);
    forall i | 0 <= i < |bs|
      ensures BlockIn(TiledImage(quick, bs), BlockOffset(bs, i), bs[i].bytes)
    {
      BlockReads(quick, bs, i);
    }
  }

  ghost predicate EntryGives(img: seq<byte>, table: nat, i: nat, b: Block) {
    EntryReadable(img, table, i) && ReadEntry(img, table, i) == b
  }

  /** The table's place in an image. */
  ghost predicate TableIn(img: seq<byte>, table: nat, bs: seq<Block>)
    requires AllSound(bs) && TotalSize(bs) < CURSOR_LIMIT
  {
    table + TableSize(|bs|) <= |img| && img[table..table + TableSize(|bs|)] == Table(bs)
  }

  /** Row i of the table, read from the image. */
  ghost predicate RowGives(img: seq<byte>, table: nat, i: nat, guid: half, offset: half) {
    var row := table + 4 * i;
    row + 4 <= |img| && Get16(img, row) == guid && Get16(img, row + 2) == offset
  }

  lemma RowReads(img: seq<byte>, table: nat, bs: seq<Block>, i: nat)
    requires AllSound(bs) && TotalSize(bs) < CURSOR_LIMIT && i < |bs| && TableIn(img, table, bs)
    ensures BlockOffset(bs, i) < CURSOR_LIMIT
    ensures RowGives(img, table, i, bs[i].guid, BlockOffset(bs, i))
  {
    TableAt(bs, i);
    RowFromTable(img, table, Table(bs), i, bs[i].guid, BlockOffset(bs, i));
  }

  /** The block that row points to. */
  lemma EntryAt(img: seq<byte>, table: nat, i: nat, guid: half, offset: half, b: seq<byte>)
    requires RowGives(img, table, i, guid, offset)
    requires Sound(b) && BlockIn(img, offset, b)
    ensures EntryGives(img, table, i, Block(guid, Content(b)))
  {
  }

  /** The copied blocks of a list. */
  function Contents(bs: seq<Block>): (r: seq<Block>)
    requires AllSound(bs)
    ensures |r| == |bs|
    ensures forall i :: 0 <= i < |bs| ==> r[i] == Block(bs[i].guid, Content(bs[i].bytes))
  {
    seq(|bs|, i requires 0 <= i < |bs| => Block(bs[i].guid, Content(bs[i].bytes)))
  }

  ghost predicate EntriesRead(img: seq<byte>, table: nat, rs: seq<Block>) {
    forall i :: 0 <= i < |rs| ==> EntryGives(img, table, i, rs[i])
  }

  lemma ReadsAs(img: seq<byte>, count: byte, rs: seq<Block>)
    requires QUICK_SIZE + HEADER_SIZE <= |img| && count == |rs|
    requires Get32(img, QUICK_SIZE) == SIGNATURE && Get16(img, QUICK_SIZE + 12) == HEADER_SIZE
    requires img[QUICK_SIZE + 14] == count
    requires EntriesRead(img, QUICK_SIZE + HEADER_SIZE, rs)
    ensures ReadBlocks(img) == Some(rs)
  {
    var table := QUICK_SIZE + HEADER_SIZE;
    forall i | 0 <= i < |rs|
      ensures EntryReadable(img, table, i) && ReadEntry(img, table, i) == rs[i]
    {
      assert EntryGives(img, table, i, rs[i]);
    }
    assert seq(|rs|, i requires 0 <= i < |rs| => ReadEntry(img, table, i)) == rs;
  }

  lemma EntryOfImage(img: seq<byte>, table: nat, bs: seq<Block>, i: nat, b: Block)
    requires AllSound(bs) && TotalSize(bs) < CURSOR_LIMIT && i < |bs| && TableIn(img, table, bs)
    requires BlockIn(img, BlockOffset(bs, i), bs[i].bytes)
    requires b == Block(bs[i].guid, Content(bs[i].bytes))
    ensures EntryGives(img, table, i, b)
  {
    RowReads(img, table, bs, i);
    EntryAt(img, table, i, bs[i].guid, BlockOffset(bs, i), bs[i].bytes);
  }

  lemma AllEntriesRead(img: seq<byte>, bs: seq<Block>)
    requires AllSound(bs) && |bs| < 0x100 && TotalSize(bs) < CURSOR_LIMIT && ImageOf(img, bs)
    ensures EntriesRead(img, QUICK_SIZE + HEADER_SIZE, Contents(bs))
  {
    forall i | 0 <= i < |bs|
      ensures EntryGives(img, QUICK_SIZE + HEADER_SIZE, i, Contents(bs)[i])
    {
      assert BlockIn(img, BlockOffset(bs, i), bs[i].bytes);
      EntryOfImage(img, QUICK_SIZE + HEADER_SIZE, bs, i, Contents(bs)[i]);
    }
  }

  lemma ImageReads(img: seq<byte>, bs: seq<Block>)
    requires AllSound(bs) && |bs| < 0x100 && TotalSize(bs) < CURSOR_LIMIT && ImageOf(img, bs)
    ensures ReadBlocks(img) == Some(Contents(bs))
  {
    HeaderReads(img, |bs|, TotalSize(bs));
    AllEntriesRead(img, bs);
    ReadsAs(img, |bs|, Contents(bs));
  }

  /** Reading the intended image back gives the ids and the copied bytes of all blocks, in order. */
  lemma TiledRoundTrip(quick: seq<byte>, bs: seq<Block>)
    requires Packable(quick, bs) && AllMeasured(bs)
    ensures ReadBlocks(TiledImage(quick, bs)) == Some(Contents(bs))
  {
    TiledIsImage(quick, bs);
    ImageReads(TiledImage(quick, bs), bs);
  }

  // ----- checksums in the image -----

  /** A sealed block checks out over exactly the bytes that are copied, and a block that checks
      out is sealed. */
  lemma SealedBlockChecks(b: seq<byte>)
    requires Sound(b) && CHECKSUM_AT < Size(b)
    ensures Complement(Content(SealBlock(b))) == 0
    ensures Complement(Content(b)) == 0 ==> SealBlock(b) == b
  {
    var s := Content(b);
    var v := Complement(s[CHECKSUM_AT := 0]);
    assert b[CHECKSUM_AT := 0][..Size(b)] == s[CHECKSUM_AT := 0];
    assert Content(SealBlock(b)) == s[CHECKSUM_AT := v];
    OneByteChecks(s, CHECKSUM_AT, v);
    assert s[CHECKSUM_AT := s[CHECKSUM_AT]] == s;
    OneByteChecks(s, CHECKSUM_AT, s[CHECKSUM_AT]);
  }

  lemma HeaderChecks(count: byte, total: half)
    ensures Complement(Header(count, total)) == 0
  {
    HeaderOffsets();
    HeaderLength(count, total);
    var blank := HeaderFields(count, 0, total);
    var c := Complement(Flatten(blank));
    StartIsOffset(blank, HEADER_FIELDS, 8);
    SpliceSegment(blank, 8, [c]);
    assert blank[8 := [c]] == HeaderFields(count, c, total);
    FieldAt(blank, HEADER_FIELDS, 8);
    var s := Flatten(blank);
    assert s[17..18] == [0] && s[17] == s[17..18][0];
    assert Splice(s, 17, [c]) == s[17 := c];
    assert s[17 := 0] == s;
    OneByteChecks(s, 17, c);
  }

  /** Blocks whose checksum byte is right, as the first pass leaves them. */
  ghost predicate AllChecked(bs: seq<Block>)
    requires AllSound(bs)
  {
    forall i :: 0 <= i < |bs| ==> Complement(Content(bs[i].bytes)) == 0
  }

  lemma SealAllChecked(bs: seq<Block>)
    requires AllCovered(bs)
    ensures AllCovered(SealAll(bs)) && AllChecked(SealAll(bs))
  {
    forall i | 0 <= i < |bs|
      ensures Complement(Content(SealAll(bs)[i].bytes)) == 0
    {
      SealedBlockChecks(bs[i].bytes);
    }
  }

  ghost predicate SliceChecks(img: seq<byte>, at: nat, n: nat) {
    at + n <= |img| && Complement(img[at..at + n]) == 0
  }

  ghost predicate BlockSliceChecks(img: seq<byte>, bs: seq<Block>, i: nat)
    requires AllSound(bs) && i < |bs|
  {
    SliceChecks(img, QUICK_SIZE + BlockOffset(bs, i), Size(bs[i].bytes))
  }

  /** The header slice and every block slice of an image check out. */
  ghost predicate ChecksHold(img: seq<byte>, bs: seq<Block>)
    requires AllSound(bs)
  {
    SliceChecks(img, QUICK_SIZE, HEADER_SIZE) && forall i :: 0 <= i < |bs| ==> BlockSliceChecks(img, bs, i)
  }

  lemma BlockChecks(img: seq<byte>, offset: nat, b: seq<byte>)
    requires Sound(b) && BlockIn(img, offset, b) && Complement(Content(b)) == 0
    ensures SliceChecks(img, QUICK_SIZE + offset, Size(b))
  {
  }

  lemma ChecksInImage(img: seq<byte>, bs: seq<Block>)
    requires AllSound(bs) && |bs| < 0x100 && TotalSize(bs) < CURSOR_LIMIT && ImageOf(img, bs) && AllChecked(bs)
    ensures ChecksHold(img, bs)
  {
    HeaderSliceChecks(img, |bs|, TotalSize(bs));
    forall i | 0 <= i < |bs|
      ensures BlockSliceChecks(img, bs, i)
    {
      assert BlockIn(img, BlockOffset(bs, i), bs[i].bytes);
      assert Complement(Content(bs[i].bytes)) == 0;
      BlockChecks(img, BlockOffset(bs, i), bs[i].bytes);
    }
    assert SliceChecks(img, QUICK_SIZE, HEADER_SIZE);
  }

  lemma HeaderSliceChecks(img: seq<byte>, count: byte, total: half)
    requires HeaderIn(img, count, total)
    ensures SliceChecks(img, QUICK_SIZE, HEADER_SIZE)
  {
    HeaderChecks(count, total);
  }

  /** In the final image, after all copies and the hash write, every checksum holds. */
  lemma ImageChecks(quick: seq<byte>, bs: seq<Block>)
    requires AllCovered(bs) && AllChecked(bs) && Packable(quick, bs)
    ensures ChecksHold(TiledImage(quick, bs), bs)
  {
    TiledIsImage(quick, bs);
    ChecksInImage(TiledImage(quick, bs), bs);
  }

  /** Packing the blocks a first run has already sealed gives the identical image. */
  lemma RepackIdentical(quick: seq<byte>, bs: seq<Block>)
    requires AllSound(bs) && Packable(quick, SealAll(bs))
    ensures SealAll(SealAll(bs)) == SealAll(bs)
    ensures PackedImage(quick, SealAll(SealAll(bs))) == PackedImage(quick, SealAll(bs))
  {
    forall i | 0 <= i < |bs|
      ensures SealAll(SealAll(bs))[i] == SealAll(bs)[i]
    {
      SealIdempotent(bs[i].bytes);
    }
    assert SealAll(SealAll(bs)) == SealAll(bs);
  }
}
