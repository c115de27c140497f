/** Facts about offsets, and the copying pass as the tool performs it, wrap-around included. */
module MemLayout {
  import opened Bytes
  import opened Layout
  import opened MemImage

  lemma {:induction false} OffsetsGrow(bs: seq<Block>, i: nat, j: nat)
    requires AllSound(bs) && i <= j <= |bs|
    ensures HEADER_SIZE + TableSize(|bs|) <= BlockOffset(bs, i) <= BlockOffset(bs, j)
    ensures i < j ==> BlockOffset(bs, i) + Align16(Size(bs[i].bytes)) <= BlockOffset(bs, j)
    decreases j
  {
    if i < j {
      OffsetsGrow(bs, i, j - 1);
    } else if i > 0 {
      OffsetsGrow(bs, i - 1, i - 1);
    }
  }

  /** A block that is sealed already stays as it is. */
  lemma SealIdempotent(b: seq<byte>)
    requires Sound(b)
    ensures SealBlock(SealBlock(b)) == SealBlock(b)
  {
    assert SealBlock(b)[CHECKSUM_AT := 0] == b[CHECKSUM_AT := 0];
  }

  /** Two lists with the same ids and the same sizes. */
  ghost predicate SameShape(bs: seq<Block>, cs: seq<Block>)
    requires AllSound(bs) && AllSound(cs)
  {
    |bs| == |cs| && forall i :: 0 <= i < |bs| ==> bs[i].guid == cs[i].guid && Size(bs[i].bytes) == Size(cs[i].bytes)
  }

  /** They have the same offsets and table rows. */
  lemma {:induction false} ShapeOffsets(bs: seq<Block>, cs: seq<Block>, i: nat)
    requires AllSound(bs) && AllSound(cs) && SameShape(bs, cs) && i <= |bs|
    ensures BlockOffset(bs, i) == BlockOffset(cs, i)
  {
    if i == 0 {
    } else {
      ShapeOffsets(bs, cs, i - 1);
      assert Size(bs[i - 1].bytes) == Size(cs[i - 1].bytes);
    }
  }

  lemma {:induction false} ShapeRows(bs: seq<Block>, cs: seq<Block>, i: nat)
    requires AllSound(bs) && AllSound(cs) && SameShape(bs, cs) && i <= |bs|
    requires BlockOffset(bs, i) < CURSOR_LIMIT && BlockOffset(cs, i) < CURSOR_LIMIT
    ensures Rows(bs, i) == Rows(cs, i)
  {
    if i == 0 {
    } else {
      ShapeOffsets(bs, cs, i - 1);
      ShapeRows(bs, cs, i - 1);
      assert bs[i - 1].guid == cs[i - 1].guid;
    }
  }

  lemma ShapeTable(bs: seq<Block>, cs: seq<Block>)
    requires AllSound(bs) && AllSound(cs) && SameShape(bs, cs) && TotalSize(bs) < CURSOR_LIMIT
    ensures TotalSize(cs) == TotalSize(bs)
    ensures Table(cs) == Table(bs)
  {
    ShapeOffsets(bs, cs, |bs|);
    ShapeRows(bs, cs, |bs|);
  }

  /** Sealing changes no size, so no offset and no table row. */
  lemma SealShape(bs: seq<Block>)
    requires AllSound(bs)
    ensures SameShape(bs, SealAll(bs))
  {
  }

  lemma SealTable(bs: seq<Block>)
    requires AllSound(bs) && TotalSize(bs) < CURSOR_LIMIT
    ensures TotalSize(SealAll(bs)) == TotalSize(bs)
    ensures Table(SealAll(bs)) == Table(bs)
  {
    SealShape(bs);
    ShapeTable(bs, SealAll(bs));
  }

  lemma BodyGrows(bs: seq<Block>, i: nat)
    requires AllSound(bs) && 0 < i <= |bs|
    ensures |Body(bs, i)| - |Body(bs, i - 1)| == BlockOffset(bs, i) - BlockOffset(bs, i - 1)
  {
  }

  lemma {:induction false} BodyLength(bs: seq<Block>, i: nat)
    requires AllSound(bs) && i <= |bs|
    ensures HEADER_SIZE + TableSize(|bs|) + |Body(bs, i)| == BlockOffset(bs, i)
  {
    if i == 0 {
    } else {
      BodyLength(bs, i - 1);
      BodyGrows(bs, i);
    }
  }

  lemma HeaderLength(count: byte, total: half)
    ensures |Header(count, total)| == HEADER_SIZE
    ensures forall c: byte :: |Flatten(HeaderFields(count, c, total))| == HEADER_SIZE
  {
    HeaderOffsets();
    forall c: byte
      ensures |Flatten(HeaderFields(count, c, total))| == HEADER_SIZE
    {
      FlattenLength(HeaderFields(count, c, total), HEADER_FIELDS);
    }
  }

  lemma HeaderOffsets()
    ensures Offset(HEADER_FIELDS, 1) == 4 && Offset(HEADER_FIELDS, 2) == 8 && Offset(HEADER_FIELDS, 3) == 10
    ensures Offset(HEADER_FIELDS, 4) == 12 && Offset(HEADER_FIELDS, 5) == 14 && Offset(HEADER_FIELDS, 6) == 15
    ensures Offset(HEADER_FIELDS, 7) == 16 && Offset(HEADER_FIELDS, 8) == 17 && Offset(HEADER_FIELDS, 9) == 18
    ensures Offset(HEADER_FIELDS, 10) == 20 && Offset(HEADER_FIELDS, 11) == 60
    ensures Offset(HEADER_FIELDS, 12) == HEADER_SIZE
  {
    assert Offset(HEADER_FIELDS, 3) == 10;
    assert Offset(HEADER_FIELDS, 6) == 15;
    assert Offset(HEADER_FIELDS, 9) == 18;
  }

  lemma FrontLength(quick: seq<byte>, bs: seq<Block>)
    requires |quick| == QUICK_SIZE && AllSound(bs) && |bs| < 0x100 && TotalSize(bs) < CURSOR_LIMIT
    ensures |Front(quick, bs)| == QUICK_SIZE + BlockOffset(bs, 0)
  {
    HeaderLength(|bs|, TotalSize(bs));
  }

  lemma LeadLength(quick: seq<byte>, bs: seq<Block>)
    requires |quick| == QUICK_SIZE && AllSound(bs) && |bs| < 0x100 && TotalSize(bs) < CURSOR_LIMIT
    ensures |Lead(quick, bs)| == QUICK_SIZE + BlockOffset(bs, 0)
  {
    HeaderLength(|bs|, TotalSize(bs));
  }

  /** The zeroed buffer with the three leading parts copied in. */
  function Opened(quick: seq<byte>, bs: seq<Block>): (p: Pass)
    requires |quick| == QUICK_SIZE && AllSound(bs) && |bs| < 0x100 && TotalSize(bs) < CURSOR_LIMIT
    ensures |p.buf| == QUICK_SIZE + TotalSize(bs)
    ensures p.cursor == QUICK_SIZE + BlockOffset(bs, 0)
  {
    FrontLength(quick, bs);
    OffsetsGrow(bs, 0, |bs|);
    Pass(Front(quick, bs) + Fill(TotalSize(bs) - BlockOffset(bs, 0), 0), QUICK_SIZE + BlockOffset(bs, 0), 0)
  }

  lemma {:induction false} OffsetsAligned(bs: seq<Block>, i: nat)
    requires AllSound(bs) && i <= |bs|
    ensures BlockOffset(bs, i) % 16 == 0
  {
    if i == 0 {
      AlignIsShift(|bs| * 4);
      SumAligned(HEADER_SIZE, TableSize(|bs|));
    } else {
      OffsetsAligned(bs, i - 1);
      AlignIsShift(Size(bs[i - 1].bytes));
      SumAligned(BlockOffset(bs, i - 1), Align16(Size(bs[i - 1].bytes)));
    }
  }

  lemma SumAligned(a: nat, b: nat)
    requires a % 16 == 0 && b % 16 == 0
    ensures (a + b) % 16 == 0
  {
  }

  /** The state of the copying pass after i blocks. */
  function Copied(quick: seq<byte>, bs: seq<Block>, i: nat): (p: Pass)
    requires |quick| == QUICK_SIZE && AllSound(bs) && |bs| < 0x100 && TotalSize(bs) < CURSOR_LIMIT
    requires i <= |bs|
    ensures |p.buf| == QUICK_SIZE + TotalSize(bs)
    ensures BlockOffset(bs, i) <= TotalSize(bs)
    ensures p.cursor == Wrap16(QUICK_SIZE + BlockOffset(bs, i))
  {
    OffsetsGrow(bs, i, |bs|);
    if i == 0 then Opened(quick, bs)
    else
      CopyBlock(Copied(quick, bs, i - 1), bs[i - 1])
  }

  /** There is room for block b at the cursor, and q is the state after it was copied. */
  ghost predicate Next(p: Pass, b: Block, q: Pass) {
    Sound(b.bytes) && p.cursor + Align16(Size(b.bytes)) <= |p.buf| < 2 * CURSOR_LIMIT && q == CopyBlock(p, b)
  }

  /** Each round of the pass has the room it needs. */
  lemma CursorFits(quick: seq<byte>, bs: seq<Block>, i: nat)
    requires |quick| == QUICK_SIZE && AllSound(bs) && |bs| < 0x100 && TotalSize(bs) < CURSOR_LIMIT
    requires i < |bs|
    ensures Next(Copied(quick, bs, i), bs[i], Copied(quick, bs, i + 1))
  {
    OffsetsGrow(bs, i + 1, |bs|);
  }

  /** The image the tool writes. */
  function PackedImage(quick: seq<byte>, bs: seq<Block>): (image: seq<byte>)
    requires |quick| == QUICK_SIZE && AllSound(bs) && |bs| < 0x100 && TotalSize(bs) < CURSOR_LIMIT
    ensures |image| == QUICK_SIZE + TotalSize(bs)
  {
    var p := Copied(quick, bs, |bs|);
    Splice(p.buf, FEAT_HASH_AT, Le32(p.hash))
  }

  // ----- what the image depends on -----

  /** Two lists with the same ids and the same copied parts. */
  ghost predicate SameContents(bs: seq<Block>, cs: seq<Block>)
    requires AllSound(bs) && AllSound(cs)
  {
    && |bs| == |cs|
    && forall i :: 0 <= i < |bs| ==> bs[i].guid == cs[i].guid && Content(bs[i].bytes) == Content(cs[i].bytes)
  }

  lemma SameContentsSameShape(bs: seq<Block>, cs: seq<Block>)
    requires AllSound(bs) && AllSound(cs) && SameContents(bs, cs)
    ensures SameShape(bs, cs)
  {
    forall i | 0 <= i < |bs|
      ensures Size(bs[i].bytes) == Size(cs[i].bytes)
    {
      assert |Content(bs[i].bytes)| == |Content(cs[i].bytes)|;
    }
  }

  lemma {:induction false} SameContentsSameHash(bs: seq<Block>, cs: seq<Block>, i: nat)
    requires AllSound(bs) && AllSound(cs) && SameContents(bs, cs) && i <= |bs|
    ensures FeatHash(bs, i) == FeatHash(cs, i)
  {
    if i == 0 {
    } else {
      SameContentsSameHash(bs, cs, i - 1);
      SamePadded(bs[i - 1].bytes, cs[i - 1].bytes);
    }
  }

  lemma SamePadded(a: seq<byte>, b: seq<byte>)
    requires Sound(a) && Sound(b) && Content(a) == Content(b)
    ensures Size(a) == Size(b) && Padded(a) == Padded(b)
  {
    assert |Content(a)| == Size(a) && |Content(b)| == Size(b);
  }

  lemma SameNext(p: Pass, a: Block, q: Pass, b: Block, r: Pass)
    requires Next(p, a, q) && Next(p, b, r) && a.guid == b.guid && Content(a.bytes) == Content(b.bytes)
    ensures q == r
  {
    SamePadded(a.bytes, b.bytes);
  }

  lemma SameCopyStep(quick: seq<byte>, bs: seq<Block>, cs: seq<Block>, i: nat, j: nat)
    requires |quick| == QUICK_SIZE && AllSound(bs) && AllSound(cs) && |bs| < 0x100 && |cs| < 0x100
    requires TotalSize(bs) < CURSOR_LIMIT && TotalSize(cs) < CURSOR_LIMIT && i < |bs| && i < |cs| && j == i + 1
    requires bs[i].guid == cs[i].guid && Content(bs[i].bytes) == Content(cs[i].bytes)
    requires Copied(quick, bs, i) == Copied(quick, cs, i)
    ensures Copied(quick, bs, j) == Copied(quick, cs, j)
  {
    CursorFits(quick, bs, i);
    CursorFits(quick, cs, i);
    SameNext(Copied(quick, bs, i), bs[i], Copied(quick, bs, j), cs[i], Copied(quick, cs, j));
  }

  lemma SameOpened(quick: seq<byte>, bs: seq<Block>, cs: seq<Block>)
    requires |quick| == QUICK_SIZE && AllSound(bs) && AllSound(cs) && SameContents(bs, cs)
    requires |bs| < 0x100 && TotalSize(bs) < CURSOR_LIMIT && TotalSize(cs) < CURSOR_LIMIT
    ensures Opened(quick, bs) == Opened(quick, cs)
  {
    SameContentsSameShape(bs, cs);
    ShapeTable(bs, cs);
    ShapeOffsets(bs, cs, 0);
  }

  lemma {:induction false} SameCopied(quick: seq<byte>, bs: seq<Block>, cs: seq<Block>, i: nat)
    requires |quick| == QUICK_SIZE && AllSound(bs) && AllSound(cs) && SameContents(bs, cs)
    requires |bs| < 0x100 && TotalSize(bs) < CURSOR_LIMIT && TotalSize(cs) < CURSOR_LIMIT && i <= |bs|
    ensures Copied(quick, bs, i) == Copied(quick, cs, i)
  {
    if i == 0 {
      SameOpened(quick, bs, cs);
    } else {
      var h := i - 1;
      SameCopied(quick, bs, cs, h);
      SameCopyStep(quick, bs, cs, h, i);
    }
  }

  /** The written image depends on the ids and the copied parts only. */
  lemma SameContentsSameImage(quick: seq<byte>, bs: seq<Block>, cs: seq<Block>)
    requires |quick| == QUICK_SIZE && AllSound(bs) && AllSound(cs) && SameContents(bs, cs)
    requires |bs| < 0x100 && TotalSize(bs) < CURSOR_LIMIT && TotalSize(cs) < CURSOR_LIMIT
    ensures PackedImage(quick, bs) == PackedImage(quick, cs)
  {
    SameCopied(quick, bs, cs, |bs|);
  }
}
