/** The image the tool writes is the intended tiling, and exactly when. */
module MemTiling {
  import opened Bytes
  import opened MemImage
  import opened MemLayout
  import opened DjbHash

  /** What both the tool and its buffers need: few enough blocks, and a first cursor that does
      not wrap, so that the buffer is as large as the blocks. */
  ghost predicate Packable(quick: seq<byte>, bs: seq<Block>) {
    |quick| == QUICK_SIZE && AllSound(bs) && |bs| < 0x100 && TotalSize(bs) < CURSOR_LIMIT
  }

  /** The second cursor starts 32 higher; it has to reach every one of the first i blocks. */
  ghost predicate CursorReaches(bs: seq<Block>, i: nat)
    requires i <= |bs| && AllSound(bs)
  {
    forall k :: 0 <= k < i ==> QUICK_SIZE + BlockOffset(bs, k) < CURSOR_LIMIT
  }

  lemma CopyIntoZeros(front: seq<byte>, d: seq<byte>, pad: nat, rest: nat)
    requires |d| + pad <= rest
    ensures Splice(front + Fill(rest, 0), |front|, d) ==
            (front + (d + Fill(pad, 0))) + Fill(rest - (|d| + pad), 0)
  {
  }

  /** One block copied right behind what is already there. */
  lemma CopyStep(p: Pass, front: seq<byte>, b: Block, rest: nat)
    requires Sound(b.bytes) && Align16(Size(b.bytes)) <= rest
    requires p.buf == front + Fill(rest, 0) && p.cursor == |front| && |p.buf| < 2 * CURSOR_LIMIT
    ensures CopyBlock(p, b).buf == (front + Padded(b.bytes)) + Fill(rest - Align16(Size(b.bytes)), 0)
    ensures CopyBlock(p, b).hash == if b.guid == FEATURE_GUID then Djb(p.hash, Padded(b.bytes)) else p.hash
  {
    var pad := Align16(Size(b.bytes)) - Size(b.bytes);
    CopyIntoZeros(front, Content(b.bytes), pad, rest);
    MiddleSlice(front, Padded(b.bytes), Fill(rest - Align16(Size(b.bytes)), 0));
  }

  /** What stands in front of block i in the buffer. */
  function Before(quick: seq<byte>, bs: seq<Block>, i: nat): (r: seq<byte>)
    requires |quick| == QUICK_SIZE && AllSound(bs) && |bs| < 0x100 && TotalSize(bs) < CURSOR_LIMIT
    requires i <= |bs|
    ensures |r| == QUICK_SIZE + BlockOffset(bs, i)
  {
    FrontLength(quick, bs);
    BodyLength(bs, i);
    Front(quick, bs) + Body(bs, i)
  }

  lemma BeforeNext(quick: seq<byte>, bs: seq<Block>, i: nat)
    requires Packable(quick, bs) && i < |bs|
    ensures Before(quick, bs, i) + Padded(bs[i].bytes) == Before(quick, bs, i + 1)
    ensures BlockOffset(bs, i + 1) == BlockOffset(bs, i) + Align16(Size(bs[i].bytes)) <= TotalSize(bs)
  {
    OffsetsGrow(bs, i + 1, |bs|);
    var front, body, next := Front(quick, bs), Body(bs, i), Padded(bs[i].bytes);
    ConcatAssociates(front, body, next);
    assert Before(quick, bs, i) == front + body && Body(bs, i + 1) == body + next;
    assert Before(quick, bs, i + 1) == front + Body(bs, i + 1);
  }

  ghost predicate Tiled(quick: seq<byte>, bs: seq<Block>, i: nat, p: Pass)
    requires Packable(quick, bs) && i <= |bs|
  {
    && BlockOffset(bs, i) <= TotalSize(bs)
    && p.buf == Before(quick, bs, i) + Fill(TotalSize(bs) - BlockOffset(bs, i), 0)
    && p.hash == FeatHash(bs, i)
  }

  lemma OpenedTiled(quick: seq<byte>, bs: seq<Block>)
    requires Packable(quick, bs)
    ensures Tiled(quick, bs, 0, Opened(quick, bs))
  {
    OffsetsGrow(bs, 0, |bs|);
    PlusNothing(Front(quick, bs));
  }

  lemma PlusNothing(s: seq<byte>)
    ensures s + [] == s
  {
  }

  lemma CopyTiled(quick: seq<byte>, bs: seq<Block>, i: nat, j: nat, p: Pass)
    requires Packable(quick, bs) && i < |bs| && j == i + 1 && Tiled(quick, bs, i, p)
    requires p.cursor == QUICK_SIZE + BlockOffset(bs, i)
    requires p.cursor + Align16(Size(bs[i].bytes)) <= |p.buf| < 2 * CURSOR_LIMIT
    ensures Tiled(quick, bs, j, CopyBlock(p, bs[i]))
  {
    BeforeNext(quick, bs, i);
    CopyStep(p, Before(quick, bs, i), bs[i], TotalSize(bs) - BlockOffset(bs, i));
  }

  lemma CopiedStep(quick: seq<byte>, bs: seq<Block>, i: nat, j: nat)
    requires Packable(quick, bs) && i < |bs| && j == i + 1 && CursorReaches(bs, j)
    requires Tiled(quick, bs, i, Copied(quick, bs, i))
    ensures Tiled(quick, bs, j, Copied(quick, bs, j))
  {
    CursorFits(quick, bs, i);
    CopyTiled(quick, bs, i, j, Copied(quick, bs, i));
  }

  /** After i blocks the buffer holds the front, the padded blocks, and zeros to the end. */
  lemma {:induction false} CopiedTiles(quick: seq<byte>, bs: seq<Block>, i: nat)
    requires Packable(quick, bs) && i <= |bs| && CursorReaches(bs, i)
    ensures Tiled(quick, bs, i, Copied(quick, bs, i))
  {
    if i == 0 {
      OpenedTiled(quick, bs);
      assert Copied(quick, bs, 0) == Opened(quick, bs);
    } else {
      var j := i - 1;
      assert CursorReaches(bs, j);
      CopiedTiles(quick, bs, j);
      assert Tiled(quick, bs, j, Copied(quick, bs, j));
      CopiedStep(quick, bs, j, i);
    }
  }

  lemma SpliceFirst(p: seq<byte>, q: seq<byte>, at: nat, d: seq<byte>)
    requires at + |d| <= |p|
    ensures Splice(p + q, at, d) == Splice(p, at, d) + q
  {
  }

  lemma Regroup(q: seq<byte>, h: seq<byte>, t: seq<byte>, b: seq<byte>)
    ensures ((q + h + t) + b) + Fill(0, 0) == q + (h + t + b)
    ensures q + h + t + b == q + (h + t + b)
  {
  }

  lemma PackedTiles(quick: seq<byte>, bs: seq<Block>)
    requires Packable(quick, bs) && CursorReaches(bs, |bs|)
    ensures PackedImage(quick, bs) == TiledImage(quick, bs)
  {
    CopiedTiles(quick, bs, |bs|);
    var h, head, table, body := Le32(FeatHash(bs, |bs|)), Header(|bs|, TotalSize(bs)), Table(bs), Body(bs, |bs|);
    Regroup(quick, head, table, body);
    Regroup(Splice(quick, FEAT_HASH_AT, h), head, table, body);
    SpliceFirst(quick, head + table + body, FEAT_HASH_AT, h);
  }

  lemma LastSixteen(o: nat, size: nat, room: nat, total: nat)
    requires o % 16 == 0 && total % 16 == 0 && 0 < size <= room && 16 <= room && o + room <= total < CURSOR_LIMIT
    requires QUICK_SIZE + o >= CURSOR_LIMIT
    ensures QUICK_SIZE + o == CURSOR_LIMIT && QUICK_SIZE + total == CURSOR_LIMIT + 16 && size <= 16
  {
  }

  lemma RoomAfter(bs: seq<Block>, k: nat)
    requires AllMeasured(bs) && k < |bs|
    ensures BlockOffset(bs, k) + Align16(Size(bs[k].bytes)) <= TotalSize(bs)
    ensures k + 1 < |bs| ==> BlockOffset(bs, k) + Align16(Size(bs[k].bytes)) + 16 <= TotalSize(bs)
  {
    OffsetsGrow(bs, k, |bs|);
    if k + 1 < |bs| {
      OffsetsGrow(bs, k + 1, |bs|);
    }
  }

  /** Where the second cursor fails to reach a block, that block is the last, is no longer than
      16 bytes, and its place is the very end of a buffer of 65552 bytes. */
  lemma OutOfReach(bs: seq<Block>, k: nat)
    requires AllMeasured(bs) && TotalSize(bs) < CURSOR_LIMIT
    requires k < |bs| && QUICK_SIZE + BlockOffset(bs, k) >= CURSOR_LIMIT
    ensures k == |bs| - 1 && Size(bs[k].bytes) <= 16
    ensures QUICK_SIZE + BlockOffset(bs, k) == CURSOR_LIMIT && QUICK_SIZE + TotalSize(bs) == CURSOR_LIMIT + 16
    ensures CursorReaches(bs, k)
  {
    OffsetsAligned(bs, k);
    OffsetsAligned(bs, |bs|);
    RoomAfter(bs, k);
    LastSixteen(BlockOffset(bs, k), Size(bs[k].bytes), Align16(Size(bs[k].bytes)), TotalSize(bs));
    forall m | 0 <= m < k
      ensures QUICK_SIZE + BlockOffset(bs, m) < CURSOR_LIMIT
    {
      RoomAfter(bs, m);
      OffsetsGrow(bs, m, k);
    }
  }

  // ----- blocks of any size -----

  /** The cursor reaches exactly the first m blocks. */
  ghost predicate ReachedTo(bs: seq<Block>, m: nat)
    requires AllSound(bs)
  {
    m <= |bs| && CursorReaches(bs, m) && (m < |bs| ==> QUICK_SIZE + BlockOffset(bs, m) >= CURSOR_LIMIT)
  }

  lemma FirstUnreached(bs: seq<Block>) returns (m: nat)
    requires AllSound(bs)
    ensures ReachedTo(bs, m)
  {
    m := 0;
    while m < |bs| && QUICK_SIZE + BlockOffset(bs, m) < CURSOR_LIMIT
      invariant m <= |bs| && CursorReaches(bs, m)
    {
      m := m + 1;
    }
  }

  /** From the first block out of reach on, the wrapped cursor stays within the first 16 bytes. */
  lemma LateCursor(bs: seq<Block>, m: nat, j: nat)
    requires AllSound(bs) && TotalSize(bs) < CURSOR_LIMIT && ReachedTo(bs, m) && m <= j < |bs|
    ensures QUICK_SIZE + BlockOffset(bs, j) >= CURSOR_LIMIT
    ensures QUICK_SIZE + BlockOffset(bs, j) - CURSOR_LIMIT + Size(bs[j].bytes) <= 16
  {
    OffsetsGrow(bs, m, j);
    OffsetsGrow(bs, j, |bs|);
    OffsetsAligned(bs, |bs|);
    LastSixteenAt(BlockOffset(bs, j), Align16(Size(bs[j].bytes)), TotalSize(bs));
  }

  lemma LastSixteenAt(o: nat, room: nat, total: nat)
    requires total % 16 == 0 && o + room <= total < CURSOR_LIMIT
    ensures QUICK_SIZE + o - CURSOR_LIMIT + room <= 16
  {
  }

  /** Two buffers that differ in the first 16 bytes only. */
  ghost predicate SameFrom16(s: seq<byte>, t: seq<byte>) {
    |s| == |t| && forall i :: 16 <= i < |s| ==> s[i] == t[i]
  }

  lemma EarlyWrite(p: Pass, b: Block)
    requires Sound(b.bytes) && p.cursor + Align16(Size(b.bytes)) <= |p.buf| < 2 * CURSOR_LIMIT
    requires p.cursor + Size(b.bytes) <= 16
    ensures SameFrom16(CopyBlock(p, b).buf, p.buf)
  {
  }

  lemma LateCopy(quick: seq<byte>, bs: seq<Block>, m: nat, i: nat, j: nat)
    requires Packable(quick, bs) && ReachedTo(bs, m) && m <= i < |bs| && j == i + 1
    ensures SameFrom16(Copied(quick, bs, j).buf, Copied(quick, bs, i).buf)
  {
    LateCursor(bs, m, i);
    CursorFits(quick, bs, i);
    EarlyWrite(Copied(quick, bs, i), bs[i]);
  }

  lemma SameFrom16Trans(s: seq<byte>, t: seq<byte>, u: seq<byte>)
    requires SameFrom16(s, t) && SameFrom16(t, u)
    ensures SameFrom16(s, u)
  {
  }

  /** So the copies of those blocks leave everything behind byte 16 alone. */
  lemma {:induction false} LateCopies(quick: seq<byte>, bs: seq<Block>, m: nat, j: nat)
    requires Packable(quick, bs) && ReachedTo(bs, m) && m <= j <= |bs|
    ensures SameFrom16(Copied(quick, bs, j).buf, Copied(quick, bs, m).buf)
    decreases j
  {
    if j == m {
    } else {
      var i := j - 1;
      LateCopies(quick, bs, m, i);
      LateCopy(quick, bs, m, i, j);
      SameFrom16Trans(Copied(quick, bs, j).buf, Copied(quick, bs, i).buf, Copied(quick, bs, m).buf);
    }
  }

  /** The buffer with the first m blocks in place and zeros behind them. */
  function Upto(quick: seq<byte>, bs: seq<Block>, m: nat): (r: seq<byte>)
    requires |quick| == QUICK_SIZE && AllSound(bs) && |bs| < 0x100 && TotalSize(bs) < CURSOR_LIMIT
    requires m <= |bs|
    ensures |r| == QUICK_SIZE + TotalSize(bs)
  {
    OffsetsGrow(bs, m, |bs|);
    Before(quick, bs, m) + Fill(TotalSize(bs) - BlockOffset(bs, m), 0)
  }

  lemma HashWrite(s: seq<byte>, h: seq<byte>)
    requires |h| == 4 && 16 <= |s|
    ensures SameFrom16(Splice(s, FEAT_HASH_AT, h), s)
  {
  }

  /** Whatever the sizes, behind byte 16 the written image holds the front, the blocks the cursor
      reaches, and zeros. */
  lemma PackedFrom16(quick: seq<byte>, bs: seq<Block>, m: nat)
    requires Packable(quick, bs) && ReachedTo(bs, m)
    ensures SameFrom16(PackedImage(quick, bs), Upto(quick, bs, m))
  {
    var p, q := Copied(quick, bs, |bs|), Copied(quick, bs, m);
    CopiedTiles(quick, bs, m);
    assert q.buf == Upto(quick, bs, m);
    LateCopies(quick, bs, m, |bs|);
    HashWrite(p.buf, Le32(p.hash));
    SameFrom16Trans(PackedImage(quick, bs), p.buf, q.buf);
  }
}
