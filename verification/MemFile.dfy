/** The packed file in numbers: where everything is, byte by byte, and what is hashed. */
module MemFile {
  import opened Bytes
  import opened DoubleSum
  import opened DjbHash
  import opened MemImage
  import opened MemLayout
  import opened MemTiling
  import opened MemRoundTrip
  import opened MemBoundary
  import opened MemFeatHash
  import opened MemStoredHash

  // ----- sizes and offsets -----

  /** The next multiple of 16, by one division. */
  lemma AlignInNumbers(n: nat)
    ensures Align16(n) == (n + 15) / 16 * 16
  {
    AlignIsShift(n);
  }

  /** The size in a block's header, and the block after it was sealed: byte 10 makes the bytes add up to 255
      modulo 256 over that size, if it is among them, and no other byte changes. */
  lemma SealInNumbers(b: seq<byte>, i: nat)
    requires |b| >= 16 && b[8] as int + 0x100 * (b[9] as int) <= |b| && i < |b|
    ensures Sound(b) && Size(b) == b[8] as int + 0x100 * (b[9] as int)
    ensures SealBlock(b)[i] ==
            if i == 10 then 0xFF - Sum(b[10 := 0][..b[8] as int + 0x100 * (b[9] as int)]) % 0x100 else b[i]
  {
  }

  /** The first offset leaves room for the header and the table. */
  lemma FirstOffset(bs: seq<Block>)
    requires AllSound(bs)
    ensures BlockOffset(bs, 0) == 64 + (4 * |bs| + 15) / 16 * 16
  {
    AlignInNumbers(4 * |bs|);
  }

  /** Every block leaves room for the next one, and the last offset is the total size. */
  lemma NextOffset(bs: seq<Block>, i: nat, j: nat, size: nat)
    requires AllSound(bs) && i < |bs| && j == i + 1 && size == Get16(bs[i].bytes, 8)
    ensures BlockOffset(bs, j) == BlockOffset(bs, i) + (size + 15) / 16 * 16
    ensures j == |bs| ==> BlockOffset(bs, j) == TotalSize(bs)
  {
    AlignInNumbers(size);
  }

  // ----- header and table -----

  lemma FrontFound(quick: seq<byte>, bs: seq<Block>) returns (m: nat)
    requires Packable(quick, bs)
    ensures ReachedTo(bs, m) && Found(PackedImage(quick, bs), bs, m)
  {
    m := FirstUnreached(bs);
    PackedFound(quick, bs, m);
  }

  /** The reserved fields of the header. */
  lemma HeaderZeros(img: seq<byte>, count: byte, total: half)
    requires HeaderIn(img, count, total)
    ensures img[36..40] == Fill(4, 0) && img[47..48] == [0] && img[52..92] == Fill(40, 0) && img[92..96] == Fill(4, 0)
  {
    HeaderOffsets();
    HeaderField(img, count, total, 1, 4);
    HeaderField(img, count, total, 6, 15);
    HeaderField(img, count, total, 10, 20);
    HeaderField(img, count, total, 11, 60);
  }

  lemma ZeroBytes(img: seq<byte>, b: nat)
    requires 96 <= |img|
    requires img[36..40] == Fill(4, 0) && img[47..48] == [0] && img[52..92] == Fill(40, 0) && img[92..96] == Fill(4, 0)
    requires 36 <= b < 40 || b == 47 || 52 <= b < 96
    ensures img[b] == 0
  {
    if b < 40 {
      assert img[b] == img[36..40][b - 36];
    } else if b == 47 {
      assert img[b] == img[47..48][0];
    } else if b < 92 {
      assert img[b] == img[52..92][b - 52];
    } else {
      assert img[b] == img[92..96][b - 92];
    }
  }

  /** The header at byte 32 of every file the tool writes: signature, version 1.6, table offset, number of
      blocks, header size and total size; the rest is zero but for the checksum at 49, which makes the 64
      bytes add up to 255 modulo 256. */
  lemma HeaderInFile(quick: seq<byte>, bs: seq<Block>)
    requires Packable(quick, bs)
    ensures var img := PackedImage(quick, bs);
            && |img| == 32 + TotalSize(bs) && 96 <= |img|
            && Get32(img, 32) == 0x4243_4443 && Get16(img, 40) == 1 && Get16(img, 42) == 6
            && Get16(img, 44) == 64 && img[46] == |bs| && img[48] == 64 && Get16(img, 50) == TotalSize(bs)
            && Sum(img[32..96]) % 0x100 == 0xFF
            && forall b :: 36 <= b < 40 || b == 47 || 52 <= b < 96 ==> img[b] == 0
  {
    var m := FrontFound(quick, bs);
    var img := PackedImage(quick, bs);
    HeaderReads(img, |bs|, TotalSize(bs));
    HeaderChecks(|bs|, TotalSize(bs));
    HeaderZeros(img, |bs|, TotalSize(bs));
    forall b | 36 <= b < 40 || b == 47 || 52 <= b < 96
      ensures img[b] == 0
    {
      ZeroBytes(img, b);
    }
  }

  /** Row i of the table at byte 96: the id of block i and its offset, both as 16-bit numbers. */
  lemma RowInFile(quick: seq<byte>, bs: seq<Block>, i: nat)
    requires Packable(quick, bs) && i < |bs|
    ensures 96 + 4 * i + 4 <= |PackedImage(quick, bs)|
    ensures Get16(PackedImage(quick, bs), 96 + 4 * i) == bs[i].guid
    ensures Get16(PackedImage(quick, bs), 96 + 4 * i + 2) == BlockOffset(bs, i)
  {
    var m := FrontFound(quick, bs);
    RowReads(PackedImage(quick, bs), 96, bs, i);
  }

  lemma AfterRows(img: seq<byte>, rows: seq<byte>, pad: nat, b: nat)
    requires 96 + |rows| + pad <= |img| && img[96..96 + |rows| + pad] == rows + Fill(pad, 0)
    requires 96 + |rows| <= b < 96 + |rows| + pad
    ensures img[b] == 0
  {
    assert img[b] == img[96..96 + |rows| + pad][b - 96];
  }

  lemma BehindTable(img: seq<byte>, bs: seq<Block>, b: nat)
    requires AllSound(bs) && TotalSize(bs) < CURSOR_LIMIT && TableIn(img, 96, bs)
    requires 96 + 4 * |bs| <= b < 96 + TableSize(|bs|)
    ensures b < |img| && img[b] == 0
  {
    AfterRows(img, Rows(bs, |bs|), TableSize(|bs|) - 4 * |bs|, b);
  }

  /** Behind the rows there are zeros up to the first block. */
  lemma RowsEndInFile(quick: seq<byte>, bs: seq<Block>, b: nat)
    requires Packable(quick, bs) && 96 + 4 * |bs| <= b < 32 + BlockOffset(bs, 0)
    ensures b < |PackedImage(quick, bs)| && PackedImage(quick, bs)[b] == 0
  {
    var m := FrontFound(quick, bs);
    BehindTable(PackedImage(quick, bs), bs, b);
  }

  // ----- the blocks -----

  lemma ReachedBefore(bs: seq<Block>, m: nat, i: nat)
    requires AllSound(bs) && ReachedTo(bs, m) && i < |bs| && 32 + BlockOffset(bs, i) < 0x1_0000
    ensures i < m
  {
    if m <= i {
      OffsetsGrow(bs, m, i);
    }
  }

  lemma RegionByteIs(img: seq<byte>, offset: nat, s: seq<byte>, b: nat)
    requires Sound(s) && RegionIn(img, offset, s) && b < Align16(Size(s))
    ensures 32 + offset + b < |img| && img[32 + offset + b] == if b < Size(s) then s[b] else 0
  {
    var at := 32 + offset;
    assert img[at..at + Align16(Size(s))][b] == Padded(s)[b];
  }

  lemma PlaceFound(quick: seq<byte>, bs: seq<Block>, i: nat)
    requires Packable(quick, bs) && i < |bs| && 32 + BlockOffset(bs, i) < 0x1_0000
    ensures RegionIn(PackedImage(quick, bs), BlockOffset(bs, i), bs[i].bytes)
  {
    var m := FrontFound(quick, bs);
    ReachedBefore(bs, m, i);
  }

  lemma PaddedInFile(quick: seq<byte>, bs: seq<Block>, i: nat, b: nat)
    requires Packable(quick, bs) && i < |bs| && 32 + BlockOffset(bs, i) < 0x1_0000 && b < Align16(Size(bs[i].bytes))
    ensures 32 + BlockOffset(bs, i) + b < |PackedImage(quick, bs)|
    ensures PackedImage(quick, bs)[32 + BlockOffset(bs, i) + b] == if b < Size(bs[i].bytes) then bs[i].bytes[b] else 0
  {
    PlaceFound(quick, bs, i);
    RegionByteIs(PackedImage(quick, bs), BlockOffset(bs, i), bs[i].bytes, b);
  }

  /** A block whose place the copying cursor reaches: its bytes up to its size, then zeros up to a multiple
      of 16. */
  lemma BlockInFile(quick: seq<byte>, bs: seq<Block>, i: nat, b: nat)
    requires Packable(quick, bs) && i < |bs| && 32 + BlockOffset(bs, i) < 0x1_0000
    requires b < (Get16(bs[i].bytes, 8) + 15) / 16 * 16
    ensures 32 + BlockOffset(bs, i) + b < |PackedImage(quick, bs)|
    ensures PackedImage(quick, bs)[32 + BlockOffset(bs, i) + b] ==
            if b < Get16(bs[i].bytes, 8) then bs[i].bytes[b] else 0
  {
    AlignInNumbers(Size(bs[i].bytes));
    PaddedInFile(quick, bs, i, b);
  }

  // ----- the quick config -----

  /** No block that is not empty is out of the copying cursor's reach. */
  ghost predicate NothingWraps(bs: seq<Block>, j: nat)
    requires AllSound(bs) && j <= |bs|
  {
    forall k :: 0 <= k < j ==> 32 + BlockOffset(bs, k) < 0x1_0000 || Size(bs[k].bytes) == 0
  }

  lemma {:induction false} QuickStays(quick: seq<byte>, bs: seq<Block>, j: nat)
    requires Packable(quick, bs) && j <= |bs| && NothingWraps(bs, j)
    ensures QuickIn(Copied(quick, bs, j).buf, quick)
  {
    if j == 0 {
      OpenedQuick(quick, bs);
    } else {
      var i := j - 1;
      QuickStays(quick, bs, i);
      CursorFits(quick, bs, i);
      OffsetsGrow(bs, 0, i);
      QuickKept(Copied(quick, bs, i), bs[i], Copied(quick, bs, j), quick);
    }
  }

  lemma QuickBehind(quick: seq<byte>, bs: seq<Block>, b: nat)
    requires Packable(quick, bs) && 16 <= b < 32
    ensures PackedImage(quick, bs)[b] == quick[b]
  {
    var m := FirstUnreached(bs);
    PackedFrom16(quick, bs, m);
    assert PackedImage(quick, bs)[b] == Upto(quick, bs, m)[b] == Before(quick, bs, m)[b];
  }

  lemma HashAside(quick: seq<byte>, bs: seq<Block>, b: nat)
    requires Packable(quick, bs) && b < |PackedImage(quick, bs)| && !(12 <= b < 16)
    ensures PackedImage(quick, bs)[b] == Copied(quick, bs, |bs|).buf[b]
  {
  }

  /** If nothing wraps, the file begins with the quick config but for the four bytes of the hash. */
  lemma QuickInFile(quick: seq<byte>, bs: seq<Block>, b: nat)
    requires Packable(quick, bs) && NothingWraps(bs, |bs|) && b < 32 && !(12 <= b < 16)
    ensures PackedImage(quick, bs)[b] == quick[b]
  {
    if b < 16 {
      QuickStays(quick, bs, |bs|);
      HashAside(quick, bs, b);
    } else {
      QuickBehind(quick, bs, b);
    }
  }

  lemma CopyAtStart(p: Pass, b: Block, q: Pass, quick: seq<byte>, i: nat)
    requires Next(p, b, q) && p.cursor == 0 && QuickIn(p.buf, quick) && Size(b.bytes) <= 16 && i < 16
    ensures i < |q.buf| && q.buf[i] == if i < Size(b.bytes) then b.bytes[i] else quick[i]
  {
  }

  lemma CopyOfNothing(p: Pass, b: Block, q: Pass)
    requires Next(p, b, q) && Size(b.bytes) == 0
    ensures q.buf == p.buf
  {
  }

  lemma EmptyFollows(bs: seq<Block>, k: nat, i: nat)
    requires AllSound(bs) && TotalSize(bs) < 0x1_0000 && k < i < |bs|
    requires 32 + BlockOffset(bs, k) >= 0x1_0000 && Size(bs[k].bytes) > 0
    ensures Size(bs[i].bytes) == 0
  {
    OnlyOneWraps(bs, k, i);
    OffsetsGrow(bs, k, i);
  }

  lemma FollowingEmpty(quick: seq<byte>, bs: seq<Block>, k: nat, i: nat, j: nat)
    requires Packable(quick, bs) && k < i < |bs| && j == i + 1
    requires 32 + BlockOffset(bs, k) >= 0x1_0000 && Size(bs[k].bytes) > 0
    ensures Copied(quick, bs, j).buf == Copied(quick, bs, i).buf
  {
    EmptyFollows(bs, k, i);
    CursorFits(quick, bs, i);
    CopyOfNothing(Copied(quick, bs, i), bs[i], Copied(quick, bs, j));
  }

  lemma {:induction false} NothingFollows(quick: seq<byte>, bs: seq<Block>, k: nat, h: nat, j: nat)
    requires Packable(quick, bs) && h == k + 1 && h <= j <= |bs|
    requires 32 + BlockOffset(bs, k) >= 0x1_0000 && Size(bs[k].bytes) > 0
    ensures Copied(quick, bs, j).buf == Copied(quick, bs, h).buf
    decreases j
  {
    if j == h {
    } else {
      var i := j - 1;
      NothingFollows(quick, bs, k, h, i);
      FollowingEmpty(quick, bs, k, i, j);
    }
  }

  lemma WrappedCopy(quick: seq<byte>, bs: seq<Block>, k: nat, j: nat, b: nat)
    requires Packable(quick, bs) && k < |bs| && j == k + 1 && b < 16
    requires 32 + BlockOffset(bs, k) == 0x1_0000 && Size(bs[k].bytes) <= 16
    ensures Copied(quick, bs, j).buf[b] == if b < Size(bs[k].bytes) then bs[k].bytes[b] else quick[b]
  {
    CopiedQuick(quick, bs, k);
    CursorFits(quick, bs, k);
    CopyAtStart(Copied(quick, bs, k), bs[k], Copied(quick, bs, j), quick, b);
  }

  lemma WrappedStart(quick: seq<byte>, bs: seq<Block>, k: nat, b: nat)
    requires Packable(quick, bs) && k < |bs| && 32 + BlockOffset(bs, k) >= 0x1_0000 && Size(bs[k].bytes) > 0
    requires b < 16 && !(12 <= b < 16)
    ensures PackedImage(quick, bs)[b] == if b < Size(bs[k].bytes) then bs[k].bytes[b] else quick[b]
  {
    WrappedPlace(bs, k);
    WrappedCopy(quick, bs, k, k + 1, b);
    NothingFollows(quick, bs, k, k + 1, |bs|);
    HashAside(quick, bs, b);
  }

  /** If a block wraps, its bytes, 16 at most, are on top of the quick config. */
  lemma WrappedInFile(quick: seq<byte>, bs: seq<Block>, k: nat, b: nat)
    requires Packable(quick, bs) && k < |bs| && 32 + BlockOffset(bs, k) >= 0x1_0000 && Size(bs[k].bytes) > 0
    requires b < 32 && !(12 <= b < 16)
    ensures Size(bs[k].bytes) <= 16
    ensures PackedImage(quick, bs)[b] == if b < Size(bs[k].bytes) then bs[k].bytes[b] else quick[b]
  {
    WrappedPlace(bs, k);
    if b < 16 {
      WrappedStart(quick, bs, k, b);
    } else {
      QuickBehind(quick, bs, b);
    }
  }

  // ----- the hash -----

  /** The hash of a byte string from hash h: 33 times the hash before, plus the byte, modulo 2^32. */
  lemma RunInNumbers(h: word, s: seq<byte>, b: byte)
    ensures Run(h, []) == h
    ensures Run(h, s + [b]) == (33 * (Run(h, s) as int) + b) % 0x1_0000_0000
  {
    RunStep(h, s, b);
  }

  /** The running hash starts at zero, and only blocks with id 0x1002 move it; from zero it starts over
      at 5381. */
  lemma ListHashInNumbers(ws: seq<Block>, i: nat)
    requires i < |ws|
    ensures ListHash(ws, 0) == 0
    ensures ws[i].guid != 0x1002 ==> ListHash(ws, i + 1) == ListHash(ws, i)
    ensures ws[i].guid == 0x1002 ==>
              ListHash(ws, i + 1) == Run(if ListHash(ws, i) == 0 then 5381 else ListHash(ws, i), ws[i].bytes)
  {
  }

  lemma PaddedIs(b: seq<byte>, n: nat, room: nat)
    requires Sound(b) && n == Size(b) && room == Align16(n)
    ensures Padded(b) == b[..n] + Fill(room - n, 0)
  {
  }

  /** What is hashed of a block in reach: its bytes up to its size, then zeros up to a multiple of 16. */
  lemma ReachedWindow(quick: seq<byte>, bs: seq<Block>, k: nat, n: nat, room: nat)
    requires Packable(quick, bs) && k < |bs| && 32 + BlockOffset(bs, k) < 0x1_0000
    requires n == Get16(bs[k].bytes, 8) && room == (n + 15) / 16 * 16
    ensures n <= room && Windows(quick, bs)[k] == Block(bs[k].guid, bs[k].bytes[..n] + Fill(room - n, 0))
  {
    AlignInNumbers(n);
    WindowOrPadded(quick, bs, k);
    PaddedIs(bs[k].bytes, n, room);
  }

  /** And of one that wraps: its bytes, then the quick config from there up to byte 16. */
  lemma WrappedWindowIs(quick: seq<byte>, bs: seq<Block>, k: nat, n: nat)
    requires Packable(quick, bs) && k < |bs| && 32 + BlockOffset(bs, k) >= 0x1_0000
    requires n == Get16(bs[k].bytes, 8) && n > 0
    ensures n <= 16 && Windows(quick, bs)[k] == Block(bs[k].guid, bs[k].bytes[..n] + quick[n..16])
  {
    WrappedBytes(quick, bs, k);
  }
}
