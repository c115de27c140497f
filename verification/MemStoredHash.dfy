/** The hash the tool stores at the front of the image, for every list it packs. */
module MemStoredHash {
  import opened Bytes
  import opened SumDetection
  import opened DjbHash
  import opened MemImage
  import opened MemLayout
  import opened MemTiling
  import opened MemBoundary
  import opened MemFeatHash

  // ----- what is hashed -----

  /** What stands in the buffer behind the copied part of block k when it is hashed, up to the aligned
      size: zeros, or bytes of the quick config if the wrapped cursor has put the block there. */
  function Tail(quick: seq<byte>, bs: seq<Block>, k: nat): seq<byte>
    requires |quick| == QUICK_SIZE && AllSound(bs) && k < |bs|
  {
    var n := Size(bs[k].bytes);
    if QUICK_SIZE + BlockOffset(bs, k) < CURSOR_LIMIT then Fill(Align16(n) - n, 0)
    else if 0 < n <= 16 then quick[n..16]
    else []
  }

  /** For each block the bytes the tool hashes. */
  function Windows(quick: seq<byte>, bs: seq<Block>): (ws: seq<Block>)
    requires |quick| == QUICK_SIZE && AllSound(bs)
    ensures |ws| == |bs|
    ensures forall k :: 0 <= k < |bs| ==> ws[k] == Block(bs[k].guid, Content(bs[k].bytes) + Tail(quick, bs, k))
  {
    seq(|bs|, k requires 0 <= k < |bs| => Block(bs[k].guid, Content(bs[k].bytes) + Tail(quick, bs, k)))
  }

  /** For each block the bytes it is intended to hash: padded with zeros. */
  function PaddedList(bs: seq<Block>): (ws: seq<Block>)
    requires AllSound(bs)
    ensures |ws| == |bs|
    ensures forall k :: 0 <= k < |bs| ==> ws[k] == Block(bs[k].guid, Padded(bs[k].bytes))
  {
    seq(|bs|, k requires 0 <= k < |bs| => Block(bs[k].guid, Padded(bs[k].bytes)))
  }

  /** The feature hash of the intended image. */
  lemma {:induction false} IntendedHash(bs: seq<Block>, i: nat)
    requires AllSound(bs) && i <= |bs|
    ensures FeatHash(bs, i) == ListHash(PaddedList(bs), i)
  {
    if i == 0 {
    } else {
      IntendedHash(bs, i - 1);
      assert PaddedList(bs)[i - 1] == Block(bs[i - 1].guid, Padded(bs[i - 1].bytes));
    }
  }

  // ----- the quick config while the blocks are copied -----

  ghost predicate QuickIn(buf: seq<byte>, quick: seq<byte>) {
    16 <= |buf| && 16 <= |quick| && forall i :: 0 <= i < 16 ==> buf[i] == quick[i]
  }

  lemma OpenedQuick(quick: seq<byte>, bs: seq<Block>)
    requires Packable(quick, bs)
    ensures QuickIn(Opened(quick, bs).buf, quick)
  {
  }

  /** A copy that starts behind byte 16, or copies nothing, leaves those bytes. */
  lemma QuickKept(p: Pass, b: Block, q: Pass, quick: seq<byte>)
    requires Next(p, b, q) && QuickIn(p.buf, quick) && (16 <= p.cursor || Size(b.bytes) == 0)
    ensures QuickIn(q.buf, quick)
  {
  }

  /** A block before the last place out of reach is in reach or empty. */
  lemma ReachedOrEmpty(bs: seq<Block>, i: nat, j: nat)
    requires AllSound(bs) && i < |bs| && j == i + 1 && QUICK_SIZE + BlockOffset(bs, j) <= CURSOR_LIMIT
    ensures QUICK_SIZE + BlockOffset(bs, i) < CURSOR_LIMIT || Size(bs[i].bytes) == 0
    ensures QUICK_SIZE + BlockOffset(bs, i) <= CURSOR_LIMIT
  {
    assert BlockOffset(bs, j) == BlockOffset(bs, i) + Align16(Size(bs[i].bytes));
  }

  /** Until the first copy out of reach the buffer begins with the quick config. */
  lemma {:induction false} CopiedQuick(quick: seq<byte>, bs: seq<Block>, j: nat)
    requires Packable(quick, bs) && j <= |bs| && QUICK_SIZE + BlockOffset(bs, j) <= CURSOR_LIMIT
    ensures QuickIn(Copied(quick, bs, j).buf, quick)
  {
    if j == 0 {
      OpenedQuick(quick, bs);
    } else {
      var i := j - 1;
      ReachedOrEmpty(bs, i, j);
      CopiedQuick(quick, bs, i);
      CursorFits(quick, bs, i);
      QuickKept(Copied(quick, bs, i), bs[i], Copied(quick, bs, j), quick);
    }
  }

  // ----- the running hash of the copying pass -----

  /** The hash of one step, given what the buffer holds behind the copied part. */
  lemma HashOfCopy(p: Pass, b: Block, q: Pass, tail: seq<byte>)
    requires Next(p, b, q) && Size(b.bytes) + |tail| == Align16(Size(b.bytes))
    requires p.buf[p.cursor + Size(b.bytes)..p.cursor + Size(b.bytes) + |tail|] == tail
    ensures q.hash == if b.guid == FEATURE_GUID then Djb(p.hash, Content(b.bytes) + tail) else p.hash
  {
    var n, c := Size(b.bytes), p.cursor;
    var buf := Splice(p.buf, c, Content(b.bytes));
    var x, y := buf[c..c + Align16(n)], Content(b.bytes) + tail;
    forall i | 0 <= i < |x|
      ensures x[i] == y[i]
    {
      if i >= n {
        assert tail[i - n] == p.buf[c + n..c + n + |tail|][i - n];
      }
    }
    assert x == y;
  }

  lemma EarlierReached(bs: seq<Block>, k: nat)
    requires AllSound(bs) && k < |bs| && QUICK_SIZE + BlockOffset(bs, k) < CURSOR_LIMIT
    ensures CursorReaches(bs, k)
  {
    forall m | 0 <= m < k
      ensures QUICK_SIZE + BlockOffset(bs, m) < CURSOR_LIMIT
    {
      OffsetsGrow(bs, m, k);
    }
  }

  lemma ZerosBehind(front: seq<byte>, rest: nat, n: nat, m: nat)
    requires n + m <= rest
    ensures (front + Fill(rest, 0))[|front| + n..|front| + n + m] == Fill(m, 0)
  {
  }

  /** Behind a block in reach there are zeros. */
  lemma ReachedTail(quick: seq<byte>, bs: seq<Block>, k: nat)
    requires Packable(quick, bs) && k < |bs| && QUICK_SIZE + BlockOffset(bs, k) < CURSOR_LIMIT
    ensures TailIn(quick, bs, k, Copied(quick, bs, k))
  {
    var n := Size(bs[k].bytes);
    OffsetsGrow(bs, k, |bs|);
    EarlierReached(bs, k);
    CopiedTiles(quick, bs, k);
    ZerosBehind(Before(quick, bs, k), TotalSize(bs) - BlockOffset(bs, k), n, Align16(n) - n);
  }

  /** The tail of block k is what stands behind its place in the buffer. */
  ghost predicate TailIn(quick: seq<byte>, bs: seq<Block>, k: nat, p: Pass)
    requires |quick| == QUICK_SIZE && AllSound(bs) && k < |bs|
  {
    var n, tail := Size(bs[k].bytes), Tail(quick, bs, k);
    && n + |tail| == Align16(n)
    && p.cursor + n + |tail| <= |p.buf|
    && p.buf[p.cursor + n..p.cursor + n + |tail|] == tail
  }

  lemma AlignedSixteen(n: nat)
    requires 0 < n <= 16
    ensures Align16(n) == 16
  {
  }

  /** Where a block out of reach is copied to: the start of the buffer, unless it is empty. */
  lemma WrappedPlace(bs: seq<Block>, k: nat)
    requires AllSound(bs) && TotalSize(bs) < CURSOR_LIMIT && k < |bs| && QUICK_SIZE + BlockOffset(bs, k) >= CURSOR_LIMIT
    ensures Size(bs[k].bytes) <= 16
    ensures 0 < Size(bs[k].bytes) ==> QUICK_SIZE + BlockOffset(bs, k) == CURSOR_LIMIT
    ensures 0 < Size(bs[k].bytes) ==> BlockOffset(bs, k) + 16 == TotalSize(bs)
  {
    OffsetsGrow(bs, k, |bs|);
    OffsetsAligned(bs, k);
    OffsetsAligned(bs, |bs|);
    if 0 < Size(bs[k].bytes) {
      LastSixteen(BlockOffset(bs, k), Size(bs[k].bytes), Align16(Size(bs[k].bytes)), TotalSize(bs));
    } else {
      assert Align16(0) == 0;
    }
  }

  lemma QuickSlice(buf: seq<byte>, quick: seq<byte>, n: nat)
    requires QuickIn(buf, quick) && n <= 16
    ensures buf[n..16] == quick[n..16]
  {
  }

  /** Behind a block out of reach there are bytes of the quick config. */
  lemma WrappedTail(quick: seq<byte>, bs: seq<Block>, k: nat)
    requires Packable(quick, bs) && k < |bs| && QUICK_SIZE + BlockOffset(bs, k) >= CURSOR_LIMIT
    ensures TailIn(quick, bs, k, Copied(quick, bs, k))
  {
    var n, p := Size(bs[k].bytes), Copied(quick, bs, k);
    WrappedPlace(bs, k);
    CursorFits(quick, bs, k);
    if 0 < n {
      AlignedSixteen(n);
      CopiedQuick(quick, bs, k);
      QuickSlice(p.buf, quick, n);
    } else {
      assert Align16(0) == 0;
    }
  }

  lemma CopiedTail(quick: seq<byte>, bs: seq<Block>, k: nat)
    requires Packable(quick, bs) && k < |bs|
    ensures TailIn(quick, bs, k, Copied(quick, bs, k))
  {
    if QUICK_SIZE + BlockOffset(bs, k) < CURSOR_LIMIT {
      ReachedTail(quick, bs, k);
    } else {
      WrappedTail(quick, bs, k);
    }
  }

  /** One round of the pass: its hash is that of the block's window. */
  lemma CopyHashes(quick: seq<byte>, bs: seq<Block>, i: nat, j: nat, w: Block)
    requires Packable(quick, bs) && i < |bs| && j == i + 1
    requires w == Block(bs[i].guid, Content(bs[i].bytes) + Tail(quick, bs, i))
    ensures var h := Copied(quick, bs, i).hash;
            Copied(quick, bs, j).hash == if w.guid == FEATURE_GUID then Djb(h, w.bytes) else h
  {
    CopiedTail(quick, bs, i);
    CursorFits(quick, bs, i);
    HashOfCopy(Copied(quick, bs, i), bs[i], Copied(quick, bs, j), Tail(quick, bs, i));
  }

  /** A list of hashes that follows the windows one by one is their running hash. */
  lemma FollowsWindows(ws: seq<Block>, i: nat, j: nat, g: word, h: word)
    requires i < |ws| && j == i + 1 && g == ListHash(ws, i)
    requires h == if ws[i].guid == FEATURE_GUID then Djb(g, ws[i].bytes) else g
    ensures h == ListHash(ws, j)
  {
  }

  /** The running hash of the copying pass is that of the windows, wrapped copies included. */
  lemma {:induction false} CopiedHash(quick: seq<byte>, bs: seq<Block>, ws: seq<Block>, j: nat)
    requires Packable(quick, bs) && ws == Windows(quick, bs) && j <= |bs|
    ensures Copied(quick, bs, j).hash == ListHash(ws, j)
  {
    if j == 0 {
    } else {
      var i := j - 1;
      CopiedHash(quick, bs, ws, i);
      CopyHashes(quick, bs, i, j, ws[i]);
      FollowsWindows(ws, i, j, Copied(quick, bs, i).hash, Copied(quick, bs, j).hash);
    }
  }

  lemma StoredWord(s: seq<byte>, v: word)
    requires FEAT_HASH_AT + 4 <= |s|
    ensures Get32(Splice(s, FEAT_HASH_AT, Le32(v)), FEAT_HASH_AT) == v
  {
    var t := Splice(s, FEAT_HASH_AT, Le32(v));
    assert t[FEAT_HASH_AT..FEAT_HASH_AT + 4] == Le32(v);
    Le32RoundTrip(t, FEAT_HASH_AT, v);
  }

  /** The word the tool stores at the front of the image, for every list it packs. */
  lemma StoredHash(quick: seq<byte>, bs: seq<Block>)
    requires Packable(quick, bs)
    ensures Get32(PackedImage(quick, bs), 12) == ListHash(Windows(quick, bs), |bs|)
  {
    CopiedHash(quick, bs, Windows(quick, bs), |bs|);
    var p := Copied(quick, bs, |bs|);
    StoredWord(p.buf, p.hash);
  }

  /** What that word means: zero without a feature block since the running hash was last zero,
      otherwise the hash from 5381 of all bytes hashed since then, one after the other. */
  lemma StoredMeaning(quick: seq<byte>, bs: seq<Block>)
    requires Packable(quick, bs)
    ensures var ws := Windows(quick, bs);
            var from := LastZero(ws, |ws|);
            && ZeroLast(ws, from, |ws|)
            && Get32(PackedImage(quick, bs), FEAT_HASH_AT) ==
               if NoFeature(ws, from, |ws|) then 0 else Run(SEED, Features(ws, from, |ws|))
  {
    StoredHash(quick, bs);
    FeatHashMeaning(Windows(quick, bs), |bs|);
  }

  // ----- when it is the intended hash -----

  /** Block k is a feature block out of the copying cursor's reach, and the bytes of the quick config
      behind it are not worth zero in the hash. */
  ghost predicate Spoiled(quick: seq<byte>, bs: seq<Block>, k: nat)
    requires |quick| == QUICK_SIZE && AllSound(bs)
  {
    && k < |bs| && bs[k].guid == FEATURE_GUID && QUICK_SIZE + BlockOffset(bs, k) >= CURSOR_LIMIT
    && 0 < Size(bs[k].bytes) <= 16 && Base33(quick[Size(bs[k].bytes)..16]) % M32 != 0
  }

  lemma {:induction false} ZerosWorthNothing(n: nat)
    ensures Base33(Fill(n, 0)) == 0
  {
    if n == 0 {
    } else {
      ZerosWorthNothing(n - 1);
      assert Fill(n, 0)[1..] == Fill(n - 1, 0);
    }
  }

  lemma TailWorth(g: word, tail: seq<byte>, z: seq<byte>)
    requires z == Fill(|tail|, 0)
    ensures Run(g, tail) == Run(g, z) <==> Base33(tail) % M32 == 0
  {
    ClosedForm(g, tail);
    ClosedForm(g, z);
    ZerosWorthNothing(|tail|);
    var top := (g as int) * Pow33(|tail|);
    EqualResidues(top + Base33(tail), top);
  }

  /** Some bytes instead of as many zeros: the hash is the same exactly when they are worth zero. */
  lemma TailMatters(h: word, x: seq<byte>, y: seq<byte>, s: seq<byte>, tail: seq<byte>, z: seq<byte>)
    requires z == Fill(|tail|, 0) && x == s + tail && y == s + z
    ensures Run(h, x) == Run(h, y) <==> Base33(tail) % M32 == 0
  {
    RunAppend(h, s, tail);
    RunAppend(h, s, z);
    TailWorth(Run(h, s), tail, z);
  }

  /** Every other window is the padded block, or hashes like it. */
  lemma WindowOrPadded(quick: seq<byte>, bs: seq<Block>, k: nat)
    requires Packable(quick, bs) && k < |bs|
    requires QUICK_SIZE + BlockOffset(bs, k) < CURSOR_LIMIT || Size(bs[k].bytes) == 0
    ensures Windows(quick, bs)[k] == PaddedList(bs)[k]
  {
    assert Align16(0) == 0;
    assert Windows(quick, bs)[k].bytes == Padded(bs[k].bytes);
  }

  lemma OthersPadded(quick: seq<byte>, bs: seq<Block>, k: nat)
    requires Packable(quick, bs) && k < |bs| && QUICK_SIZE + BlockOffset(bs, k) >= CURSOR_LIMIT && 0 < Size(bs[k].bytes)
    ensures SameBut(Windows(quick, bs), PaddedList(bs), k)
  {
    forall m | 0 <= m < |bs| && m != k
      ensures Windows(quick, bs)[m] == PaddedList(bs)[m]
    {
      OnlyOneWraps(bs, k, m);
      WindowOrPadded(quick, bs, m);
    }
  }

  /** At most one block that is not empty is out of reach. */
  lemma OnlyOneWraps(bs: seq<Block>, k: nat, m: nat)
    requires AllSound(bs) && TotalSize(bs) < CURSOR_LIMIT && k < |bs| && m < |bs| && m != k
    requires QUICK_SIZE + BlockOffset(bs, k) >= CURSOR_LIMIT && 0 < Size(bs[k].bytes)
    ensures QUICK_SIZE + BlockOffset(bs, m) < CURSOR_LIMIT || Size(bs[m].bytes) == 0
  {
    WrappedPlace(bs, k);
    OffsetsGrow(bs, k, |bs|);
    OffsetsGrow(bs, m, |bs|);
    if m < k {
      OffsetsGrow(bs, m, k);
    } else {
      OffsetsGrow(bs, k, m);
    }
  }

  lemma WrappedBytes(quick: seq<byte>, bs: seq<Block>, k: nat)
    requires Packable(quick, bs) && k < |bs| && QUICK_SIZE + BlockOffset(bs, k) >= CURSOR_LIMIT && 0 < Size(bs[k].bytes)
    ensures var n := Size(bs[k].bytes);
            && n <= 16
            && Windows(quick, bs)[k].bytes == Content(bs[k].bytes) + quick[n..16]
            && PaddedList(bs)[k].bytes == Content(bs[k].bytes) + Fill(16 - n, 0)
  {
    WrappedPlace(bs, k);
    AlignedSixteen(Size(bs[k].bytes));
  }

  lemma WrappedWindow(quick: seq<byte>, bs: seq<Block>, k: nat, h: word)
    requires Packable(quick, bs) && k < |bs| && QUICK_SIZE + BlockOffset(bs, k) >= CURSOR_LIMIT && 0 < Size(bs[k].bytes)
    ensures Size(bs[k].bytes) <= 16
    ensures Run(h, Windows(quick, bs)[k].bytes) == Run(h, PaddedList(bs)[k].bytes) <==>
            Base33(quick[Size(bs[k].bytes)..16]) % M32 == 0
  {
    WrappedBytes(quick, bs, k);
    var n := Size(bs[k].bytes);
    TailMatters(h, Windows(quick, bs)[k].bytes, PaddedList(bs)[k].bytes, Content(bs[k].bytes),
                quick[n..16], Fill(16 - n, 0));
  }

  /** Without a spoiled block the final hashes agree. */
  lemma NothingSpoiled(quick: seq<byte>, bs: seq<Block>)
    requires Packable(quick, bs) && forall k: nat :: !Spoiled(quick, bs, k)
    ensures ListHash(Windows(quick, bs), |bs|) == ListHash(PaddedList(bs), |bs|)
  {
    forall k | 0 <= k < |bs|
      ensures SameWorth(Windows(quick, bs)[k], PaddedList(bs)[k])
    {
      if QUICK_SIZE + BlockOffset(bs, k) < CURSOR_LIMIT || Size(bs[k].bytes) == 0 {
        WindowOrPadded(quick, bs, k);
      } else {
        WindowWorth(quick, bs, k);
      }
    }
    SameWorthSameHash(Windows(quick, bs), PaddedList(bs), |bs|);
  }

  /** Two blocks that the hash cannot tell apart, from any start. */
  ghost predicate SameWorth(a: Block, b: Block) {
    a.guid == b.guid && (a.guid == FEATURE_GUID ==> forall h: word :: Run(h, a.bytes) == Run(h, b.bytes))
  }

  lemma WindowWorth(quick: seq<byte>, bs: seq<Block>, k: nat)
    requires Packable(quick, bs) && k < |bs| && !Spoiled(quick, bs, k)
    requires QUICK_SIZE + BlockOffset(bs, k) >= CURSOR_LIMIT && 0 < Size(bs[k].bytes)
    ensures SameWorth(Windows(quick, bs)[k], PaddedList(bs)[k])
  {
    forall h: word
      ensures bs[k].guid == FEATURE_GUID ==> Run(h, Windows(quick, bs)[k].bytes) == Run(h, PaddedList(bs)[k].bytes)
    {
      WrappedWindow(quick, bs, k, h);
    }
  }

  lemma {:induction false} SameWorthSameHash(ws: seq<Block>, vs: seq<Block>, i: nat)
    requires i <= |ws| && i <= |vs| && forall k :: 0 <= k < i ==> SameWorth(ws[k], vs[k])
    ensures ListHash(ws, i) == ListHash(vs, i)
  {
    if i == 0 {
    } else {
      SameWorthSameHash(ws, vs, i - 1);
      assert SameWorth(ws[i - 1], vs[i - 1]);
    }
  }

  /** A spoiled block spoils the final hash, unless the difference disappears in an empty feature
      block behind it. */
  lemma SpoiledHash(quick: seq<byte>, bs: seq<Block>, k: nat)
    requires Packable(quick, bs) && Spoiled(quick, bs, k)
    ensures ListHash(Windows(quick, bs), |bs|) == ListHash(PaddedList(bs), |bs|) <==>
            Merges(Windows(quick, bs), PaddedList(bs), k + 1, |bs|)
  {
    OthersPadded(quick, bs, k);
    WrappedWindow(quick, bs, k, Restart(ListHash(Windows(quick, bs), k)));
    DifferenceEnds(Windows(quick, bs), PaddedList(bs), k);
  }

  /** Exactly when the stored word is the intended hash, for blocks of any size: no feature block out of
      reach finds bytes of the quick config behind it that are worth more than zeros, or the difference
      that makes disappears again. */
  lemma StoredIsIntended(quick: seq<byte>, bs: seq<Block>)
    requires Packable(quick, bs)
    ensures Get32(PackedImage(quick, bs), FEAT_HASH_AT) == FeatHash(bs, |bs|) <==>
            forall k: nat :: Spoiled(quick, bs, k) ==> Merges(Windows(quick, bs), PaddedList(bs), k + 1, |bs|)
  {
    StoredHash(quick, bs);
    IntendedHash(bs, |bs|);
    if k: nat :| Spoiled(quick, bs, k) {
      SpoiledHash(quick, bs, k);
      forall m: nat | Spoiled(quick, bs, m)
        ensures m == k
      {
        if m != k {
          OnlyOneWraps(bs, k, m);
        }
      }
    } else {
      NothingSpoiled(quick, bs);
    }
  }

  /** The caller's side of it, for lists a reader can find: the last block is a feature block, out of
      reach, and the bytes of the quick config between its end and byte 16 are not worth zero. */
  ghost predicate SpoiledAtTheEnd(quick: seq<byte>, bs: seq<Block>)
    requires |quick| == QUICK_SIZE && AllSound(bs)
  {
    && ShortBlockAtTheEnd(bs) && bs[|bs| - 1].guid == FEATURE_GUID
    && Base33(quick[Size(bs[|bs| - 1].bytes)..16]) % M32 != 0
  }

  lemma EndSpoiled(quick: seq<byte>, bs: seq<Block>, k: nat)
    requires Packable(quick, bs) && AllMeasured(bs)
    ensures Spoiled(quick, bs, k) <==> SpoiledAtTheEnd(quick, bs) && k == |bs| - 1
  {
    if Spoiled(quick, bs, k) {
      OutOfReach(bs, k);
    }
    if SpoiledAtTheEnd(quick, bs) {
      var last := |bs| - 1;
      AlignedSixteen(Size(bs[last].bytes));
      assert TotalSize(bs) == BlockOffset(bs, last) + 16;
    }
  }

  /** If every size is at least 9: the stored word is the intended hash if and only if the last block
      is not such a one. */
  lemma StoredIsIntendedMeasured(quick: seq<byte>, bs: seq<Block>)
    requires Packable(quick, bs) && AllMeasured(bs)
    ensures Get32(PackedImage(quick, bs), FEAT_HASH_AT) == FeatHash(bs, |bs|) <==> !SpoiledAtTheEnd(quick, bs)
  {
    StoredIsIntended(quick, bs);
    if SpoiledAtTheEnd(quick, bs) {
      EndSpoiled(quick, bs, |bs| - 1);
      assert !Merges(Windows(quick, bs), PaddedList(bs), |bs|, |bs|);
    } else {
      forall k: nat
        ensures !Spoiled(quick, bs, k)
      {
        EndSpoiled(quick, bs, k);
      }
    }
  }

  /** In particular whenever the cursor reaches every block, of whatever size. */
  lemma ReachedIsIntended(quick: seq<byte>, bs: seq<Block>)
    requires Packable(quick, bs) && CursorReaches(bs, |bs|)
    ensures Get32(PackedImage(quick, bs), FEAT_HASH_AT) == FeatHash(bs, |bs|)
  {
    StoredIsIntended(quick, bs);
  }

  // ----- such a list exists -----

  function SpoiledList(): seq<Block> {
    [Block(0x1000, SizedBlock(65424, 65424)), Block(FEATURE_GUID, SizedBlock(16, 9))]
  }

  lemma SpoiledOffsets()
    ensures AllMeasured(SpoiledList()) && TotalSize(SpoiledList()) == CURSOR_LIMIT - 16
    ensures Size(SpoiledList()[1].bytes) == 9
  {
    SizedBlockSize(65424, 65424);
    SizedBlockSize(16, 9);
    AlignIsShift(65424);
    AlignIsShift(9);
    AlignIsShift(8);
    assert BlockOffset(SpoiledList(), 0) == 80;
    assert BlockOffset(SpoiledList(), 1) == 65504;
  }

  lemma SevenOnes()
    ensures Base33(Fill(7, 1)) % M32 != 0
  {
    var s := Fill(7, 1);
    assert s[1..] == Fill(6, 1) && Fill(6, 1)[1..] == Fill(5, 1) && Fill(5, 1)[1..] == Fill(4, 1);
    assert Fill(4, 1)[1..] == Fill(3, 1) && Fill(3, 1)[1..] == Fill(2, 1) && Fill(2, 1)[1..] == Fill(1, 1);
    assert Fill(1, 1)[1..] == [];
    assert Pow33(3) == 35937 && Pow33(6) == 1291467969;
    assert Base33(Fill(3, 1)) == 1123;
    assert Base33(Fill(5, 1)) == 1222981;
    assert Base33(s) == 1331826343;
  }

  /** Two blocks of 65424 and 9 bytes, the second a feature block, over a quick config of ones: the
      stored word is not the intended hash. */
  lemma SpoiledExists() returns (quick: seq<byte>, bs: seq<Block>)
    ensures |quick| == QUICK_SIZE && AllMeasured(bs) && |bs| == 2 && TotalSize(bs) == CURSOR_LIMIT - 16
    ensures Packable(quick, SealAll(bs))
    ensures Get32(PackedImage(quick, SealAll(bs)), FEAT_HASH_AT) != FeatHash(SealAll(bs), 2)
  {
    quick, bs := Fill(QUICK_SIZE, 1), SpoiledList();
    SpoiledOffsets();
    SealShape(bs);
    ShapeKeepsBoundary(bs, SealAll(bs));
    assert SealAll(bs)[1].guid == FEATURE_GUID && Size(SealAll(bs)[1].bytes) == 9;
    SevenOnes();
    assert quick[9..16] == Fill(7, 1);
    StoredIsIntendedMeasured(quick, SealAll(bs));
  }
}
