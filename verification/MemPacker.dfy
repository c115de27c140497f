/** The packing tool itself: two passes over a list of blocks in memory. */
module MemPacker {
  import opened Bytes
  import opened Memory
  import opened Layout
  import opened ByteCheckSum
  import opened DjbHash
  import opened MemImage
  import opened MemLayout
  import opened MemTiling

  /** One line of the block list: an id and a pointer to the block, which may be listed twice. */
  datatype Entry = Entry(guid: half, ptr: array<byte>)

  datatype PackResult = InvalidGuid(index: nat) | Packed(image: seq<byte>)

  ghost predicate Holds(list: seq<Entry>, bs: seq<Block>)
    reads set e | e in list :: e.ptr
  {
    |list| == |bs| && forall i :: 0 <= i < |list| ==> list[i].guid == bs[i].guid && list[i].ptr[..] == bs[i].bytes
  }

  /** The buffers of the first index entries. */
  ghost function Buffers(list: seq<Entry>, index: nat): set<array<byte>>
    requires index <= |list|
  {
    if index == 0 then {} else Buffers(list, index - 1) + {list[index - 1].ptr}
  }

  /** The blocks up to index are sealed; later ones are as before, unless listed earlier too. */
  ghost predicate SealedTo(list: seq<Entry>, bs: seq<Block>, index: nat)
    requires AllSound(bs) && index <= |bs|
    reads set e | e in list :: e.ptr
  {
    && |list| == |bs|
    && (forall i :: 0 <= i < |list| ==> list[i].guid == bs[i].guid)
    && (forall i :: 0 <= i < index ==> list[i].ptr[..] == SealBlock(bs[i].bytes))
    && (forall i :: index <= i < |list| ==> list[i].ptr in Buffers(list, index) || list[i].ptr[..] == bs[i].bytes)
  }

  /** Entries that share a buffer share its contents. */
  ghost predicate SameBufferSameBytes(list: seq<Entry>, bs: seq<Block>) {
    |list| == |bs| &&
    forall i, j :: 0 <= i < |list| && 0 <= j < |list| && list[i].ptr == list[j].ptr ==> bs[i].bytes == bs[j].bytes
  }

  ghost predicate FirstInvalid(bs: seq<Block>, k: nat) {
    && k <= |bs|
    && (forall i :: 0 <= i < k ==> bs[i].guid != 0xFFFF)
    && (k < |bs| ==> bs[k].guid == 0xFFFF)
  }

  /** The checksum of one block, in place; a block that is already sealed stays as it is. */
  method SealInPlace(ptr: array<byte>, ghost b: seq<byte>)
    requires Sound(b) && (ptr[..] == b || ptr[..] == SealBlock(b))
    modifies ptr
    ensures ptr[..] == SealBlock(b)
  {
    SealIdempotent(b);
    ghost var was := ptr[..];
    ptr[CHECKSUM_AT] := 0;
    assert ptr[..] == was[CHECKSUM_AT := 0];
    var size := Get16(ptr[..], 8);
    ptr[CHECKSUM_AT] := GenCheckSum(ptr, size);
    assert ptr[..] == SealBlock(was);
  }

  lemma {:induction false} BufferListed(list: seq<Entry>, index: nat, p: array<byte>) returns (j: nat)
    requires index <= |list| && p in Buffers(list, index)
    ensures j < index && list[j].ptr == p
  {
    if list[index - 1].ptr == p {
      j := index - 1;
    } else {
      j := BufferListed(list, index - 1, p);
    }
  }

  /** A block whose turn it is holds its original bytes, or is sealed because it is listed twice. */
  lemma Sealable(list: seq<Entry>, bs: seq<Block>, index: nat)
    requires AllSound(bs) && index < |bs| && SealedTo(list, bs, index) && SameBufferSameBytes(list, bs)
    ensures list[index].ptr[..] == bs[index].bytes || list[index].ptr[..] == SealBlock(bs[index].bytes)
  {
    if list[index].ptr in Buffers(list, index) {
      var j := BufferListed(list, index, list[index].ptr);
      assert list[j].ptr[..] == SealBlock(bs[j].bytes) && bs[j].bytes == bs[index].bytes;
    }
  }

  /** The block of one entry sealed, and with it every entry that shares its buffer. */
  method SealEntry(list: seq<Entry>, index: nat, ghost before: seq<Block>)
    requires AllSound(before) && index < |before| && SealedTo(list, before, index)
    requires SameBufferSameBytes(list, before)
    modifies list[index].ptr
    ensures SealedTo(list, before, index + 1)
  {
    Sealable(list, before, index);
    SealInPlace(list[index].ptr, before[index].bytes);
    assert Buffers(list, index + 1) == Buffers(list, index) + {list[index].ptr};
    forall i | 0 <= i <= index
      ensures list[i].ptr[..] == SealBlock(before[i].bytes)
    {
      if list[i].ptr == list[index].ptr {
        assert before[i].bytes == before[index].bytes;
      }
    }
  }

  /** One table row stored behind the earlier ones. */
  lemma RowStored(bs: seq<Block>, index: nat, t: seq<byte>, u: seq<byte>)
    requires AllSound(bs) && index < |bs| && BlockOffset(bs, index + 1) < CURSOR_LIMIT
    requires BlockOffset(bs, index) < CURSOR_LIMIT
    requires 4 * |bs| <= |t|
    requires t == Rows(bs, index) + Fill(|t| - 4 * index, 0)
    requires u == Splice(Splice(t, 4 * index, Le16(bs[index].guid)),
                         4 * index + 2, Le16(BlockOffset(bs, index)))
    ensures u == Rows(bs, index + 1) + Fill(|t| - 4 * (index + 1), 0)
  {
    TwoStores(Rows(bs, index), |t| - 4 * index, Le16(bs[index].guid), Le16(BlockOffset(bs, index)));
  }

  lemma TwoStores(rows: seq<byte>, rest: nat, a: seq<byte>, b: seq<byte>)
    requires |a| == 2 && |b| == 2 && 4 <= rest
    ensures Splice(Splice(rows + Fill(rest, 0), |rows|, a), |rows| + 2, b) == (rows + (a + b)) + Fill(rest - 4, 0)
  {
  }

  /** The table row of one entry. */
  method StoreRow(table: array<byte>, index: nat, guid: half, offset: half, ghost before: seq<Block>)
    requires AllSound(before) && index < |before| && guid == before[index].guid
    requires BlockOffset(before, index) == offset && BlockOffset(before, index + 1) < CURSOR_LIMIT
    requires 4 * |before| <= table.Length
    requires table[..] == Rows(before, index) + Fill(table.Length - 4 * index, 0)
    modifies table
    ensures table[..] == Rows(before, index + 1) + Fill(table.Length - 4 * (index + 1), 0)
  {
    ghost var t := table[..];
    Store16(table, 4 * index, guid);
    Store16(table, 4 * index + 2, offset);
    RowStored(before, index, t, table[..]);
  }

  /** Where the first pass stands before entry index. */
  ghost predicate PassState(list: seq<Entry>, table: array<byte>, before: seq<Block>, index: nat, offset: half)
    requires AllSound(before)
    reads table, set e | e in list :: e.ptr
  {
    && index <= |before| && SealedTo(list, before, index)
    && offset == BlockOffset(before, index)
    && table.Length == TableSize(|before|)
    && table[..] == Rows(before, index) + Fill(TableSize(|before|) - 4 * index, 0)
  }

  /** One round of the first pass: a block is sealed and gets its row in the table. */
  method ListBlock(list: seq<Entry>, table: array<byte>, index: nat, offset: half, ghost before: seq<Block>)
    returns (next: half)
    requires AllSound(before) && index < |before| && SameBufferSameBytes(list, before)
    requires PassState(list, table, before, index, offset) && BlockOffset(before, index + 1) < CURSOR_LIMIT
    requires forall e :: e in list ==> e.ptr != table
    modifies table, list[index].ptr
    ensures PassState(list, table, before, index + 1, next)
  {
    SealEntry(list, index, before);
    StoreRow(table, index, list[index].guid, offset, before);
    var size := Get16(list[index].ptr[..], 8);
    assert size == Size(before[index].bytes);
    AlignIsShift(size);
    next := Wrap16(offset + ShiftAlign(size));
  }

  lemma InvalidLater(bs: seq<Block>, bad: nat, index: nat)
    requires AllSound(bs) && FirstInvalid(bs, bad) && index <= bad && index < |bs|
    ensures bs[index].guid == GUID_INVALID <==> index == bad
    ensures bs[index].guid != GUID_INVALID ==> BlockOffset(bs, index + 1) <= BlockOffset(bs, bad)
  {
    if bs[index].guid != GUID_INVALID {
      OffsetsGrow(bs, index + 1, bad);
    }
  }

  /** The first pass: every block is sealed and entered into the table with its 16-bit offset. */
  method FirstPass(list: seq<Entry>, table: array<byte>, offset0: half, ghost before: seq<Block>, ghost bad: nat)
    returns (ok: bool, index: nat, offset: half)
    requires AllSound(before) && SameBufferSameBytes(list, before)
    requires PassState(list, table, before, 0, offset0)
    requires FirstInvalid(before, bad) && BlockOffset(before, bad) < CURSOR_LIMIT
    requires forall e :: e in list ==> e.ptr != table
    modifies table, set e | e in list :: e.ptr
    ensures index == bad && PassState(list, table, before, index, offset)
    ensures ok <==> bad == |before|
  {
    offset := offset0;
    index := 0;
    while index < |list|
      invariant index <= bad && PassState(list, table, before, index, offset)
    {
      InvalidLater(before, bad, index);
      if list[index].guid == GUID_INVALID {
        return false, index, offset;
      }
      offset := ListBlock(list, table, index, offset, before);
      index := index + 1;
    }
    ok := true;
  }

  ghost function InitFields(count: byte): (segs: seq<seq<byte>>)
    ensures Shaped(segs, HEADER_FIELDS)
  {
    Filled(HEADER_FIELDS, 0)[0 := Le32(SIGNATURE)][2 := Le16(MAJOR_VER)][3 := Le16(MINOR_VER)]
    [4 := Le16(HEADER_SIZE)][7 := [HEADER_SIZE]][5 := [count]][8 := [0]]
  }

  /** The global header zeroed and its constant fields assigned. */
  method InitHeader(h: array<byte>, count: byte)
    requires h.Length == HEADER_SIZE
    modifies h
    ensures h[..] == Flatten(InitFields(count))
  {
    HeaderOffsets();
    FillStructure(h, HEADER_FIELDS, 0);
    ghost var segs := Filled(HEADER_FIELDS, 0);
    StoreField(h, segs, HEADER_FIELDS, 0, 0, Le32(SIGNATURE));
    segs := segs[0 := Le32(SIGNATURE)];
    StoreField(h, segs, HEADER_FIELDS, 2, 8, Le16(MAJOR_VER));
    segs := segs[2 := Le16(MAJOR_VER)];
    StoreField(h, segs, HEADER_FIELDS, 3, 10, Le16(MINOR_VER));
    segs := segs[3 := Le16(MINOR_VER)];
    StoreField(h, segs, HEADER_FIELDS, 4, 12, Le16(HEADER_SIZE));
    segs := segs[4 := Le16(HEADER_SIZE)];
    StoreField(h, segs, HEADER_FIELDS, 7, 16, [HEADER_SIZE]);
    segs := segs[7 := [HEADER_SIZE]];
    StoreField(h, segs, HEADER_FIELDS, 5, 14, [count]);
    segs := segs[5 := [count]];
    StoreField(h, segs, HEADER_FIELDS, 8, 17, [0]);
  }

  /** Total size and checksum complete the header. */
  method FinishHeader(h: array<byte>, count: byte, total: half)
    requires h.Length == HEADER_SIZE && h[..] == Flatten(InitFields(count))
    modifies h
    ensures h[..] == Header(count, total)
  {
    HeaderOffsets();
    ghost var segs := InitFields(count);
    StoreField(h, segs, HEADER_FIELDS, 9, 18, Le16(total));
    segs := segs[9 := Le16(total)];
    assert Fill(1, 0) == [0];
    assert segs == HeaderFields(count, 0, total);
    var c := GenCheckSum(h, HEADER_SIZE);
    assert h[..HEADER_SIZE] == h[..];
    StoreField(h, segs, HEADER_FIELDS, 8, 17, [c]);
    assert segs[8 := [c]] == HeaderFields(count, c, total);
  }

  /** Where the second pass stands before entry index. */
  ghost predicate CopyState(buf: seq<byte>, offset: half, hash: word, quick: seq<byte>, bs: seq<Block>, index: nat)
    requires Packable(quick, bs)
  {
    index <= |bs| && Pass(buf, offset, hash) == Copied(quick, bs, index)
  }

  method CopyNext(buf: array<byte>, offset: half, hash: word, quick: seq<byte>, list: seq<Entry>, index: nat,
                  ghost bs: seq<Block>)
    returns (offset': half, hash': word)
    requires Packable(quick, bs) && Holds(list, bs) && index < |list|
    requires forall i :: 0 <= i < |list| ==> list[i].ptr != buf
    requires CopyState(buf[..], offset, hash, quick, bs, index)
    modifies buf
    ensures CopyState(buf[..], offset', hash', quick, bs, index + 1)
    ensures Holds(list, bs)
  {
    CursorFits(quick, bs, index);
    assert Copied(quick, bs, index) == Pass(buf[..], offset, hash);
    offset', hash' := CopyOne(buf, offset, hash, list[index], bs[index]);
  }

  /** The second pass: everything is copied into one zeroed buffer at a 16-bit cursor. */
  method SecondPass(quick: seq<byte>, list: seq<Entry>, header: array<byte>, table: array<byte>, total: half,
                    ghost bs: seq<Block>)
    returns (buf: array<byte>)
    requires Packable(quick, bs) && Holds(list, bs) && total == TotalSize(bs)
    requires header[..] == Header(|bs|, total) && table[..] == Table(bs)
    ensures fresh(buf) && buf[..] == PackedImage(quick, bs)
  {
    buf := new byte[QUICK_SIZE + total];
    SetBytes(buf, 0, QUICK_SIZE + total, 0);
    var offset, hash := CopyFront(buf, quick, header, table, bs);
    assert CopyState(buf[..], offset, hash, quick, bs, 0);
    offset, hash := CopyAll(buf, offset, hash, quick, list, bs);
    assert Copied(quick, bs, |bs|) == Pass(buf[..], offset, hash);
    Store32(buf, FEAT_HASH_AT, hash);
  }

  method CopyAll(buf: array<byte>, offset0: half, hash0: word, quick: seq<byte>, list: seq<Entry>, ghost bs: seq<Block>)
    returns (offset: half, hash: word)
    requires Packable(quick, bs) && Holds(list, bs) && CopyState(buf[..], offset0, hash0, quick, bs, 0)
    requires forall i :: 0 <= i < |list| ==> list[i].ptr != buf
    modifies buf
    ensures CopyState(buf[..], offset, hash, quick, bs, |list|)
  {
    offset, hash := offset0, hash0;
    for index := 0 to |list|
      invariant Holds(list, bs)
      invariant CopyState(buf[..], offset, hash, quick, bs, index)
    {
      offset, hash := CopyNext(buf, offset, hash, quick, list, index, bs);
    }
  }

  /** The quick config, the header and the table, one behind the other. */
  method CopyFront(buf: array<byte>, quick: seq<byte>, header: array<byte>, table: array<byte>, ghost bs: seq<Block>)
    returns (offset: half, hash: word)
    requires Packable(quick, bs) && buf[..] == Fill(QUICK_SIZE + TotalSize(bs), 0)
    requires header[..] == Header(|bs|, TotalSize(bs)) && table[..] == Table(bs)
    requires buf != header && buf != table
    modifies buf
    ensures Pass(buf[..], offset, hash) == Opened(quick, bs)
  {
    FrontFits(quick, bs);
    CopyBytes(buf, 0, quick);
    CopyBytes(buf, QUICK_SIZE, header[..]);
    CopyBytes(buf, QUICK_SIZE + HEADER_SIZE, table[..]);
    offset, hash := QUICK_SIZE + HEADER_SIZE + table.Length, 0;
  }

  /** The three stores give the buffer the second pass starts from. */
  lemma FrontFits(quick: seq<byte>, bs: seq<Block>)
    requires Packable(quick, bs)
    ensures var h, t, n := Header(|bs|, TotalSize(bs)), Table(bs), QUICK_SIZE + TotalSize(bs);
            && |h| == HEADER_SIZE && QUICK_SIZE + HEADER_SIZE + |t| <= n
            && Opened(quick, bs).cursor == QUICK_SIZE + HEADER_SIZE + |t|
            && Splice(Splice(Splice(Fill(n, 0), 0, quick), QUICK_SIZE, h), QUICK_SIZE + HEADER_SIZE, t)
               == Opened(quick, bs).buf
  {
    HeaderLength(|bs|, TotalSize(bs));
    OffsetsGrow(bs, 0, |bs|);
    var h, t, rest := Header(|bs|, TotalSize(bs)), Table(bs), TotalSize(bs) - BlockOffset(bs, 0);
    assert Opened(quick, bs).buf == (quick + h + t) + Fill(rest, 0);
    FrontStored(quick, h, t, rest, QUICK_SIZE + TotalSize(bs), QUICK_SIZE, QUICK_SIZE + HEADER_SIZE);
  }

  lemma FrontStored(q: seq<byte>, h: seq<byte>, t: seq<byte>, rest: nat, n: nat, a: nat, b: nat)
    requires a == |q| && b == a + |h| && n == b + |t| + rest
    ensures Splice(Splice(Splice(Fill(n, 0), 0, q), a, h), b, t) == (q + h + t) + Fill(rest, 0)
  {
  }

  /** One block copied at the cursor, hashed in place if it is a feature block. */
  method CopyOne(buf: array<byte>, offset: half, hash: word, e: Entry, ghost b: Block)
    returns (offset': half, hash': word)
    requires e.guid == b.guid && e.ptr[..] == b.bytes && Sound(b.bytes) && e.ptr != buf
    requires offset + Align16(Size(b.bytes)) <= buf.Length < 2 * CURSOR_LIMIT
    modifies buf
    ensures Pass(buf[..], offset', hash') == CopyBlock(Pass(old(buf[..]), offset, hash), b)
  {
    var size := Get16(e.ptr[..], 8);
    var step := ShiftAlign(size);
    AlignIsShift(size);
    CopyBytes(buf, offset, e.ptr[..size]);
    assert e.ptr[..size] == Content(b.bytes);
    hash' := hash;
    if e.guid == FEATURE_GUID {
      hash' := DJBHash(buf, offset, step, hash);
    }
    offset' := Wrap16(offset + step);
  }

  /** The tool: an invalid id stops it after the blocks before it were sealed; otherwise all
      blocks are sealed and the image is written. */
  method Pack(quick: seq<byte>, list: seq<Entry>, ghost before: seq<Block>, ghost bad: nat) returns (r: PackResult)
    requires |quick| == QUICK_SIZE && Holds(list, before) && AllSound(before) && |before| < 0x100
    requires FirstInvalid(before, bad) && BlockOffset(before, bad) < CURSOR_LIMIT
    modifies set e | e in list :: e.ptr
    ensures SealedTo(list, before, bad)
    ensures bad < |before| ==> r == InvalidGuid(bad)
    ensures bad == |before| ==>
              && Packable(quick, SealAll(before))
              && r == Packed(PackedImage(quick, SealAll(before)))
  {
    var table, ok, index, offset := ListBlocks(list, before, bad);
    if !ok {
      return InvalidGuid(index);
    }
    assert table[..] == Table(before);
    var image := WriteImage(quick, list, table, offset, before);
    return Packed(image);
  }

  /** The table allocated, and the first pass over the list. */
  method ListBlocks(list: seq<Entry>, ghost before: seq<Block>, ghost bad: nat)
    returns (table: array<byte>, ok: bool, index: nat, offset: half)
    requires Holds(list, before) && AllSound(before) && |before| < 0x100
    requires FirstInvalid(before, bad) && BlockOffset(before, bad) < CURSOR_LIMIT
    modifies set e | e in list :: e.ptr
    ensures fresh(table) && index == bad && PassState(list, table, before, index, offset)
    ensures ok <==> bad == |before|
  {
    var tableSize;
    table, tableSize := MakeTable(|list|);
    OffsetsGrow(before, 0, bad);
    assert SameBufferSameBytes(list, before);
    assert PassState(list, table, before, 0, HEADER_SIZE + tableSize);
    ok, index, offset := FirstPass(list, table, HEADER_SIZE + tableSize, before, bad);
  }

  /** The zeroed block table. */
  method MakeTable(n: nat) returns (table: array<byte>, size: nat)
    ensures fresh(table) && size == TableSize(n) && table[..] == Fill(TableSize(n), 0)
  {
    AlignIsShift(n * 4);
    size := ShiftAlign(n * 4);
    table := new byte[size];
    SetBytes(table, 0, size, 0);
  }

  /** What follows a complete first pass. The header is a local structure that nothing reads before
      this point, so it is filled in here rather than around the pass. */
  method WriteImage(quick: seq<byte>, list: seq<Entry>, table: array<byte>, offset: half,
                    ghost before: seq<Block>)
    returns (image: seq<byte>)
    requires |quick| == QUICK_SIZE && AllSound(before) && |before| < 0x100 && TotalSize(before) < CURSOR_LIMIT
    requires SealedTo(list, before, |before|) && offset == TotalSize(before)
    requires table[..] == Table(before)
    ensures Packable(quick, SealAll(before)) && image == PackedImage(quick, SealAll(before))
  {
    SealPackable(quick, before);
    var header := new byte[HEADER_SIZE];
    InitHeader(header, |list|);
    FinishHeader(header, |list|, offset);
    SealedHolds(list, before);
    var buf := SecondPass(quick, list, header, table, offset, SealAll(before));
    return buf[..];
  }

  lemma SealPackable(quick: seq<byte>, bs: seq<Block>)
    requires |quick| == QUICK_SIZE && AllSound(bs) && |bs| < 0x100 && TotalSize(bs) < CURSOR_LIMIT
    ensures Packable(quick, SealAll(bs))
    ensures TotalSize(SealAll(bs)) == TotalSize(bs) && Table(SealAll(bs)) == Table(bs)
  {
    SealTable(bs);
  }

  lemma SealedHolds(list: seq<Entry>, bs: seq<Block>)
    requires AllSound(bs) && SealedTo(list, bs, |bs|)
    ensures Holds(list, SealAll(bs))
  {
  }
}
