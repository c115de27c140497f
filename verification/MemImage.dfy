/** The memory-configuration image: what the packer writes, as functions of the block list. */
module MemImage {
  import opened Bytes
  import opened ByteCheckSum
  import opened DjbHash

  const QUICK_SIZE := 32
  const HEADER_SIZE := 64
  const BLOCK_HEADER_SIZE := 16
  const FEAT_HASH_AT := 12
  const SIZE_AT := 8
  const CHECKSUM_AT := 10
  const GUID_INVALID := 0xFFFF
  const FEATURE_GUID := 0x1002
  const SIGNATURE: word := 0x4243_4443 // "CDCB", first letter lowest
  const MAJOR_VER := 1
  const MINOR_VER := 6
  const CURSOR_LIMIT := 0x1_0000

  /** A block of the list: its table id and the bytes of its buffer, header first. */
  datatype Block = Block(guid: half, bytes: seq<byte>)

  /** BlockSize, bytes 8 and 9 of the block header. */
  function Size(b: seq<byte>): half
    requires |b| >= BLOCK_HEADER_SIZE
  {
    Get16(b, SIZE_AT)
  }

  /** What the tool relies on: a block buffer holds a header and as many bytes as the header says. */
  predicate Sound(b: seq<byte>) {
    |b| >= BLOCK_HEADER_SIZE && Size(b) <= |b|
  }

  ghost predicate AllSound(bs: seq<Block>) {
    forall i :: 0 <= i < |bs| ==> Sound(bs[i].bytes)
  }

  /** The copied part of every block takes in the low byte of its size. */
  ghost predicate AllMeasured(bs: seq<Block>) {
    forall i :: 0 <= i < |bs| ==> Sound(bs[i].bytes) && SIZE_AT < Size(bs[i].bytes)
  }

  /** The copied part of every block takes in its checksum. */
  ghost predicate AllCovered(bs: seq<Block>) {
    forall i :: 0 <= i < |bs| ==> Sound(bs[i].bytes) && CHECKSUM_AT < Size(bs[i].bytes)
  }

  /** The least multiple of 16 that is not below n. */
  function Align16(n: nat): (r: nat)
    ensures n <= r < n + 16
  {
    if n == 0 then 0 else if n <= 16 then 16 else 16 + Align16(n - 16)
  }

  /** The shift expression by which the tool computes it. */
  function ShiftAlign(n: nat): nat {
    if n % 16 == 0 then n else (n / 16 + 1) * 16
  }

  lemma {:induction false} AlignIsShift(n: nat)
    ensures ShiftAlign(n) == Align16(n)
    ensures Align16(n) % 16 == 0
  {
    if n <= 16 {
    } else {
      AlignIsShift(n - 16);
      SixteenLess(n);
    }
  }

  lemma SixteenLess(n: int)
    ensures (n - 16) % 16 == n % 16 && (n - 16) / 16 == n / 16 - 1
  {
  }

  /** Assignment of a sum to a 16-bit cursor. */
  function Wrap16(n: nat): (r: half)
    requires n < 2 * CURSOR_LIMIT
    ensures r == n % 0x1_0000
  {
    if n < CURSOR_LIMIT then n else n - CURSOR_LIMIT
  }

  /** The part of a block that is copied into the image. */
  function Content(b: seq<byte>): seq<byte>
    requires Sound(b)
  {
    b[..Size(b)]
  }

  /** The copied part followed by zeros up to the next multiple of 16. */
  function Padded(b: seq<byte>): (r: seq<byte>)
    requires Sound(b)
    ensures |r| == Align16(Size(b))
  {
    Content(b) + Fill(Align16(Size(b)) - Size(b), 0)
  }

  // ----- checksums -----

  /** A block after its checksum byte was cleared and filled in. */
  function SealBlock(b: seq<byte>): (r: seq<byte>)
    requires Sound(b)
    ensures |r| == |b| && Sound(r) && Size(r) == Size(b)
  {
    var z := b[CHECKSUM_AT := 0];
    z[CHECKSUM_AT := Complement(z[..Size(b)])]
  }

  function SealAll(bs: seq<Block>): (r: seq<Block>)
    requires AllSound(bs)
    ensures |r| == |bs| && AllSound(r)
    ensures forall i :: 0 <= i < |bs| ==> r[i] == Block(bs[i].guid, SealBlock(bs[i].bytes))
  {
    seq(|bs|, i requires 0 <= i < |bs| => Block(bs[i].guid, SealBlock(bs[i].bytes)))
  }

  // ----- layout -----

  function TableSize(n: nat): nat {
    Align16(n * 4)
  }

  /** Offset of block i, counted from the header. */
  function BlockOffset(bs: seq<Block>, i: nat): nat
    requires i <= |bs| && AllSound(bs)
  {
    if i == 0 then HEADER_SIZE + TableSize(|bs|)
    else BlockOffset(bs, i - 1) + Align16(Size(bs[i - 1].bytes))
  }

  function TotalSize(bs: seq<Block>): nat
    requires AllSound(bs)
  {
    BlockOffset(bs, |bs|)
  }

  /** The first i table entries. */
  function Rows(bs: seq<Block>, i: nat): (r: seq<byte>)
    requires i <= |bs| && AllSound(bs) && BlockOffset(bs, i) < CURSOR_LIMIT
    ensures |r| == 4 * i
  {
    if i == 0 then []
    else Rows(bs, i - 1) + (Le16(bs[i - 1].guid) + Le16(BlockOffset(bs, i - 1)))
  }

  function Table(bs: seq<Block>): (r: seq<byte>)
    requires AllSound(bs) && TotalSize(bs) < CURSOR_LIMIT
    ensures |r| == TableSize(|bs|)
  {
    Rows(bs, |bs|) + Fill(TableSize(|bs|) - 4 * |bs|, 0)
  }

  /** The first i blocks, each padded. */
  function Body(bs: seq<Block>, i: nat): (r: seq<byte>)
    requires i <= |bs| && AllSound(bs)
  {
    if i == 0 then [] else Body(bs, i - 1) + Padded(bs[i - 1].bytes)
  }

  /** Signature, reserved, versions, table offset, block count, reserved, header size,
      header checksum, total size, reserved, hash value. */
  const HEADER_FIELDS: seq<nat> := [4, 4, 2, 2, 2, 1, 1, 1, 1, 2, 40, 4]

  function HeaderFields(count: byte, checkSum: byte, total: half): seq<seq<byte>> {
    [Le32(SIGNATURE), Fill(4, 0), Le16(MAJOR_VER), Le16(MINOR_VER), Le16(HEADER_SIZE), [count], [0],
     [HEADER_SIZE], [checkSum], Le16(total), Fill(40, 0), Fill(4, 0)]
  }

  function Header(count: byte, total: half): seq<byte> {
    var blank := Flatten(HeaderFields(count, 0, total));
    Flatten(HeaderFields(count, Complement(blank), total))
  }

  // ----- feature hash -----

  /** The hash over the first i blocks of the list: only feature blocks count, padding included. */
  function FeatHash(bs: seq<Block>, i: nat): word
    requires i <= |bs| && AllSound(bs)
  {
    if i == 0 then 0
    else if bs[i - 1].guid == FEATURE_GUID then Djb(FeatHash(bs, i - 1), Padded(bs[i - 1].bytes))
    else FeatHash(bs, i - 1)
  }

  // ----- the image -----

  /** The intended image: quick config carrying the hash, header, table, and the padded blocks,
      one after the other with nothing between them. */
  function TiledImage(quick: seq<byte>, bs: seq<Block>): seq<byte>
    requires |quick| == QUICK_SIZE && AllSound(bs) && |bs| < 0x100 && TotalSize(bs) < CURSOR_LIMIT
  {
    Lead(quick, bs) + Body(bs, |bs|)
  }

  /** Everything in front of the blocks. */
  function Lead(quick: seq<byte>, bs: seq<Block>): seq<byte>
    requires |quick| == QUICK_SIZE && AllSound(bs) && |bs| < 0x100 && TotalSize(bs) < CURSOR_LIMIT
  {
    Splice(quick, FEAT_HASH_AT, Le32(FeatHash(bs, |bs|))) + Header(|bs|, TotalSize(bs)) + Table(bs)
  }

  /** The copying pass: buffer, 16-bit cursor and running hash. */
  datatype Pass = Pass(buf: seq<byte>, cursor: half, hash: word)

  function Front(quick: seq<byte>, bs: seq<Block>): (r: seq<byte>)
    requires |quick| == QUICK_SIZE && AllSound(bs) && |bs| < 0x100 && TotalSize(bs) < CURSOR_LIMIT
  {
    quick + Header(|bs|, TotalSize(bs)) + Table(bs)
  }

  /** One block copied at the cursor. */
  function CopyBlock(p: Pass, b: Block): Pass
    requires Sound(b.bytes) && p.cursor + Align16(Size(b.bytes)) <= |p.buf| < 2 * CURSOR_LIMIT
  {
    var step := Align16(Size(b.bytes));
    var buf := Splice(p.buf, p.cursor, Content(b.bytes));
    Pass(buf,
         Wrap16(p.cursor + step),
         if b.guid == FEATURE_GUID then Djb(p.hash, buf[p.cursor..p.cursor + step]) else p.hash)
  }
}
