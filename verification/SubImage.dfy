/** The record table of a flash image, and one replacement of a sub-image, as functions. */
module SubImage {
  import opened Bytes
  import opened BinaryFile

  const MAGIC: seq<byte> := [0xAA, 0x55, 0xAA, 0x55]
  const FIRST_HEADER := 0x10_0000
  const SECOND_HEADER := 0x20_0000
  const HEADER_BYTES := 16

  /** The size is a Python integer, which a replacement sets to the payload's length. */
  datatype Record = Record(imageType: word, offset: word, size: nat, reserve: word)

  /** The record every table ends with, for the embedded controller. */
  const EC_RECORD := Record(0, 0x1_0000, 0x2_0000, 0)

  /** No magic at the offset; a table that runs past the end of the file; or the table. */
  datatype Parse = NoMagic | Short | Table(version: word, count: word, reserve: word, records: seq<Record>)

  function RecordAt(d: seq<byte>, at: nat): Record
    requires at + 16 <= |d|
  {
    Record(Get32(d, at), Get32(d, at + 4), Get32(d, at + 8), Get32(d, at + 12))
  }

  function RecordsAt(d: seq<byte>, at: nat, n: nat): (r: seq<Record>)
    requires at + 16 * n <= |d|
    ensures |r| == n
    ensures forall i :: 0 <= i < n ==> r[i] == RecordAt(d, at + 16 * i)
  {
    if n == 0 then [] else RecordsAt(d, at, n - 1) + [RecordAt(d, at + 16 * (n - 1))]
  }

  predicate HasMagic(d: seq<byte>, at: nat) {
    at + 4 <= |d| && d[at..at + 4] == MAGIC
  }

  function ParseAt(d: seq<byte>, at: nat): Parse {
    if !HasMagic(d, at) then NoMagic
    else if |d| < at + HEADER_BYTES then Short
    else
      var n := Get32(d, at + 8);
      if |d| < at + HEADER_BYTES + 16 * n then Short
      else Table(Get32(d, at + 4), n, Get32(d, at + 12), RecordsAt(d, at + HEADER_BYTES, n) + [EC_RECORD])
  }

  /** Where the table is looked for: the first of the two offsets that carries the magic. */
  function HeaderOffset(d: seq<byte>): nat {
    if HasMagic(d, FIRST_HEADER) then FIRST_HEADER else SECOND_HEADER
  }

  /** The first record of a type, or the number of records if there is none. */
  function FirstOfType(rs: seq<Record>, t: int): (k: nat)
    ensures k <= |rs|
    ensures k < |rs| ==> rs[k].imageType == t
    ensures forall i :: 0 <= i < k ==> rs[i].imageType != t
  {
    if rs == [] then 0 else if rs[0].imageType == t then 0 else 1 + FirstOfType(rs[1..], t)
  }

  /** How a replacement ends. An oversized payload is noticed only when its length is packed
      into the table, after the output file has been written. */
  datatype Outcome = NoHeader | ShortTable | NoSuchType | SizeTooLarge(file: seq<byte>) | Done(file: seq<byte>)

  /** Whether a payload of this length can be recorded for a type: for type zero nothing is. */
  predicate Recordable(t: int, n: nat) {
    t == 0 || n < M32
  }

  /** The region filled with 0xFF over its recorded size, then the payload from its start. */
  function Overwritten(d: seq<byte>, r: Record, payload: seq<byte>): seq<byte> {
    FileWrite(FileWrite(d, r.offset, Fill(r.size, 0xFF)), r.offset, payload)
  }

  /** The size field of record k. */
  function SizeField(h: nat, k: nat): nat {
    h + HEADER_BYTES + 16 * k + 8
  }

  function Replace(d: seq<byte>, payload: seq<byte>, t: int): Outcome {
    match ParseAt(d, HeaderOffset(d))
    case NoMagic => NoHeader
    case Short => ShortTable
    case Table(_, _, _, records) =>
      var k := FirstOfType(records, t);
      if k == |records| then NoSuchType
      else
        var f := Overwritten(d, records[k], payload);
        if t == 0 then Done(f)
        else if |payload| >= M32 then SizeTooLarge(f)
        else Done(FileWrite(f, SizeField(HeaderOffset(d), k), Le32(|payload|)))
  }
}
