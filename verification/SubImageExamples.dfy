/** An image on which neither law holds without its condition. */
module SubImageExamples {
  import opened Bytes
  import opened BinaryFile
  import opened SubImage
  import opened SubImageEffect
  import opened SubImageLaws

  const FIRST_RECORD := Record(1, 0, 1, 0)
  const SECOND_RECORD := Record(2, 0, 1, 0)

  const RECORDS := [FIRST_RECORD, SECOND_RECORD, EC_RECORD]

  function StoredRecord(r: Record): (s: seq<byte>)
    requires r.size < M32
    ensures |s| == 16
  {
    (Le32(r.imageType) + Le32(r.offset)) + (Le32(r.size) + Le32(r.reserve))
  }

  /** A megabyte of zeros, then a table of two regions, both the first byte of the file. */
  function Image(): (d: seq<byte>)
    ensures |d| == FIRST_HEADER + 48
  {
    Fill(FIRST_HEADER, 0)
    + ((MAGIC + Le32(1)) + (Le32(2) + Le32(0)) + StoredRecord(FIRST_RECORD) + StoredRecord(SECOND_RECORD))
  }

  lemma WordAt(s: seq<byte>, at: nat, t: seq<byte>, o: nat, v: word)
    requires at + |t| <= |s| && s[at..at + |t|] == t && o + 4 <= |t| && t[o..o + 4] == Le32(v)
    ensures Get32(s, at + o) == v
  {
    var x := s[at + o..at + o + 4];
    forall i | 0 <= i < 4
      ensures x[i] == Le32(v)[i]
    {
      assert x[i] == t[o + i] == t[o..o + 4][i];
    }
    Le32RoundTrip(s, at + o, v);
  }

  lemma RecordReads(s: seq<byte>, at: nat, r: Record)
    requires r.size < M32 && at + 16 <= |s| && s[at..at + 16] == StoredRecord(r)
    ensures RecordAt(s, at) == r
  {
    var t := StoredRecord(r);
    WordAt(s, at, t, 0, r.imageType);
    WordAt(s, at, t, 4, r.offset);
    WordAt(s, at, t, 8, r.size);
    WordAt(s, at, t, 12, r.reserve);
  }

  lemma ImageParsed()
    ensures Parsed(Image(), FIRST_HEADER, RECORDS)
  {
    var d, h := Image(), FIRST_HEADER;
    var head := (MAGIC + Le32(1)) + (Le32(2) + Le32(0));
    assert d[h..h + 16] == head;
    assert d[h..h + 4] == head[..4] == MAGIC;
    WordAt(d, h, head, 8, 2);
    assert d[h + 16..h + 32] == StoredRecord(FIRST_RECORD) && d[h + 32..h + 48] == StoredRecord(SECOND_RECORD);
    RecordReads(d, h + 16, FIRST_RECORD);
    RecordReads(d, h + 32, SECOND_RECORD);
    var rs := RecordsAt(d, h + HEADER_BYTES, 2);
    assert rs[0] == FIRST_RECORD && rs[1] == SECOND_RECORD;
    assert rs + [EC_RECORD] == [FIRST_RECORD, SECOND_RECORD, EC_RECORD];
  }

  lemma Selections()
    ensures Selects(RECORDS, 1, 0) && Selects(RECORDS, 2, 1) && Selects(RECORDS, 0, 2)
  {
    FirstOfTypeUnique(RECORDS, 1, 0);
    FirstOfTypeUnique(RECORDS, 2, 1);
    FirstOfTypeUnique(RECORDS, 0, 2);
  }

  /** What two replacements of the same type leave at position i, and what the second alone does. */
  lemma TwiceAndOnce(d: seq<byte>, a: seq<byte>, b: seq<byte>, t: int, k: nat, i: nat)
    requires Parsed(d, FIRST_HEADER, RECORDS) && Selects(RECORDS, t, k)
    requires Recordable(t, |a|) && Recordable(t, |b|)
    requires Clear(FIRST_HEADER, RECORDS, RECORDS[k].offset, WriteEnd(RECORDS[k], |a|))
    requires i < |d| && (t == 0 || i < SizeField(FIRST_HEADER, k))
    ensures Replace(d, a, t).Done? && Replace(d, b, t).Done? && Replace(Replace(d, a, t).file, b, t).Done?
    ensures var field := PatchedField(FIRST_HEADER, t, k);
            && var twice := Replace(Replace(d, a, t).file, b, t).file;
            i < |twice| && i < |Replace(d, b, t).file|
            && twice[i] == OutByte(Replace(d, a, t).file, Shrunk(RECORDS[k], t, |a|), b, field, i)
            && i < |Replace(d, a, t).file|
            && Replace(d, a, t).file[i] == OutByte(d, RECORDS[k], a, field, i)
            && Replace(d, b, t).file[i] == OutByte(d, RECORDS[k], b, field, i)
  {
    Reparse(d, a, t, FIRST_HEADER, RECORDS, k);
    SelectionStays(RECORDS, t, k, |a|, t, k);
    ReplaceEffect(d, a, t, FIRST_HEADER, RECORDS, k);
    ReplaceEffect(d, b, t, FIRST_HEADER, RECORDS, k);
    ReplaceEffect(Replace(d, a, t).file, b, t, FIRST_HEADER, TableAfter(RECORDS, t, k, |a|), k);
  }

  lemma ShowsIn(d: seq<byte>, a: seq<byte>, b: seq<byte>)
    requires Parsed(d, FIRST_HEADER, RECORDS) && |d| > 1 && d[1] == 0 && a == [1, 2] && b == [3]
    ensures Replace(d, a, 1).Done? && Replace(d, b, 1).Done? && Replace(Replace(d, a, 1).file, b, 1).Done?
    ensures ByteAt(Replace(Replace(d, a, 1).file, b, 1).file, 1) == 0xFF
    ensures ByteAt(Replace(d, b, 1).file, 1) == 0
  {
    Selections();
    TwiceAndOnce(d, a, b, 1, 0, 1);
  }

  /** A payload that is one byte too long leaves a trace behind a later one that fits: the byte it had
      written is now filled, because the table had recorded the longer size. */
  lemma OversizedPayloadShows()
    ensures Replace(Image(), [1, 2], 1).Done? && Replace(Image(), [3], 1).Done?
    ensures Replace(Replace(Image(), [1, 2], 1).file, [3], 1).Done?
    ensures ByteAt(Replace(Replace(Image(), [1, 2], 1).file, [3], 1).file, 1) == 0xFF
    ensures ByteAt(Replace(Image(), [3], 1).file, 1) == 0
  {
    ImageParsed();
    assert Image()[1] == 0;
    ShowsIn(Image(), [1, 2], [3]);
  }

  lemma SurvivesIn(d: seq<byte>, a: seq<byte>, b: seq<byte>)
    requires Parsed(d, FIRST_HEADER, RECORDS) && |d| > 0x3_0000 && d[0x3_0000] == 0
    requires |a| == 0x2_0001 && a[0x2_0000] == 1 && b == []
    ensures Replace(d, a, 0).Done? && Replace(d, b, 0).Done? && Replace(Replace(d, a, 0).file, b, 0).Done?
    ensures ByteAt(Replace(Replace(d, a, 0).file, b, 0).file, 0x3_0000) == 1
    ensures ByteAt(Replace(d, b, 0).file, 0x3_0000) == 0
  {
    Selections();
    TwiceAndOnce(d, a, b, 0, 2, 0x3_0000);
  }

  /** A payload one byte longer than the region of the default record, whose size is never patched. */
  function LongPayload(): (a: seq<byte>)
    ensures |a| == EC_RECORD.size + 1
  {
    Fill(0x2_0000, 0) + [1]
  }

  /** For that record the byte itself survives. */
  lemma OversizedPayloadSurvives()
    ensures Replace(Image(), LongPayload(), 0).Done? && Replace(Image(), [], 0).Done?
    ensures Replace(Replace(Image(), LongPayload(), 0).file, [], 0).Done?
    ensures ByteAt(Replace(Replace(Image(), LongPayload(), 0).file, [], 0).file, 0x3_0000) == 1
    ensures ByteAt(Replace(Image(), [], 0).file, 0x3_0000) == 0
  {
    ImageParsed();
    assert Image()[0x3_0000] == 0;
    SurvivesIn(Image(), LongPayload(), []);
  }

  lemma NotAgreeing()
    ensures !Agreeing(FIRST_RECORD, [1], SECOND_RECORD, [2])
  {
    assert RegionByte(FIRST_RECORD, [1], 0) != RegionByte(SECOND_RECORD, [2], 0);
  }

  lemma NoCommuteIn(d: seq<byte>, a: seq<byte>, b: seq<byte>)
    requires Parsed(d, FIRST_HEADER, RECORDS) && a == [1] && b == [2]
    ensures Replace(d, a, 1).Done? && Replace(d, b, 2).Done?
    ensures Replace(Replace(d, a, 1).file, b, 2) != Replace(Replace(d, b, 2).file, a, 1)
  {
    Selections();
    NotAgreeing();
    Commute(d, a, 1, 0, b, 2, 1, FIRST_HEADER, RECORDS);
  }

  /** Two types whose regions share a byte do not commute, although both payloads fit. */
  lemma OverlapDoesNotCommute()
    ensures |[1]| <= FIRST_RECORD.size && |[2]| <= SECOND_RECORD.size
    ensures Replace(Image(), [1], 1).Done? && Replace(Image(), [2], 2).Done?
    ensures Replace(Replace(Image(), [1], 1).file, [2], 2) != Replace(Replace(Image(), [2], 2).file, [1], 1)
  {
    ImageParsed();
    NoCommuteIn(Image(), [1], [2]);
  }
}
