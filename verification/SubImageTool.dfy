/** The replacement tool: parsing the record table, overwriting a region, patching a size. */
module SubImageTool {
  import opened Bytes
  import opened BinaryFile
  import opened SubImage
  import opened SubImageEffect

  /** One entry of the record list; the tool mutates the size of the one it replaces. */
  class RecordObject {
    const imageType: word
    const offset: word
    var size: nat
    const reserve: word

    constructor (r: Record)
      ensures Value() == r
    {
      imageType, offset, size, reserve := r.imageType, r.offset, r.size, r.reserve;
    }

    function Value(): Record
      reads this
    {
      Record(imageType, offset, size, reserve)
    }
  }

  datatype Parsing = NothingThere | Failed | Found(records: seq<RecordObject>)

  /** The objects are all different and hold these records. */
  ghost predicate Represents(os: seq<RecordObject>, rs: seq<Record>)
    reads os
  {
    && |os| == |rs|
    && (forall i :: 0 <= i < |os| ==> os[i].Value() == rs[i])
    && (forall i, j :: 0 <= i < j < |os| ==> os[i] != os[j])
  }

  lemma ClipIs(d: seq<byte>, at: nat, n: nat)
    ensures |Clip(d, at, n)| == n <==> at + n <= |d| || n == 0
    ensures at + n <= |d| && n > 0 ==> Clip(d, at, n) == d[at..at + n]
  {
  }

  lemma WordOfClip(d: seq<byte>, at: nat, n: nat, o: nat)
    requires at + n <= |d| && o + 4 <= n && n > 0
    ensures Get32(Clip(d, at, n), o) == Get32(d, at + o)
  {
    ClipIs(d, at, n);
  }

  /** One little-endian word from the file; a short read is an error. */
  method UnpackWord(f: File) returns (r: Option<word>)
    modifies f
    ensures f.data == old(f.data)
    ensures r.Some? <==> old(f.pos) + 4 <= |f.data|
    ensures r.Some? ==> r.value == Get32(f.data, old(f.pos)) && f.pos == old(f.pos) + 4
  {
    ClipIs(f.data, f.pos, 4);
    var s := f.Read(4);
    if |s| != 4 {
      return None;
    }
    return Some(Get32(s, 0));
  }

  method UnpackRecord(f: File) returns (r: Option<Record>)
    modifies f
    ensures f.data == old(f.data)
    ensures r.Some? <==> old(f.pos) + 16 <= |f.data|
    ensures r.Some? ==> r.value == RecordAt(f.data, old(f.pos)) && f.pos == old(f.pos) + 16
  {
    ghost var at := f.pos;
    ClipIs(f.data, at, 16);
    var s := f.Read(16);
    if |s| != 16 {
      return None;
    }
    WordOfClip(f.data, at, 16, 0);
    WordOfClip(f.data, at, 16, 4);
    WordOfClip(f.data, at, 16, 8);
    WordOfClip(f.data, at, 16, 12);
    return Some(Record(Get32(s, 0), Get32(s, 4), Get32(s, 8), Get32(s, 12)));
  }

  lemma OneMore(os: seq<RecordObject>, rs: seq<Record>, o: RecordObject)
    requires Represents(os, rs) && o !in os
    ensures Represents(os + [o], rs + [o.Value()])
  {
  }

  /** The records behind a header, as many as it announces. */
  method ReadRecords(f: File, count: word) returns (r: Option<seq<RecordObject>>)
    requires f.pos <= |f.data|
    modifies f
    ensures f.data == old(f.data)
    ensures r.Some? <==> old(f.pos) + 16 * count <= |f.data|
    ensures r.Some? ==> fresh(r.value) && Represents(r.value, RecordsAt(f.data, old(f.pos), count))
  {
    ghost var at := f.pos;
    var records: seq<RecordObject> := [];
    for i := 0 to count
      invariant f.data == old(f.data) && f.pos == at + 16 * i <= |f.data|
      invariant fresh(records) && Represents(records, RecordsAt(f.data, at, i))
    {
      var rec := UnpackRecord(f);
      if rec.None? {
        return None;
      }
      var o := new RecordObject(rec.value);
      OneMore(records, RecordsAt(f.data, at, i), o);
      assert RecordsAt(f.data, at, i + 1) == RecordsAt(f.data, at, i) + [o.Value()];
      records := records + [o];
    }
    return Some(records);
  }

  lemma WholeTable(d: seq<byte>, at: nat, n: word)
    requires HasMagic(d, at) && at + HEADER_BYTES + 16 * n <= |d| && n == Get32(d, at + 8)
    ensures ParseAt(d, at).Table? && ParseAt(d, at).records == RecordsAt(d, at + HEADER_BYTES, n) + [EC_RECORD]
  {
  }

  method ParseBinaryFile(contents: seq<byte>, start: nat) returns (r: Parsing)
    ensures r.NothingThere? <==> ParseAt(contents, start).NoMagic?
    ensures r.Failed? <==> ParseAt(contents, start).Short?
    ensures r.Found? ==> fresh(r.records) && Represents(r.records, ParseAt(contents, start).records)
  {
    var f := new File.Reading(contents);
    f.Seek(start);
    ClipIs(contents, start, 4);
    var header := f.Read(4);
    if header != MAGIC {
      return NothingThere;
    }
    var version := UnpackWord(f);
    if version.None? {
      return Failed;
    }
    var count := UnpackWord(f);
    if count.None? {
      return Failed;
    }
    var reserve := UnpackWord(f);
    if reserve.None? {
      return Failed;
    }
    var records := ReadRecords(f, count.value);
    if records.None? {
      return Failed;
    }
    var ec := new RecordObject(EC_RECORD);
    OneMore(records.value, RecordsAt(contents, start + HEADER_BYTES, count.value), ec);
    WholeTable(contents, start, count.value);
    return Found(records.value + [ec]);
  }

  /** next(r for r in records if r['ImageType'] == t) */
  method FindByType(os: seq<RecordObject>, t: int, ghost rs: seq<Record>) returns (r: Option<RecordObject>)
    requires Represents(os, rs)
    ensures r.None? <==> FirstOfType(rs, t) == |rs|
    ensures r.Some? ==> r.value == os[FirstOfType(rs, t)]
  {
    var i := 0;
    while i < |os|
      invariant i <= |os| && forall j :: 0 <= j < i ==> rs[j].imageType != t
    {
      if os[i].imageType == t {
        assert os[i].Value() == rs[i];
        FirstOfTypeUnique(rs, t, i);
        return Some(os[i]);
      }
      assert os[i].Value() == rs[i];
      i := i + 1;
    }
    return None;
  }

  /** records.index(target): the first record with the same four values. */
  method IndexOf(os: seq<RecordObject>, target: RecordObject, ghost k: nat) returns (i: nat)
    requires k < |os| && os[k] == target
    ensures i <= k && os[i].Value() == target.Value()
    ensures forall j :: 0 <= j < i ==> os[j].Value() != target.Value()
  {
    i := 0;
    while os[i].Value() != target.Value()
      invariant i <= k
      invariant forall j :: 0 <= j < i ==> os[j].Value() != target.Value()
      decreases k - i
    {
      i := i + 1;
    }
  }

  /** The table is looked for at two places; the first one that has the magic decides. */
  method FindTable(contents: seq<byte>) returns (h: nat, r: Parsing)
    ensures h == HeaderOffset(contents)
    ensures r.NothingThere? <==> ParseAt(contents, h).NoMagic?
    ensures r.Failed? <==> ParseAt(contents, h).Short?
    ensures r.Found? ==> fresh(r.records) && Represents(r.records, ParseAt(contents, h).records)
  {
    h := FIRST_HEADER;
    r := ParseBinaryFile(contents, h);
    if r.NothingThere? {
      h := SECOND_HEADER;
      r := ParseBinaryFile(contents, h);
    }
  }

  /** The whole tool. The size in the record object is changed before the record is looked up
      again by value to find its place in the table. */
  method ReplaceImage(contents: seq<byte>, payload: seq<byte>, t: int) returns (r: Outcome)
    ensures r == Replace(contents, payload, t)
  {
    var h, parsing := FindTable(contents);
    if parsing.NothingThere? {
      return NoHeader;
    }
    if parsing.Failed? {
      return ShortTable;
    }
    var records := parsing.records;
    ghost var rs := ParseAt(contents, h).records;
    var found := FindByType(records, t, rs);
    if found.None? {
      return NoSuchType;
    }
    ghost var k := FirstOfType(rs, t);
    var f := WriteRegion(contents, payload, found.value, rs[k]);
    r := SyncSize(f, h, records, found.value, payload, t, rs, k);
  }

  /** The output file with the region erased and the payload written over it. */
  method WriteRegion(contents: seq<byte>, payload: seq<byte>, target: RecordObject, ghost rec: Record) returns (f: File)
    requires target.Value() == rec
    ensures fresh(f) && f.data == Overwritten(contents, rec, payload)
  {
    f := new File.Writing();
    f.Write(contents);
    assert f.data == contents;
    f.Seek(target.offset);
    f.Write(Fill(target.size, 0xFF));
    f.Seek(target.offset);
    f.Write(payload);
  }

  /** The record's size becomes the payload's length, in the object and, unless the record is
      of type zero, in the table of the file. */
  method SyncSize(f: File, h: nat, records: seq<RecordObject>, target: RecordObject, payload: seq<byte>, t: int,
                  ghost rs: seq<Record>, ghost k: nat)
    returns (r: Outcome)
    requires Represents(records, rs) && Selects(rs, t, k) && target == records[k]
    modifies f, target
    ensures r == if t == 0 then Done(old(f.data))
                 else if |payload| >= M32 then SizeTooLarge(old(f.data))
                 else Done(FileWrite(old(f.data), SizeField(h, k), Le32(|payload|)))
    ensures forall i :: 0 <= i < |records| ==>
              records[i].Value() == if i == k then rs[k].(size := |payload|) else rs[i]
  {
    assert target.Value() == rs[k];
    target.size := |payload|;
    SizeChanged(records, rs, k, |payload|, target);
    if target.imageType != 0 {
      var i := IndexOf(records, target, k);
      LookupAfterMutation(rs, t, k, |payload|, i);
      f.Seek(h + HEADER_BYTES + 16 * i + 8);
      if target.size >= M32 {
        return SizeTooLarge(f.data);
      }
      f.Write(Le32(target.size));
    }
    return Done(f.data);
  }

  lemma SizeChanged(records: seq<RecordObject>, rs: seq<Record>, k: nat, n: nat, target: RecordObject)
    requires |records| == |rs| && k < |rs| && target == records[k] && target.size == n
    requires target.Value() == rs[k].(size := n)
    requires forall i :: 0 <= i < |records| && i != k ==> records[i].Value() == rs[i]
    ensures forall i :: 0 <= i < |records| ==> records[i].Value() == rs[k := rs[k].(size := n)][i]
  {
  }
}
