/** What one replacement does to the file, byte by byte, and to the record table. */
module SubImageEffect {
  import opened Bytes
  import opened BinaryFile
  import opened SubImage

  /** The table d is found to have, the default record included. */
  ghost predicate Parsed(d: seq<byte>, h: nat, rs: seq<Record>) {
    && h == HeaderOffset(d)
    && |rs| > 0
    && ParseAt(d, h).Table? && ParseAt(d, h).records == rs
  }

  /** The end of the stored table; the default record is not stored. */
  function TableEnd(h: nat, rs: seq<Record>): nat
    requires |rs| > 0
  {
    h + HEADER_BYTES + 16 * (|rs| - 1)
  }

  lemma ParsedShape(d: seq<byte>, h: nat, rs: seq<Record>)
    requires Parsed(d, h, rs)
    ensures h == FIRST_HEADER || h == SECOND_HEADER
    ensures TableEnd(h, rs) <= |d|
    ensures rs[|rs| - 1] == EC_RECORD
    ensures forall i :: 0 <= i < |rs| - 1 ==> rs[i] == RecordAt(d, h + HEADER_BYTES + 16 * i)
    ensures HasMagic(d, h) && Get32(d, h + 8) == |rs| - 1
    ensures h == SECOND_HEADER ==> !HasMagic(d, FIRST_HEADER)
  {
  }

  lemma SizesSmall(d: seq<byte>, h: nat, rs: seq<Record>, k: nat)
    requires Parsed(d, h, rs) && k < |rs|
    ensures rs[k].size < M32
  {
    ParsedShape(d, h, rs);
  }

  lemma {:induction false} FirstOfTypeUnique(rs: seq<Record>, t: int, k: nat)
    requires k < |rs| && rs[k].imageType == t && forall i :: 0 <= i < k ==> rs[i].imageType != t
    ensures FirstOfType(rs, t) == k
  {
    if k == 0 {
    } else {
      FirstOfTypeUnique(rs[1..], t, k - 1);
    }
  }

  /** Record k is the one a request for type t selects. */
  ghost predicate Selects(rs: seq<Record>, t: int, k: nat) {
    k < |rs| && FirstOfType(rs, t) == k
  }

  /** A selected record of a nonzero type is stored in the table, not the default one. */
  lemma SelectedStored(d: seq<byte>, h: nat, rs: seq<Record>, t: int, k: nat)
    requires Parsed(d, h, rs) && Selects(rs, t, k) && t != 0
    ensures k < |rs| - 1
    ensures h + HEADER_BYTES <= SizeField(h, k) && SizeField(h, k) + 4 <= TableEnd(h, rs) <= |d|
  {
    ParsedShape(d, h, rs);
  }

  // ----- the written file -----

  function Max(a: nat, b: nat): nat {
    if a < b then b else a
  }

  /** One past the last byte the region writes can reach. */
  function WriteEnd(r: Record, n: nat): nat {
    r.offset + Max(r.size, n)
  }

  /** The byte a replacement leaves inside the region it writes. */
  function RegionByte(r: Record, payload: seq<byte>, i: nat): byte
    requires r.offset <= i
  {
    if i < r.offset + |payload| then payload[i - r.offset] else 0xFF
  }

  function OutLength(n: nat, r: Record, payload: nat): nat {
    WrittenLength(WrittenLength(n, r.offset, r.size), r.offset, payload)
  }

  /** The byte at i after the replacement; field is where the size was patched, if it was. */
  function OutByte(d: seq<byte>, r: Record, payload: seq<byte>, field: Option<nat>, i: nat): byte
    requires field.Some? ==> |payload| < M32
  {
    if field.Some? && field.value <= i < field.value + 4 then Le32(|payload|)[i - field.value]
    else if r.offset <= i < WriteEnd(r, |payload|) then RegionByte(r, payload, i)
    else ByteAt(d, i)
  }

  function PatchedField(h: nat, t: int, k: nat): Option<nat> {
    if t == 0 then None else Some(SizeField(h, k))
  }

  lemma OverwrittenBytes(d: seq<byte>, r: Record, payload: seq<byte>)
    ensures var f := Overwritten(d, r, payload);
            && |f| == OutLength(|d|, r, |payload|)
            && |d| <= |f|
            && forall i :: 0 <= i < |f| ==>
                 f[i] == if r.offset <= i < WriteEnd(r, |payload|) then RegionByte(r, payload, i) else ByteAt(d, i)
  {
  }

  /** e is d after the region writes and the patch. */
  ghost predicate Effect(d: seq<byte>, e: seq<byte>, r: Record, payload: seq<byte>, field: Option<nat>) {
    && |e| == OutLength(|d|, r, |payload|)
    && |d| <= |e|
    && (field.Some? ==> |payload| < M32 && field.value + 4 <= |d|)
    && forall i :: 0 <= i < |e| ==> e[i] == OutByte(d, r, payload, field, i)
  }

  /** The whole output of a replacement: every byte of it, and its length. */
  lemma ReplaceEffect(d: seq<byte>, payload: seq<byte>, t: int, h: nat, rs: seq<Record>, k: nat)
    requires Parsed(d, h, rs) && Selects(rs, t, k) && Recordable(t, |payload|)
    ensures Replace(d, payload, t).Done?
    ensures Effect(d, Replace(d, payload, t).file, rs[k], payload, PatchedField(h, t, k))
  {
    OverwrittenBytes(d, rs[k], payload);
    if t == 0 {
      assert Replace(d, payload, t) == Done(Overwritten(d, rs[k], payload));
    } else {
      PatchedEffect(d, payload, t, h, rs, k);
    }
  }

  /** A payload too long for its size field is noticed after the file has been written. */
  lemma TooLargeEffect(d: seq<byte>, payload: seq<byte>, t: int, h: nat, rs: seq<Record>, k: nat)
    requires Parsed(d, h, rs) && Selects(rs, t, k) && !Recordable(t, |payload|)
    ensures Replace(d, payload, t).SizeTooLarge?
    ensures Effect(d, Replace(d, payload, t).file, rs[k], payload, None)
  {
    OverwrittenBytes(d, rs[k], payload);
  }

  lemma PatchedResult(d: seq<byte>, payload: seq<byte>, t: int, h: nat, rs: seq<Record>, k: nat)
    requires Parsed(d, h, rs) && Selects(rs, t, k) && |payload| < M32 && t != 0
    ensures Replace(d, payload, t) == Done(FileWrite(Overwritten(d, rs[k], payload), SizeField(h, k), Le32(|payload|)))
  {
  }

  lemma PatchedEffect(d: seq<byte>, payload: seq<byte>, t: int, h: nat, rs: seq<Record>, k: nat)
    requires Parsed(d, h, rs) && Selects(rs, t, k) && |payload| < M32 && t != 0
    ensures Replace(d, payload, t).Done?
    ensures Effect(d, Replace(d, payload, t).file, rs[k], payload, Some(SizeField(h, k)))
  {
    OverwrittenBytes(d, rs[k], payload);
    SelectedStored(d, h, rs, t, k);
    PatchedResult(d, payload, t, h, rs, k);
    PatchBytes(d, Overwritten(d, rs[k], payload), rs[k], payload, SizeField(h, k));
  }

  lemma PatchBytes(d: seq<byte>, f: seq<byte>, r: Record, payload: seq<byte>, field: nat)
    requires |payload| < M32 && field + 4 <= |d| <= |f| && |f| == OutLength(|d|, r, |payload|)
    requires forall i :: 0 <= i < |f| ==>
               f[i] == if r.offset <= i < WriteEnd(r, |payload|) then RegionByte(r, payload, i) else ByteAt(d, i)
    ensures Effect(d, FileWrite(f, field, Le32(|payload|)), r, payload, Some(field))
  {
  }

  /** The frame of a fitting replacement inside the file: same length, the region is the payload
      followed by 0xFF, the size field is the payload's length, and nothing else changed. */
  ghost predicate Framed(d: seq<byte>, e: seq<byte>, r: Record, payload: seq<byte>, field: Option<nat>)
    requires |payload| <= r.size && r.offset + r.size <= |d|
    requires field.Some? ==> |payload| < M32 && field.value + 4 <= |d|
  {
    && |e| == |d|
    && e[r.offset..r.offset + r.size] == payload + Fill(r.size - |payload|, 0xFF)
    && (field.Some? ==> e[field.value..field.value + 4] == Le32(|payload|))
    && forall i :: 0 <= i < |d| ==> e[i] == d[i] || r.offset <= i < r.offset + r.size
                                    || (field.Some? && field.value <= i < field.value + 4)
  }

  lemma EffectFramed(d: seq<byte>, e: seq<byte>, r: Record, payload: seq<byte>, field: Option<nat>)
    requires Effect(d, e, r, payload, field)
    requires |payload| <= r.size && r.offset + r.size <= |d|
    requires field.Some? ==> field.value + 4 <= r.offset || r.offset + r.size <= field.value || r.size == 0
    ensures Framed(d, e, r, payload, field)
  {
    var region, want := e[r.offset..r.offset + r.size], payload + Fill(r.size - |payload|, 0xFF);
    forall j | 0 <= j < |region|
      ensures region[j] == want[j]
    {
      assert region[j] == OutByte(d, r, payload, field, r.offset + j);
    }
    if field.Some? {
      var patch := e[field.value..field.value + 4];
      forall j | 0 <= j < 4
        ensures patch[j] == Le32(|payload|)[j]
      {
        assert patch[j] == OutByte(d, r, payload, field, field.value + j);
      }
    }
  }

  lemma FittingFrame(d: seq<byte>, payload: seq<byte>, t: int, h: nat, rs: seq<Record>, k: nat)
    requires Parsed(d, h, rs) && Selects(rs, t, k)
    requires |payload| <= rs[k].size && rs[k].offset + rs[k].size <= |d|
    requires Clear(h, rs, rs[k].offset, rs[k].offset + rs[k].size)
    ensures Replace(d, payload, t).Done?
    ensures t != 0 ==> SizeField(h, k) + 4 <= |d|
    ensures Framed(d, Replace(d, payload, t).file, rs[k], payload, PatchedField(h, t, k))
  {
    ReplaceEffect(d, payload, t, h, rs, k);
    if t != 0 {
      SelectedStored(d, h, rs, t, k);
    }
    EffectFramed(d, Replace(d, payload, t).file, rs[k], payload, PatchedField(h, t, k));
  }

  // ----- the table afterwards -----

  /** Bytes lo .. hi lie neither in the probed magic nor in the table. */
  ghost predicate Clear(h: nat, rs: seq<Record>, lo: nat, hi: nat)
    requires |rs| > 0
  {
    hi <= lo || ((hi <= FIRST_HEADER || FIRST_HEADER + 4 <= lo) && (hi <= h || TableEnd(h, rs) <= lo))
  }

  ghost predicate AgreeOn(d: seq<byte>, e: seq<byte>, lo: nat, hi: nat) {
    hi <= |d| && hi <= |e| && forall i :: lo <= i < hi ==> d[i] == e[i]
  }

  lemma MagicAgrees(d: seq<byte>, e: seq<byte>, at: nat)
    requires AgreeOn(d, e, at, at + 4)
    ensures HasMagic(d, at) <==> HasMagic(e, at)
  {
    assert d[at..at + 4] == e[at..at + 4];
  }

  /** The record stored at a place, with the size that is now found there. */
  lemma RecordAgrees(d: seq<byte>, e: seq<byte>, at: nat, size: word)
    requires at + 16 <= |d| && at + 16 <= |e|
    requires AgreeOn(d, e, at, at + 8) && AgreeOn(d, e, at + 12, at + 16)
    requires Get32(e, at + 8) == size
    ensures RecordAt(e, at) == RecordAt(d, at).(size := size)
  {
    Get32Agree(d, e, at);
    Get32Agree(d, e, at + 4);
    Get32Agree(d, e, at + 12);
  }

  lemma SameRecord(d: seq<byte>, e: seq<byte>, at: nat)
    requires at + 16 <= |d| && AgreeOn(d, e, at, at + 16)
    ensures RecordAt(e, at) == RecordAt(d, at)
  {
    Get32Agree(d, e, at + 8);
    RecordAgrees(d, e, at, RecordAt(d, at).size);
  }

  lemma HeaderStays(d: seq<byte>, e: seq<byte>, h: nat, rs: seq<Record>)
    requires Parsed(d, h, rs) && |d| <= |e|
    requires AgreeOn(d, e, FIRST_HEADER, FIRST_HEADER + 4) && AgreeOn(d, e, h, h + HEADER_BYTES)
    ensures HeaderOffset(e) == h && HasMagic(e, h) && Get32(e, h + 8) == |rs| - 1
    ensures ParseAt(e, h).Table?
    ensures ParseAt(e, h).records == RecordsAt(e, h + HEADER_BYTES, |rs| - 1) + [EC_RECORD]
  {
    ParsedShape(d, h, rs);
    MagicAgrees(d, e, FIRST_HEADER);
    assert AgreeOn(d, e, h, h + 4);
    MagicAgrees(d, e, h);
    Get32Agree(d, e, h + 8);
  }

  /** The table as a replacement should leave it. */
  function TableAfter(rs: seq<Record>, t: int, k: nat, n: nat): (r: seq<Record>)
    requires k < |rs|
    ensures |r| == |rs|
  {
    if t == 0 then rs else rs[k := rs[k].(size := n)]
  }

  /** The table bytes of e are those of d, but for one patched size field. */
  ghost predicate TableBytes(d: seq<byte>, e: seq<byte>, h: nat, rs: seq<Record>, field: Option<nat>)
    requires |rs| > 0
  {
    && |d| <= |e| && TableEnd(h, rs) <= |d|
    && forall i :: h <= i < TableEnd(h, rs) ==> e[i] == d[i] || (field.Some? && field.value <= i < field.value + 4)
  }

  lemma RecordAfter(d: seq<byte>, e: seq<byte>, h: nat, rs: seq<Record>, t: int, k: nat, n: nat, i: nat)
    requires |rs| > 0 && TableBytes(d, e, h, rs, PatchedField(h, t, k)) && k < |rs| && i < |rs| - 1
    requires t != 0 ==> SizeField(h, k) + 4 <= |e| && Get32(e, SizeField(h, k)) == n
    requires rs[i] == RecordAt(d, h + HEADER_BYTES + 16 * i)
    ensures RecordAt(e, h + HEADER_BYTES + 16 * i) == TableAfter(rs, t, k, n)[i]
  {
    var at := h + HEADER_BYTES + 16 * i;
    if t != 0 && i == k {
      RecordAgrees(d, e, at, n);
    } else {
      SameRecord(d, e, at);
    }
  }

  /** A file that agrees with d on the magic and the table, except that one size field was
      patched, has the patched table. */
  lemma TablePatched(d: seq<byte>, e: seq<byte>, h: nat, rs: seq<Record>, t: int, k: nat, n: nat)
    requires Parsed(d, h, rs) && k < |rs| && (t != 0 ==> k < |rs| - 1)
    requires AgreeOn(d, e, FIRST_HEADER, FIRST_HEADER + 4) && TableBytes(d, e, h, rs, PatchedField(h, t, k))
    requires t != 0 ==> SizeField(h, k) + 4 <= |e| && Get32(e, SizeField(h, k)) == n
    ensures Parsed(e, h, TableAfter(rs, t, k, n))
  {
    ParsedShape(d, h, rs);
    HeaderStays(d, e, h, rs);
    var after := TableAfter(rs, t, k, n);
    var stored := RecordsAt(e, h + HEADER_BYTES, |rs| - 1);
    forall i | 0 <= i < |rs| - 1
      ensures stored[i] == after[i]
    {
      RecordAfter(d, e, h, rs, t, k, n, i);
    }
    SplitLast(after, stored);
  }

  lemma SplitLast(a: seq<Record>, stored: seq<Record>)
    requires |a| == |stored| + 1 && a[|stored|] == EC_RECORD
    requires forall i :: 0 <= i < |stored| ==> stored[i] == a[i]
    ensures a == stored + [EC_RECORD]
  {
  }

  lemma PatchReads(d: seq<byte>, e: seq<byte>, r: Record, payload: seq<byte>, f: nat)
    requires Effect(d, e, r, payload, Some(f))
    ensures f + 4 <= |e| && Get32(e, f) == |payload|
  {
    var patch := e[f..f + 4];
    forall j | 0 <= j < 4
      ensures patch[j] == Le32(|payload|)[j]
    {
      assert patch[j] == OutByte(d, r, payload, Some(f), f + j);
    }
    Le32RoundTrip(e, f, |payload|);
  }

  lemma EffectClear(d: seq<byte>, e: seq<byte>, h: nat, rs: seq<Record>, t: int, k: nat, payload: seq<byte>)
    requires Parsed(d, h, rs) && Selects(rs, t, k)
    requires Effect(d, e, rs[k], payload, PatchedField(h, t, k))
    requires Clear(h, rs, rs[k].offset, WriteEnd(rs[k], |payload|))
    ensures AgreeOn(d, e, FIRST_HEADER, FIRST_HEADER + 4)
    ensures TableBytes(d, e, h, rs, PatchedField(h, t, k))
    ensures t != 0 ==> SizeField(h, k) + 4 <= |e| && Get32(e, SizeField(h, k)) == |payload|
  {
    ParsedShape(d, h, rs);
    if t != 0 {
      SelectedStored(d, h, rs, t, k);
      PatchReads(d, e, rs[k], payload, SizeField(h, k));
    }
  }

  lemma SelectionStays(rs: seq<Record>, t: int, k: nat, n: nat, u: int, m: nat)
    requires k < |rs| && Selects(rs, u, m)
    ensures Selects(TableAfter(rs, t, k, n), u, m)
  {
    FirstOfTypeUnique(TableAfter(rs, t, k, n), u, m);
  }

  /** Reparsing after a replacement whose writes stay clear of the magic and the table: same
      header, same records, except for the size of the selected one. */
  lemma Reparse(d: seq<byte>, payload: seq<byte>, t: int, h: nat, rs: seq<Record>, k: nat)
    requires Parsed(d, h, rs) && Selects(rs, t, k) && Recordable(t, |payload|)
    requires Clear(h, rs, rs[k].offset, WriteEnd(rs[k], |payload|))
    ensures Replace(d, payload, t).Done?
    ensures Parsed(Replace(d, payload, t).file, h, TableAfter(rs, t, k, |payload|))
  {
    ReplaceEffect(d, payload, t, h, rs, k);
    var e := Replace(d, payload, t).file;
    EffectClear(d, e, h, rs, t, k, payload);
    if t != 0 {
      SelectedStored(d, h, rs, t, k);
    }
    TablePatched(d, e, h, rs, t, k, |payload|);
  }

  /** Looking the mutated record up by value still finds it: no earlier record can equal it. */
  lemma LookupAfterMutation(rs: seq<Record>, t: int, k: nat, n: nat, i: nat)
    requires Selects(rs, t, k) && i <= k
    ensures rs[k := rs[k].(size := n)][i] == rs[k].(size := n) <==> i == k
  {
    assert i < k ==> rs[i].imageType != rs[k].imageType;
  }
}
