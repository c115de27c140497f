/** How a replacement ends, and what it leaves in the file, in terms of the bytes of the input. */
module SubImageOutcome {
  import opened Bytes
  import opened SubImage
  import opened SubImageEffect

  // ----- the table in the bytes -----

  /** The four bytes AA 55 AA 55 at a position of the file. */
  predicate Carries(d: seq<byte>, at: nat) {
    at + 4 <= |d| && d[at] == 0xAA && d[at + 1] == 0x55 && d[at + 2] == 0xAA && d[at + 3] == 0x55
  }

  /** The table is at h: 0x100000 if that carries the magic, otherwise 0x200000 if that does. */
  predicate TableAt(d: seq<byte>, h: nat) {
    Carries(d, h) && (h == 0x10_0000 || (h == 0x20_0000 && !Carries(d, 0x10_0000)))
  }

  /** The header of 16 bytes and as many records of 16 bytes as its word at 8 says lie inside the file. */
  predicate Whole(d: seq<byte>, h: nat) {
    h + 16 <= |d| && h + 16 + 16 * Get32(d, h + 8) <= |d|
  }

  /** Record k of the stored table. */
  predicate Stored(d: seq<byte>, h: nat, k: nat) {
    Whole(d, h) && k < Get32(d, h + 8)
  }

  function TypeOf(d: seq<byte>, h: nat, k: nat): word
    requires Stored(d, h, k)
  {
    Get32(d, h + 16 + 16 * k)
  }

  ghost predicate HasType(d: seq<byte>, h: nat, t: int) {
    exists k: nat :: Stored(d, h, k) && TypeOf(d, h, k) == t
  }

  /** Record k is the first of the stored table that has type t. */
  ghost predicate FirstStored(d: seq<byte>, h: nat, t: int, k: nat) {
    && Stored(d, h, k) && TypeOf(d, h, k) == t
    && forall j: nat :: j < k && Stored(d, h, j) ==> TypeOf(d, h, j) != t
  }

  lemma MagicBytes(d: seq<byte>, at: nat)
    ensures HasMagic(d, at) <==> Carries(d, at)
  {
    if at + 4 <= |d| {
      var m := d[at..at + 4];
      assert m[0] == d[at] && m[1] == d[at + 1] && m[2] == d[at + 2] && m[3] == d[at + 3];
      assert Carries(d, at) ==> m == MAGIC;
    }
  }

  /** What the parser finds, at both places. */
  lemma ParserFinds(d: seq<byte>)
    ensures var h, p := HeaderOffset(d), ParseAt(d, HeaderOffset(d));
            && (p.NoMagic? <==> !Carries(d, 0x10_0000) && !Carries(d, 0x20_0000))
            && (!p.NoMagic? ==> TableAt(d, h))
            && (p.Short? <==> TableAt(d, h) && !Whole(d, h))
            && (p.Table? <==> TableAt(d, h) && Whole(d, h))
  {
    MagicBytes(d, 0x10_0000);
    MagicBytes(d, 0x20_0000);
  }

  lemma OneTable(d: seq<byte>, g: nat, h: nat)
    requires TableAt(d, g) && TableAt(d, h)
    ensures g == h
  {
  }

  /** The records a request is matched against: those stored, then the default one of type zero. */
  lemma FoundRecords(d: seq<byte>, h: nat)
    requires TableAt(d, h) && Whole(d, h)
    ensures Parsed(d, h, ParseAt(d, h).records)
    ensures var rs, n := ParseAt(d, h).records, Get32(d, h + 8);
            && |rs| == n + 1 && rs[n] == Record(0, 0x1_0000, 0x2_0000, 0)
            && forall k: nat :: k < n ==> Stored(d, h, k) && rs[k].imageType == TypeOf(d, h, k)
                                          && rs[k].offset == Get32(d, h + 16 + 16 * k + 4)
                                          && rs[k].size == Get32(d, h + 16 + 16 * k + 8)
  {
    ParserFinds(d);
    OneTable(d, h, HeaderOffset(d));
  }

  /** The record a request selects: the first stored one of the type, or the default one. */
  lemma Selected(d: seq<byte>, h: nat, t: int, k: nat)
    requires TableAt(d, h) && Whole(d, h)
    ensures var rs, n := ParseAt(d, h).records, Get32(d, h + 8);
            && |rs| == n + 1
            && (FirstStored(d, h, t, k) ==> Selects(rs, t, k))
            && (t == 0 && !HasType(d, h, 0) ==> Selects(rs, t, n))
            && (FirstOfType(rs, t) == |rs| <==> t != 0 && !HasType(d, h, t))
  {
    FoundRecords(d, h);
    var rs, n := ParseAt(d, h).records, Get32(d, h + 8);
    if FirstStored(d, h, t, k) {
      assert forall j :: 0 <= j < k ==> Stored(d, h, j) && rs[j].imageType == TypeOf(d, h, j);
      FirstOfTypeUnique(rs, t, k);
    }
    if t == 0 && !HasType(d, h, 0) {
      assert forall j :: 0 <= j < n ==> Stored(d, h, j) && rs[j].imageType == TypeOf(d, h, j);
      FirstOfTypeUnique(rs, t, n);
    }
    NoneOfType(d, h, t);
  }

  lemma NoneOfType(d: seq<byte>, h: nat, t: int)
    requires TableAt(d, h) && Whole(d, h)
    ensures var rs := ParseAt(d, h).records;
            FirstOfType(rs, t) == |rs| <==> t != 0 && !HasType(d, h, t)
  {
    FoundRecords(d, h);
    var rs, n := ParseAt(d, h).records, Get32(d, h + 8);
    var m := FirstOfType(rs, t);
    if m == |rs| {
      assert rs[n].imageType != t;
      forall k: nat | Stored(d, h, k)
        ensures TypeOf(d, h, k) != t
      {
        assert rs[k].imageType != t;
      }
    } else if m < n {
      assert Stored(d, h, m) && TypeOf(d, h, m) == t;
    }
  }

  // ----- how it ends -----

  /** No file results without a table: nothing is written where neither place carries the magic. */
  lemma EndsWithoutHeader(d: seq<byte>, payload: seq<byte>, t: int)
    ensures Replace(d, payload, t) == NoHeader <==> !Carries(d, 0x10_0000) && !Carries(d, 0x20_0000)
  {
    ParserFinds(d);
  }

  /** Nor where the table runs past the end of the file. */
  lemma EndsWithShortTable(d: seq<byte>, payload: seq<byte>, t: int)
    ensures Replace(d, payload, t) == ShortTable <==> exists h: nat :: TableAt(d, h) && !Whole(d, h)
  {
    ParserFinds(d);
    if h: nat :| TableAt(d, h) && !Whole(d, h) {
      OneTable(d, h, HeaderOffset(d));
    }
  }

  /** Nor where the table is whole and no stored record has the type, unless that is zero. */
  lemma EndsWithoutType(d: seq<byte>, payload: seq<byte>, t: int)
    ensures Replace(d, payload, t) == NoSuchType <==>
            exists h: nat :: TableAt(d, h) && Whole(d, h) && t != 0 && !HasType(d, h, t)
  {
    ParserFinds(d);
    if ParseAt(d, HeaderOffset(d)).Table? {
      NoneOfType(d, HeaderOffset(d), t);
    }
    if h: nat :| TableAt(d, h) && Whole(d, h) && t != 0 && !HasType(d, h, t) {
      OneTable(d, h, HeaderOffset(d));
    }
  }

  /** A file that cannot be recorded results exactly if the record is stored, of a nonzero type, and the
      payload is of 2^32 bytes or more. */
  lemma EndsTooLarge(d: seq<byte>, payload: seq<byte>, t: int)
    ensures Replace(d, payload, t).SizeTooLarge? <==>
            exists h: nat :: TableAt(d, h) && t != 0 && HasType(d, h, t) && |payload| >= 0x1_0000_0000
  {
    ParserFinds(d);
    if ParseAt(d, HeaderOffset(d)).Table? {
      NoneOfType(d, HeaderOffset(d), t);
    }
    if h: nat :| TableAt(d, h) && t != 0 && HasType(d, h, t) && |payload| >= 0x1_0000_0000 {
      OneTable(d, h, HeaderOffset(d));
    }
  }

  /** In all other cases the replacement succeeds. */
  lemma EndsWell(d: seq<byte>, payload: seq<byte>, t: int)
    ensures Replace(d, payload, t).Done? <==>
            exists h: nat :: && TableAt(d, h) && Whole(d, h)
                             && (t == 0 || (HasType(d, h, t) && |payload| < 0x1_0000_0000))
  {
    ParserFinds(d);
    if ParseAt(d, HeaderOffset(d)).Table? {
      NoneOfType(d, HeaderOffset(d), t);
    }
    if h: nat :| TableAt(d, h) && Whole(d, h) && (t == 0 || (HasType(d, h, t) && |payload| < 0x1_0000_0000)) {
      OneTable(d, h, HeaderOffset(d));
    }
  }

  // ----- what the file holds then -----

  /** e is d with the payload at off, 0xFF behind it up to size bytes, and perhaps the payload's length
      patched in somewhere; a gap behind the end of d is zero. */
  ghost predicate Replaced(d: seq<byte>, e: seq<byte>, off: nat, size: nat, payload: seq<byte>, field: Option<nat>) {
    && LengthOf(d, e, off, size, |payload|)
    && (field.Some? ==> field.value + 4 <= |d| && Get32(e, field.value) == |payload|)
    && forall i :: 0 <= i < |e| && (field.None? || i < field.value || field.value + 4 <= i) ==>
         e[i] == if off <= i < off + |payload| then payload[i - off]
                 else if off <= i < off + size then 0xFF
                 else if i < |d| then d[i] else 0
  }

  /** The length of the result: no byte is lost, and no more are added than are written. */
  ghost predicate LengthOf(d: seq<byte>, e: seq<byte>, off: nat, size: nat, n: nat) {
    && |e| >= |d| && (size > 0 ==> |e| >= off + size) && (n > 0 ==> |e| >= off + n)
    && (|e| == |d| || (size > 0 && |e| == off + size) || (n > 0 && |e| == off + n))
  }

  lemma EffectReplaced(d: seq<byte>, e: seq<byte>, r: Record, payload: seq<byte>, field: Option<nat>)
    requires Effect(d, e, r, payload, field)
    ensures Replaced(d, e, r.offset, r.size, payload, field)
  {
    if field.Some? {
      PatchReads(d, e, r, payload, field.value);
    }
    forall i | 0 <= i < |e| && (field.None? || i < field.value || field.value + 4 <= i)
      ensures e[i] == if r.offset <= i < r.offset + |payload| then payload[i - r.offset]
                      else if r.offset <= i < r.offset + r.size then 0xFF
                      else if i < |d| then d[i] else 0
    {
      assert e[i] == OutByte(d, r, payload, field, i);
    }
  }

  lemma StoredRequest(d: seq<byte>, t: int, h: nat, k: nat)
    requires TableAt(d, h) && FirstStored(d, h, t, k)
    ensures var rs, at := ParseAt(d, h).records, h + 16 + 16 * k;
            && at + 16 <= |d| && k < |rs| && Parsed(d, h, rs) && Selects(rs, t, k)
            && rs[k].offset == Get32(d, at + 4) && rs[k].size == Get32(d, at + 8) && SizeField(h, k) == at + 8
  {
    FoundRecords(d, h);
    Selected(d, h, t, k);
  }

  /** A request for a type that is stored: offset and size are the second and third word of its record, and
      unless the type is zero the third word becomes the payload's length. */
  lemma StoredReplaced(d: seq<byte>, payload: seq<byte>, t: int, h: nat, k: nat)
    requires TableAt(d, h) && FirstStored(d, h, t, k) && (t == 0 || |payload| < 0x1_0000_0000)
    ensures Replace(d, payload, t).Done?
    ensures var at := h + 16 + 16 * k;
            && at + 16 <= |d|
            && Replaced(d, Replace(d, payload, t).file, Get32(d, at + 4), Get32(d, at + 8), payload,
                        if t == 0 then None else Some(at + 8))
  {
    var rs := ParseAt(d, h).records;
    StoredRequest(d, t, h, k);
    ReplaceEffect(d, payload, t, h, rs, k);
    EffectReplaced(d, Replace(d, payload, t).file, rs[k], payload, PatchedField(h, t, k));
  }

  /** A request for type zero where none is stored: 0x20000 bytes at 0x10000, and no size is patched. */
  lemma DefaultReplaced(d: seq<byte>, payload: seq<byte>, h: nat)
    requires TableAt(d, h) && Whole(d, h) && !HasType(d, h, 0)
    ensures Replace(d, payload, 0).Done?
    ensures Replaced(d, Replace(d, payload, 0).file, 0x1_0000, 0x2_0000, payload, None)
  {
    var rs, n := ParseAt(d, h).records, Get32(d, h + 8);
    FoundRecords(d, h);
    Selected(d, h, 0, 0);
    ReplaceEffect(d, payload, 0, h, rs, n);
    EffectReplaced(d, Replace(d, payload, 0).file, rs[n], payload, None);
  }

  /** A payload that cannot be recorded: its region is written all the same, its length is not. */
  lemma TooLargeReplaced(d: seq<byte>, payload: seq<byte>, t: int, h: nat, k: nat)
    requires TableAt(d, h) && FirstStored(d, h, t, k) && t != 0 && |payload| >= 0x1_0000_0000
    ensures Replace(d, payload, t).SizeTooLarge?
    ensures var at := h + 16 + 16 * k;
            && at + 16 <= |d|
            && Replaced(d, Replace(d, payload, t).file, Get32(d, at + 4), Get32(d, at + 8), payload, None)
  {
    var rs := ParseAt(d, h).records;
    StoredRequest(d, t, h, k);
    TooLargeEffect(d, payload, t, h, rs, k);
    EffectReplaced(d, Replace(d, payload, t).file, rs[k], payload, None);
  }
}
