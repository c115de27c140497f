/** Two replacements in a row: when the last write wins, and when the order does not matter. */
module SubImageLaws {
  import opened Bytes
  import opened BinaryFile
  import opened SubImage
  import opened SubImageEffect

  // ----- the same type twice -----

  /** What the second replacement writes over of the first one's excess: 0xFF where the table
      had recorded the first payload's length, the first payload itself where it had not. */
  function ExcessByte(r: Record, t: int, a: seq<byte>, i: nat): byte
    requires r.offset <= i < r.offset + |a|
  {
    if t == 0 then a[i - r.offset] else 0xFF
  }

  /** Where the first payload reaches beyond both the region and the second payload, the file
      already held what the second replacement leaves there. */
  ghost predicate Harmless(d: seq<byte>, r: Record, t: int, a: seq<byte>, b: seq<byte>) {
    forall i :: r.offset + Max(r.size, |b|) <= i < r.offset + |a| ==> i < |d| && d[i] == ExcessByte(r, t, a, i)
  }

  /** Record r as the first replacement leaves it in the table. */
  function Shrunk(r: Record, t: int, n: nat): Record {
    if t == 0 then r else r.(size := n)
  }

  lemma SameLength(d: seq<byte>, r: Record, t: int, a: seq<byte>, b: seq<byte>)
    ensures OutLength(OutLength(|d|, r, |a|), Shrunk(r, t, |a|), |b|) == OutLength(|d|, r, |b|) <==>
            |a| <= Max(r.size, |b|) || r.offset + |a| <= |d|
  {
  }

  /** Byte by byte, the two results differ in the excess only. */
  lemma TwiceByte(d: seq<byte>, e: seq<byte>, r: Record, t: int, a: seq<byte>, b: seq<byte>,
                  field: Option<nat>, i: nat)
    requires Recordable(t, |b|) && Effect(d, e, r, a, field)
    requires field.Some? <==> t != 0
    ensures OutByte(e, Shrunk(r, t, |a|), b, field, i) == OutByte(d, r, b, field, i)
            || (field.Some? && field.value <= i < field.value + 4)
            || r.offset + Max(r.size, |b|) <= i < r.offset + |a|
    ensures r.offset + Max(r.size, |b|) <= i < r.offset + |a|
            && !(field.Some? && field.value <= i < field.value + 4) ==>
            && OutByte(e, Shrunk(r, t, |a|), b, field, i) == ExcessByte(r, t, a, i)
            && OutByte(d, r, b, field, i) == ByteAt(d, i)
    ensures field.Some? && field.value <= i < field.value + 4 ==>
            OutByte(e, Shrunk(r, t, |a|), b, field, i) == OutByte(d, r, b, field, i)
  {
    if i < |e| {
      assert e[i] == OutByte(d, r, a, field, i);
    }
  }

  lemma TwiceOrOnce(d: seq<byte>, e: seq<byte>, f: seq<byte>, g: seq<byte>, r: Record, t: int,
                    a: seq<byte>, b: seq<byte>, field: Option<nat>)
    requires Effect(d, e, r, a, field) && (field.Some? <==> t != 0)
    requires Effect(e, f, Shrunk(r, t, |a|), b, field) && Effect(d, g, r, b, field)
    requires field.Some? ==>
               field.value + 4 <= r.offset || WriteEnd(r, |a|) <= field.value || WriteEnd(r, |a|) == r.offset
    ensures f == g <==> Harmless(d, r, t, a, b)
  {
    SameLength(d, r, t, a, b);
    if Harmless(d, r, t, a, b) {
      if |a| > Max(r.size, |b|) {
        var last := r.offset + |a| - 1;
        var x := ExcessByte(r, t, a, last);
        assert last < |d|;
      }
      forall i | 0 <= i < |f|
        ensures f[i] == g[i]
      {
        TwiceByte(d, e, r, t, a, b, field, i);
      }
    }
    if f == g {
      forall i | r.offset + Max(r.size, |b|) <= i < r.offset + |a|
        ensures i < |d| && d[i] == ExcessByte(r, t, a, i)
      {
        TwiceByte(d, e, r, t, a, b, field, i);
      }
    }
  }

  /** Last write wins, exactly: replacing with a and then with b gives the file that replacing
      with b alone gives, if and only if a's excess is harmless. The recorded size that the first
      step shrinks, and that the second step's fill relies on, makes no difference otherwise. */
  lemma LastWriteWins(d: seq<byte>, a: seq<byte>, b: seq<byte>, t: int, h: nat, rs: seq<Record>, k: nat)
    requires Parsed(d, h, rs) && Selects(rs, t, k) && Recordable(t, |a|) && Recordable(t, |b|)
    requires Clear(h, rs, rs[k].offset, WriteEnd(rs[k], |a|))
    ensures Replace(d, a, t).Done?
    ensures Replace(Replace(d, a, t).file, b, t) == Replace(d, b, t) <==> Harmless(d, rs[k], t, a, b)
  {
    Reparse(d, a, t, h, rs, k);
    var e, after := Replace(d, a, t).file, TableAfter(rs, t, k, |a|);
    SelectionStays(rs, t, k, |a|, t, k);
    ReplaceEffect(d, a, t, h, rs, k);
    ReplaceEffect(d, b, t, h, rs, k);
    ReplaceEffect(e, b, t, h, after, k);
    if t != 0 {
      SelectedStored(d, h, rs, t, k);
    }
    TwiceOrOnce(d, e, Replace(e, b, t).file, Replace(d, b, t).file, rs[k], t, a, b, PatchedField(h, t, k));
  }

  /** In particular it always holds when the first payload fits the region. */
  lemma FittingLastWriteWins(d: seq<byte>, a: seq<byte>, b: seq<byte>, t: int, h: nat, rs: seq<Record>, k: nat)
    requires Parsed(d, h, rs) && Selects(rs, t, k) && |a| <= rs[k].size && Recordable(t, |b|)
    requires Clear(h, rs, rs[k].offset, rs[k].offset + rs[k].size)
    ensures Replace(d, a, t).Done?
    ensures Replace(Replace(d, a, t).file, b, t) == Replace(d, b, t)
  {
    FittingLength(d, h, rs, k, |a|);
    NoExcess(d, rs[k], t, a, b);
    LastWriteWins(d, a, b, t, h, rs, k);
  }

  lemma NoExcess(d: seq<byte>, r: Record, t: int, a: seq<byte>, b: seq<byte>)
    requires |a| <= r.size
    ensures Harmless(d, r, t, a, b)
  {
    assert |a| <= Max(r.size, |b|);
  }

  lemma FittingLength(d: seq<byte>, h: nat, rs: seq<Record>, k: nat, n: nat)
    requires Parsed(d, h, rs) && k < |rs| && n <= rs[k].size
    ensures n < M32 && WriteEnd(rs[k], n) == rs[k].offset + rs[k].size
  {
    SizesSmall(d, h, rs, k);
  }

  // ----- two types -----

  /** Where both replacements write, they write the same byte. */
  ghost predicate Agreeing(r: Record, a: seq<byte>, s: Record, b: seq<byte>) {
    forall i :: r.offset <= i < WriteEnd(r, |a|) && s.offset <= i < WriteEnd(s, |b|) ==>
      RegionByte(r, a, i) == RegionByte(s, b, i)
  }

  ghost predicate InField(field: Option<nat>, i: nat) {
    field.Some? && field.value <= i < field.value + 4
  }

  /** The size field lies outside the region writes. */
  ghost predicate FieldApart(field: Option<nat>, r: Record, n: nat) {
    field.Some? ==> field.value + 4 <= r.offset || WriteEnd(r, n) <= field.value || WriteEnd(r, n) == r.offset
  }

  ghost predicate FieldsApart(f: Option<nat>, g: Option<nat>) {
    f.Some? && g.Some? ==> f.value + 4 <= g.value || g.value + 4 <= f.value
  }

  lemma TwoLengths(n: nat, r: Record, a: nat, s: Record, b: nat)
    ensures OutLength(OutLength(n, r, a), s, b) == OutLength(OutLength(n, s, b), r, a)
  {
  }

  /** The byte two replacements leave, in the order r, s. */
  lemma SecondByte(d: seq<byte>, e: seq<byte>, e2: seq<byte>, r: Record, a: seq<byte>, f: Option<nat>,
                   s: Record, b: seq<byte>, g: Option<nat>, i: nat)
    requires Effect(d, e, r, a, f) && Effect(e, e2, s, b, g) && i < |e2|
    ensures e2[i] == if InField(g, i) then Le32(|b|)[i - g.value]
                     else if s.offset <= i < WriteEnd(s, |b|) then RegionByte(s, b, i)
                     else if InField(f, i) then Le32(|a|)[i - f.value]
                     else if r.offset <= i < WriteEnd(r, |a|) then RegionByte(r, a, i)
                     else ByteAt(d, i)
  {
    assert e2[i] == OutByte(e, s, b, g, i);
    if i < |e| {
      assert e[i] == OutByte(d, r, a, f, i);
    }
  }

  lemma EitherOrder(d: seq<byte>, e: seq<byte>, e2: seq<byte>, o: seq<byte>, o2: seq<byte>,
                    r: Record, a: seq<byte>, f: Option<nat>, s: Record, b: seq<byte>, g: Option<nat>)
    requires Effect(d, e, r, a, f) && Effect(e, e2, s, b, g)
    requires Effect(d, o, s, b, g) && Effect(o, o2, r, a, f)
    requires FieldApart(f, r, |a|) && FieldApart(f, s, |b|) && FieldApart(g, r, |a|) && FieldApart(g, s, |b|)
    requires FieldsApart(f, g)
    ensures e2 == o2 <==> Agreeing(r, a, s, b)
  {
    TwoLengths(|d|, r, |a|, s, |b|);
    if Agreeing(r, a, s, b) {
      forall i | 0 <= i < |e2|
        ensures e2[i] == o2[i]
      {
        SecondByte(d, e, e2, r, a, f, s, b, g, i);
        SecondByte(d, o, o2, s, b, g, r, a, f, i);
      }
    }
    if e2 == o2 {
      forall i | r.offset <= i < WriteEnd(r, |a|) && s.offset <= i < WriteEnd(s, |b|)
        ensures RegionByte(r, a, i) == RegionByte(s, b, i)
      {
        SecondByte(d, e, e2, r, a, f, s, b, g, i);
        SecondByte(d, o, o2, s, b, g, r, a, f, i);
      }
    }
  }

  lemma ClearFields(d: seq<byte>, h: nat, rs: seq<Record>, t: int, k: nat, r: Record, n: nat)
    requires Parsed(d, h, rs) && Selects(rs, t, k) && Clear(h, rs, r.offset, WriteEnd(r, n))
    ensures FieldApart(PatchedField(h, t, k), r, n)
  {
    if t != 0 {
      SelectedStored(d, h, rs, t, k);
    }
  }

  /** The second of two replacements of different types finds its record as it was. */
  lemma SecondEffect(d: seq<byte>, a: seq<byte>, t: int, k: nat, b: seq<byte>, u: int, m: nat, h: nat, rs: seq<Record>)
    requires Parsed(d, h, rs) && Selects(rs, t, k) && Selects(rs, u, m) && k != m
    requires Recordable(t, |a|) && Recordable(u, |b|)
    requires Clear(h, rs, rs[k].offset, WriteEnd(rs[k], |a|))
    ensures Replace(d, a, t).Done?
    ensures var e := Replace(d, a, t).file;
            && Effect(d, e, rs[k], a, PatchedField(h, t, k))
            && Replace(e, b, u).Done?
            && Effect(e, Replace(e, b, u).file, rs[m], b, PatchedField(h, u, m))
  {
    Reparse(d, a, t, h, rs, k);
    ReplaceEffect(d, a, t, h, rs, k);
    SelectionStays(rs, t, k, |a|, u, m);
    ReplaceEffect(Replace(d, a, t).file, b, u, h, TableAfter(rs, t, k, |a|), m);
  }

  /** Commutation, exactly: with both regions clear of the magic and the table, the two orders
      give the same file if and only if the payloads agree wherever both regions are written.
      Regions that do not overlap always commute. */
  lemma Commute(d: seq<byte>, a: seq<byte>, t: int, k: nat, b: seq<byte>, u: int, m: nat, h: nat, rs: seq<Record>)
    requires Parsed(d, h, rs) && Selects(rs, t, k) && Selects(rs, u, m) && t != u
    requires Recordable(t, |a|) && Recordable(u, |b|)
    requires Clear(h, rs, rs[k].offset, WriteEnd(rs[k], |a|))
    requires Clear(h, rs, rs[m].offset, WriteEnd(rs[m], |b|))
    ensures Replace(d, a, t).Done? && Replace(d, b, u).Done?
    ensures Replace(Replace(d, a, t).file, b, u) == Replace(Replace(d, b, u).file, a, t) <==>
            Agreeing(rs[k], a, rs[m], b)
  {
    SecondEffect(d, a, t, k, b, u, m, h, rs);
    SecondEffect(d, b, u, m, a, t, k, h, rs);
    ClearFields(d, h, rs, t, k, rs[k], |a|);
    ClearFields(d, h, rs, t, k, rs[m], |b|);
    ClearFields(d, h, rs, u, m, rs[k], |a|);
    ClearFields(d, h, rs, u, m, rs[m], |b|);
    var e, o := Replace(d, a, t).file, Replace(d, b, u).file;
    EitherOrder(d, e, Replace(e, b, u).file, o, Replace(o, a, t).file,
                rs[k], a, PatchedField(h, t, k), rs[m], b, PatchedField(h, u, m));
  }
}
