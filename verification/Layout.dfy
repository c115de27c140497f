/** Structures laid out without gaps: a buffer as the concatenation of fields of fixed sizes. */
module Layout {
  import opened Bytes
  import opened Memory

  /** The offset of field k. */
  function Offset(sizes: seq<nat>, k: nat): nat
    requires k <= |sizes|
  {
    if k == 0 then 0 else Offset(sizes, k - 1) + sizes[k - 1]
  }

  ghost predicate Shaped(segs: seq<seq<byte>>, sizes: seq<nat>) {
    |segs| == |sizes| && forall k :: 0 <= k < |sizes| ==> |segs[k]| == sizes[k]
  }

  lemma {:induction false} StartIsOffset(segs: seq<seq<byte>>, sizes: seq<nat>, k: nat)
    requires Shaped(segs, sizes) && k <= |sizes|
    ensures Start(segs, k) == Offset(sizes, k)
  {
    if k == 0 {
    } else {
      StartIsOffset(segs, sizes, k - 1);
      FlattenThree(segs, k - 1);
    }
  }

  lemma FlattenLength(segs: seq<seq<byte>>, sizes: seq<nat>)
    requires Shaped(segs, sizes)
    ensures |Flatten(segs)| == Offset(sizes, |sizes|)
  {
    StartIsOffset(segs, sizes, |sizes|);
    assert segs[..|segs|] == segs;
  }

  /** Field k of a structure is found at its offset. */
  lemma FieldAt(segs: seq<seq<byte>>, sizes: seq<nat>, k: nat)
    requires Shaped(segs, sizes) && k < |sizes|
    ensures Offset(sizes, k) + sizes[k] <= |Flatten(segs)|
    ensures Flatten(segs)[Offset(sizes, k)..Offset(sizes, k) + sizes[k]] == segs[k]
  {
    StartIsOffset(segs, sizes, k);
    SegmentAt(segs, k);
  }

  /** A structure of fields all filled with one byte value. */
  function Filled(sizes: seq<nat>, b: byte): (segs: seq<seq<byte>>)
    ensures Shaped(segs, sizes)
  {
    seq(|sizes|, k requires 0 <= k < |sizes| => Fill(sizes[k], b))
  }

  /** memset of the whole structure. */
  method FillStructure(a: array<byte>, ghost sizes: seq<nat>, b: byte)
    requires a.Length == Offset(sizes, |sizes|)
    modifies a
    ensures a[..] == Flatten(Filled(sizes, b))
  {
    SetBytes(a, 0, a.Length, b);
    FlattenLength(Filled(sizes, b), sizes);
    FlattenFill(Filled(sizes, b), b);
  }

  /** A store of one whole field: that field changes and nothing else. */
  method StoreField(a: array<byte>, ghost segs: seq<seq<byte>>, ghost sizes: seq<nat>, ghost k: nat, at: nat,
                    d: seq<byte>)
    requires Shaped(segs, sizes) && a[..] == Flatten(segs)
    requires k < |sizes| && at == Offset(sizes, k) && |d| == sizes[k]
    modifies a
    ensures a[..] == Flatten(segs[k := d])
  {
    StartIsOffset(segs, sizes, k);
    SpliceSegment(segs, k, d);
    CopyBytes(a, at, d);
  }
}
