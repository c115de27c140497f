/** Bytes, little-endian integers, and the two ways an image is described:
    a splice into a buffer, and a concatenation of segments. */
module Bytes {

  type byte = x: int | 0 <= x < 0x100
  type half = x: int | 0 <= x < 0x1_0000
  type word = x: int | 0 <= x < 0x1_0000_0000

  const M32: int := 0x1_0000_0000

  datatype Option<+T> = None | Some(value: T)

  function Le16(v: half): (s: seq<byte>)
    ensures |s| == 2
  {
    [v % 0x100, v / 0x100]
  }

  function Le32(v: word): (s: seq<byte>)
    ensures |s| == 4
  {
    Le16(v % 0x1_0000) + Le16(v / 0x1_0000)
  }

  function Get16(s: seq<byte>, at: nat): half
    requires at + 2 <= |s|
  {
    var a: int, b: int := s[at], s[at + 1];
    a + 0x100 * b
  }

  function Get32(s: seq<byte>, at: nat): word
    requires at + 4 <= |s|
  {
    var lo: int, hi: int := Get16(s, at), Get16(s, at + 2);
    lo + 0x1_0000 * hi
  }

  /** The stored form of a 16-bit value occupies two bytes and reads back as that value. */
  lemma Le16RoundTrip(s: seq<byte>, at: nat, v: half)
    requires at + 2 <= |s| && s[at..at + 2] == Le16(v)
    ensures Get16(s, at) == v
  {
    assert s[at] == s[at..at + 2][0] && s[at + 1] == s[at..at + 2][1];
  }

  lemma Le32RoundTrip(s: seq<byte>, at: nat, v: word)
    requires at + 4 <= |s| && s[at..at + 4] == Le32(v)
    ensures Get32(s, at) == v
  {
    var t := s[at..at + 4];
    assert t[..2] == Le16(v % 0x1_0000) && t[2..] == Le16(v / 0x1_0000);
    assert s[at..at + 2] == t[..2] && s[at + 2..at + 4] == t[2..];
    Le16RoundTrip(s, at, v % 0x1_0000);
    Le16RoundTrip(s, at + 2, v / 0x1_0000);
  }

  /** Reading depends on the bytes read only. */
  lemma Get32Agree(s: seq<byte>, t: seq<byte>, at: nat)
    requires at + 4 <= |s| && at + 4 <= |t|
    requires forall i :: at <= i < at + 4 ==> s[i] == t[i]
    ensures Get32(s, at) == Get32(t, at)
  {
  }

  function Fill(n: nat, b: byte): (s: seq<byte>)
    ensures |s| == n && forall i :: 0 <= i < n ==> s[i] == b
  {
    seq(n, _ => b)
  }

  /** The buffer s after the bytes d were stored at position at. */
  function Splice(s: seq<byte>, at: nat, d: seq<byte>): (r: seq<byte>)
    requires at + |d| <= |s|
    ensures |r| == |s|
    ensures forall i :: 0 <= i < |s| ==> r[i] == if at <= i < at + |d| then d[i - at] else s[i]
  {
    s[..at] + d + s[at + |d|..]
  }

  lemma ConcatAssociates(p: seq<byte>, m: seq<byte>, q: seq<byte>)
    ensures (p + m) + q == p + (m + q)
  {
  }

  /** The middle part of a concatenation is found at its place. */
  lemma MiddleSlice(p: seq<byte>, m: seq<byte>, q: seq<byte>)
    ensures ((p + m) + q)[|p|..|p| + |m|] == m
  {
  }

  // ----- segments -----

  function Flatten(segs: seq<seq<byte>>): seq<byte> {
    if segs == [] then [] else segs[0] + Flatten(segs[1..])
  }

  /** Where segment k begins in the concatenation. */
  function Start(segs: seq<seq<byte>>, k: nat): nat
    requires k <= |segs|
  {
    |Flatten(segs[..k])|
  }

  lemma {:induction false} FlattenSplit(segs: seq<seq<byte>>, k: nat)
    requires k <= |segs|
    ensures Flatten(segs) == Flatten(segs[..k]) + Flatten(segs[k..])
  {
    if k == 0 {
      assert segs[..0] == [] && segs[0..] == segs;
    } else {
      FlattenSplit(segs[1..], k - 1);
      assert segs[..k][1..] == segs[1..][..k - 1];
      assert segs[1..][k - 1..] == segs[k..];
    }
  }

  lemma FlattenOne(d: seq<byte>)
    ensures Flatten([d]) == d
  {
    assert |[d][1..]| == 0;
  }

  lemma FlattenAppend(a: seq<seq<byte>>, d: seq<byte>)
    ensures Flatten(a + [d]) == Flatten(a) + d
  {
    FlattenSplit(a + [d], |a|);
    assert (a + [d])[..|a|] == a && (a + [d])[|a|..] == [d];
    FlattenOne(d);
  }

  lemma FlattenThree(segs: seq<seq<byte>>, k: nat)
    requires k < |segs|
    ensures Flatten(segs) == Flatten(segs[..k]) + segs[k] + Flatten(segs[k + 1..])
    ensures Start(segs, k + 1) == Start(segs, k) + |segs[k]|
  {
    FlattenSplit(segs, k + 1);
    assert segs[..k + 1] == segs[..k] + [segs[k]];
    FlattenAppend(segs[..k], segs[k]);
  }

  lemma SpliceMiddle(p: seq<byte>, m: seq<byte>, q: seq<byte>, d: seq<byte>)
    requires |d| == |m|
    ensures Splice(p + m + q, |p|, d) == p + d + q
    ensures (p + m + q)[|p|..|p| + |m|] == m
  {
  }

  /** Segment k is found whole at its start. */
  lemma SegmentAt(segs: seq<seq<byte>>, k: nat)
    requires k < |segs|
    ensures Start(segs, k) + |segs[k]| <= |Flatten(segs)|
    ensures Flatten(segs)[Start(segs, k)..Start(segs, k) + |segs[k]|] == segs[k]
  {
    FlattenThree(segs, k);
    SpliceMiddle(Flatten(segs[..k]), segs[k], Flatten(segs[k + 1..]), segs[k]);
  }

  /** Storing a new segment k of the same length in place changes that segment and no other. */
  lemma SpliceSegment(segs: seq<seq<byte>>, k: nat, d: seq<byte>)
    requires k < |segs| && |d| == |segs[k]|
    ensures Start(segs, k) + |d| <= |Flatten(segs)|
    ensures Splice(Flatten(segs), Start(segs, k), d) == Flatten(segs[k := d])
  {
    var after := segs[k := d];
    FlattenThree(segs, k);
    FlattenThree(after, k);
    assert after[..k] == segs[..k] && after[k + 1..] == segs[k + 1..];
    SpliceMiddle(Flatten(segs[..k]), segs[k], Flatten(segs[k + 1..]), d);
  }

  lemma {:induction false} FlattenFill(segs: seq<seq<byte>>, b: byte)
    requires forall k :: 0 <= k < |segs| ==> segs[k] == Fill(|segs[k]|, b)
    ensures Flatten(segs) == Fill(|Flatten(segs)|, b)
  {
    if segs == [] {
    } else {
      FlattenFill(segs[1..], b);
    }
  }
}
