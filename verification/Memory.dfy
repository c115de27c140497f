/** The C library's stores into a raw buffer. */
module Memory {
  import opened Bytes

  /** memset over n bytes. */
  method SetBytes(a: array<byte>, at: nat, n: nat, b: byte)
    requires at + n <= a.Length
    modifies a
    ensures a[..] == Splice(old(a[..]), at, Fill(n, b))
  {
    forall i | at <= i < at + n {
      a[i] := b;
    }
  }

  /** memcpy from a source that does not overlap the target. */
  method CopyBytes(a: array<byte>, at: nat, d: seq<byte>)
    requires at + |d| <= a.Length
    modifies a
    ensures a[..] == Splice(old(a[..]), at, d)
  {
    forall i | at <= i < at + |d| {
      a[i] := d[i - at];
    }
  }

  method Store16(a: array<byte>, at: nat, v: half)
    requires at + 2 <= a.Length
    modifies a
    ensures a[..] == Splice(old(a[..]), at, Le16(v))
  {
    CopyBytes(a, at, Le16(v));
  }

  method Store32(a: array<byte>, at: nat, v: word)
    requires at + 4 <= a.Length
    modifies a
    ensures a[..] == Splice(old(a[..]), at, Le32(v))
  {
    CopyBytes(a, at, Le32(v));
  }
}
