/** Files as Python's binary file objects see them. */
module BinaryFile {
  import opened Bytes

  /** The file s after d was written at position at: a gap beyond the end reads as zeros,
      and writing nothing changes nothing. */
  function FileWrite(s: seq<byte>, at: nat, d: seq<byte>): (r: seq<byte>)
    ensures |r| == WrittenLength(|s|, at, |d|)
    ensures forall i :: 0 <= i < |r| ==> r[i] == if at <= i < at + |d| then d[i - at] else ByteAt(s, i)
  {
    if d == [] then s
    else if at + |d| <= |s| then s[..at] + d + s[at + |d|..]
    else if at <= |s| then s[..at] + d
    else s + Fill(at - |s|, 0) + d
  }

  function WrittenLength(n: nat, at: nat, d: nat): nat {
    if d == 0 || at + d <= n then n else at + d
  }

  function ByteAt(s: seq<byte>, i: nat): byte {
    if i < |s| then s[i] else 0
  }

  function Clip(s: seq<byte>, at: nat, n: nat): seq<byte> {
    if |s| <= at then [] else if |s| <= at + n then s[at..] else s[at..at + n]
  }

  class File {
    var data: seq<byte>
    var pos: nat

    /** Opened for reading. */
    constructor Reading(contents: seq<byte>)
      ensures data == contents && pos == 0
    {
      data, pos := contents, 0;
    }

    /** Opened for writing, which truncates. */
    constructor Writing()
      ensures data == [] && pos == 0
    {
      data, pos := [], 0;
    }

    method Seek(p: nat)
      modifies this
      ensures data == old(data) && pos == p
    {
      pos := p;
    }

    /** Up to n bytes; fewer at the end of the file, none beyond it. */
    method Read(n: nat) returns (s: seq<byte>)
      modifies this
      ensures data == old(data) && s == Clip(data, old(pos), n) && pos == old(pos) + |s|
    {
      s := Clip(data, pos, n);
      pos := pos + |s|;
    }

    method Write(d: seq<byte>)
      modifies this
      ensures data == FileWrite(old(data), old(pos), d) && pos == old(pos) + |d|
    {
      data := FileWrite(data, pos, d);
      pos := pos + |d|;
    }
  }
}
