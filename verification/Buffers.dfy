// Copying into a slice of a byte buffer.
module Buffers {
  import opened Wire

  // s with the bytes from position at on overwritten.
  ghost function Splice(s: seq<Byte>, at: nat, bytes: seq<Byte>): (r: seq<Byte>)
    requires at + |bytes| <= |s|
    ensures |r| == |s|
  {
    s[..at] + bytes + s[at + |bytes|..]
  }

  lemma SpliceAt(s: seq<Byte>, at: nat, bytes: seq<Byte>)
    requires at + |bytes| <= |s|
    ensures forall i :: 0 <= i < |s| ==>
      Splice(s, at, bytes)[i] == if at <= i < at + |bytes| then bytes[i - at] else s[i]
  {
  }

  lemma SpliceTwice(s: seq<Byte>, at: nat, a: seq<Byte>, b: seq<Byte>)
    requires at + |a| + |b| <= |s|
    ensures Splice(Splice(s, at, a), at + |a|, b) == Splice(s, at, a + b)
  {
  }

  lemma SpliceNext(s: seq<Byte>, at: nat, bytes: seq<Byte>, i: nat)
    requires i < |bytes| && at + |bytes| <= |s|
    ensures Splice(s, at, bytes[..i])[at + i := bytes[i]] == Splice(s, at, bytes[..i + 1])
  {
  }

  // Go's copy of a slice into another array.
  method Put(buffer: array<Byte>, offset: nat, bytes: seq<Byte>) returns (next: nat)
    requires offset + |bytes| <= buffer.Length
    modifies buffer
    ensures buffer[..] == Splice(old(buffer[..]), offset, bytes)
    ensures next == offset + |bytes|
  {
    for i := 0 to |bytes|
      invariant buffer[..] == Splice(old(buffer[..]), offset, bytes[..i])
    {
      SpliceNext(old(buffer[..]), offset, bytes, i);
      ghost var before := buffer[..];
      buffer[offset + i] := bytes[i];
      assert buffer[..] == before[offset + i := bytes[i]];
    }
    assert bytes[..|bytes|] == bytes;
    next := offset + |bytes|;
  }

  // Put once more, just behind what has been written since the buffer held s.
  method PutNext(buffer: array<Byte>, ghost s: seq<Byte>, ghost start: nat, ghost written: seq<Byte>,
                 offset: nat, bytes: seq<Byte>) returns (next: nat)
    requires |s| == buffer.Length && offset == start + |written| && offset + |bytes| <= buffer.Length
    requires buffer[..] == Splice(s, start, written)
    modifies buffer
    ensures buffer[..] == Splice(s, start, written + bytes) && next == start + |written + bytes|
  {
    SpliceTwice(s, start, written, bytes);
    next := Put(buffer, offset, bytes);
  }
}
