// The ring buffer: one slot stays empty, and a copy that reaches the end of the
// array is made in two pieces.
module RingBuffers {
  import opened Wire
  import opened Buffers
  import opened Modular

  function Min(a: int, b: int): int {
    if a < b then a else b
  }

  // The bytes between two cursors, going round the end.
  ghost function Between(s: seq<Byte>, read: nat, write: nat): seq<Byte>
    requires read < |s| && write < |s|
  {
    if read <= write then s[read..write] else s[read..] + s[..write]
  }

  // The position k places after a cursor.
  function After(read: nat, k: nat, size: nat): nat {
    if read + k < size then read + k else read + k - size
  }

  function Used(read: nat, write: nat, size: nat): int {
    if read <= write then write - read else size - read + write
  }

  lemma BetweenAt(s: seq<Byte>, read: nat, write: nat)
    requires read < |s| && write < |s|
    ensures |Between(s, read, write)| == Used(read, write, |s|)
    ensures forall k :: 0 <= k < Used(read, write, |s|) ==>
      Between(s, read, write)[k] == s[After(read, k, |s|)]
  {
  }

  // A buffer whose free part after the write cursor has been filled with data.
  ghost predicate Filled(s: seq<Byte>, t: seq<Byte>, write: nat, data: seq<Byte>) {
    && |t| == |s| && write < |s| && |data| <= |s|
    && (forall j :: 0 <= j < |data| ==> t[After(write, j, |s|)] == data[j])
    && (forall i :: 0 <= i < |s| ==> t[i] == s[i] || exists j :: 0 <= j < |data| && After(write, j, |s|) == i)
  }

  lemma FilledOnce(s: seq<Byte>, write: nat, data: seq<Byte>)
    requires write < |s| && write + |data| <= |s|
    ensures Filled(s, Splice(s, write, data), write, data)
  {
    SpliceAt(s, write, data);
    forall i | 0 <= i < |s|
      ensures Splice(s, write, data)[i] == s[i] || exists j :: 0 <= j < |data| && After(write, j, |s|) == i
    {
      if write <= i < write + |data| { assert After(write, i - write, |s|) == i; }
    }
  }

  lemma FilledTwice(s: seq<Byte>, write: nat, data: seq<Byte>)
    requires write < |s| && |s| < write + |data| && |data| <= |s|
    ensures var first := |s| - write;
            Filled(s, Splice(Splice(s, write, data[..first]), 0, data[first..]), write, data)
  {
    var first := |s| - write;
    var t := Splice(s, write, data[..first]);
    var u := Splice(t, 0, data[first..]);
    forall i | 0 <= i < |s|
      ensures u[i] == if i >= write then data[i - write] else if i < |data| - first then data[first + i] else s[i]
    {
      SpliceAt(s, write, data[..first]);
      SpliceAt(t, 0, data[first..]);
    }
    forall i | 0 <= i < |s|
      ensures u[i] == s[i] || exists j :: 0 <= j < |data| && After(write, j, |s|) == i
    {
      if i >= write {
        assert After(write, i - write, |s|) == i;
      } else if i < |data| - first {
        assert After(write, i + first, |s|) == i;
      }
    }
  }

  // Filling the free part appends to the queue.
  lemma FilledAppends(s: seq<Byte>, t: seq<Byte>, read: nat, write: nat, data: seq<Byte>)
    requires read < |s| && Filled(s, t, write, data) && |data| < |s| - |Between(s, read, write)|
    ensures Between(t, read, After(write, |data|, |s|)) == Between(s, read, write) + data
  {
    var n, next := |Between(s, read, write)|, After(write, |data|, |s|);
    BetweenAt(s, read, write);
    BetweenAt(t, read, next);
    assert Used(read, next, |s|) == n + |data|;
    forall k | 0 <= k < n + |data| ensures Between(t, read, next)[k] == (Between(s, read, write) + data)[k] {
      if k < n {
        forall j | 0 <= j < |data| ensures After(write, j, |s|) != After(read, k, |s|) {
        }
      } else {
        assert After(read, k, |s|) == After(write, k - n, |s|);
      }
    }
  }

  lemma Removed(s: seq<Byte>, read: nat, write: nat, n: nat)
    requires read < |s| && write < |s| && n <= |Between(s, read, write)|
    ensures var end := read + n;
      if end <= |s| then
        && s[read..end] == Between(s, read, write)[..n]
        && Between(s, if end < |s| then end else 0, write) == Between(s, read, write)[n..]
      else
        && s[read..] + s[..end - |s|] == Between(s, read, write)[..n]
        && Between(s, end - |s|, write) == Between(s, read, write)[n..]
  {
  }

  class RingBuffer {
    const buffer: array<Byte>
    const size: nat
    var read: nat
    var write: nat

    // Every byte accepted and every byte handed out so far, in order.
    ghost var accepted: seq<Byte>
    ghost var delivered: seq<Byte>

    ghost predicate InRange()
      reads this
    {
      size >= 1 && buffer.Length == size && read < size && write < size
    }

    // A buffer without any room.
    ghost predicate Empty()
      reads this
    {
      size == 0 && buffer.Length == 0 && read == 0 && write == 0 && accepted == delivered == []
    }

    // The queue of bytes that the buffer stands for.
    ghost function Contents(): seq<Byte>
      requires InRange()
      reads this, buffer
    {
      Between(buffer[..], read, write)
    }

    // Over the whole life of the buffer, what came in is what went out followed
    // by what is still there.
    ghost predicate Valid()
      reads this, buffer
    {
      InRange() && accepted == delivered + Contents()
    }

    // A buffer of size 0 can be made: a Read of it hands out nothing, and a Write
    // panics.
    constructor (size: nat)
      ensures if size >= 1 then Valid() else Empty()
      ensures this.size == size && fresh(buffer) && accepted == [] && delivered == []
    {
      this.size := size;
      buffer := new Byte[size];
      read, write := 0, 0;
      accepted, delivered := [], [];
    }

    method AvailableData() returns (n: nat)
      requires InRange() || Empty()
      ensures if size == 0 then n == 0 else n == |Contents()| <= size - 1
    {
      if write >= read {
        n := write - read;
      } else {
        n := size - read + write;
      }
    }

    method AvailableSpace() returns (n: nat)
      requires InRange()
      ensures n == size - 1 - |Contents()|
    {
      var used := AvailableData();
      n := size - used - 1;
    }

    // The copies of Write.
    method Store(data: seq<Byte>)
      requires InRange() && 0 < |data| <= size - 1 - |Contents()|
      modifies this`write, buffer
      ensures InRange() && Contents() == old(Contents()) + data
    {
      ghost var before := buffer[..];
      var n := |data|;
      var end := write + n;
      if end <= size {
        FilledOnce(before, write, data);
        var next := Put(buffer, write, data);
      } else {
        var first := size - write;
        FilledTwice(before, write, data);
        var next := Put(buffer, write, data[..first]);
        next := Put(buffer, 0, data[first..]);
      }
      FilledAppends(before, buffer[..], read, write, data);
      Wraps(end, size);
      write := (write + n) % size;
    }

    // Accepts exactly as many bytes as there is room for, and queues them.
    method Write(data: seq<Byte>) returns (n: nat)
      requires Valid()
      modifies this`write, this`accepted, buffer
      ensures Valid() && n == Min(|data|, size - 1 - |old(Contents())|)
      ensures Contents() == old(Contents()) + data[..n]
      ensures accepted == old(accepted) + data[..n]
    {
      ghost var queue := Contents();
      n := |data|;
      var available := AvailableSpace();
      if n > available {
        n := available;
      }
      if n > 0 {
        Store(data[..n]);
      }
      assert Contents() == queue + data[..n];
      assert (delivered + queue) + data[..n] == delivered + (queue + data[..n]);
      accepted := accepted + data[..n];
    }

    // The copies of Read.
    method Fetch(out: array<Byte>, n: nat)
      requires InRange() && out != buffer && 0 < n <= out.Length && n <= |Contents()|
      modifies this`read, out
      ensures InRange() && Contents() == old(Contents())[n..]
      ensures out[..] == Splice(old(out[..]), 0, old(Contents())[..n])
    {
      Removed(buffer[..], read, write, n);
      ghost var was := out[..];
      var end := read + n;
      if end <= size {
        var next := Put(out, 0, buffer[read..end]);
      } else {
        var first := size - read;
        SpliceTwice(was, 0, buffer[read..], buffer[..end - size]);
        var next := Put(out, 0, buffer[read..]);
        next := Put(out, first, buffer[..end - size]);
      }
      Wraps(end, size);
      read := (read + n) % size;
    }

    // Fetch, with the account of what has been delivered.
    method Deliver(out: array<Byte>, n: nat)
      requires Valid() && out != buffer && 0 < n <= out.Length && n <= |Contents()|
      modifies this`read, this`delivered, out
      ensures Valid() && Contents() == old(Contents())[n..]
      ensures out[..] == Splice(old(out[..]), 0, old(Contents())[..n])
      ensures delivered == old(delivered) + old(Contents())[..n]
    {
      ghost var queue := Contents();
      Fetch(out, n);
      assert delivered + queue == (delivered + queue[..n]) + queue[n..];
      delivered := delivered + queue[..n];
    }

    // Hands out exactly as many bytes as are wanted and there, oldest first.
    method Read(out: array<Byte>) returns (n: nat)
      requires (Valid() || Empty()) && out != buffer
      modifies this`read, this`delivered, out
      ensures size == 0 ==> Empty() && n == 0 && out[..] == old(out[..])
      ensures size >= 1 ==>
        && Valid() && n == Min(out.Length, |old(Contents())|)
        && out[..n] == old(Contents())[..n] && out[n..] == old(out[n..])
        && Contents() == old(Contents())[n..]
        && delivered == old(delivered) + old(Contents())[..n]
    {
      n := out.Length;
      var available := AvailableData();
      if n > available {
        n := available;
      }
      if n > 0 {
        Deliver(out, n);
      } else {
        assert delivered + [] == delivered;
      }
    }
  }
}
