// The bulk allocator: buffers are handed out in order, and their number doubles
// when they run out.
module BulkAllocators {
  import opened Wire

  function Power2Times(n: nat, doublings: nat): nat {
    if doublings == 0 then n else 2 * Power2Times(n, doublings - 1)
  }

  function Max(a: int, b: int): int {
    if a < b then b else a
  }

  class BulkAllocator {
    var buffers: seq<array<Byte>>
    const size: nat
    var count: nat
    var index: nat

    // The count at the start, how often it has doubled, and the largest number
    // of buffers in use between two resets.
    ghost const initial: nat
    ghost var doublings: nat
    ghost var peak: nat

    ghost predicate Valid()
      reads this
    {
      && |buffers| == count
      && (forall i :: 0 <= i < |buffers| ==> buffers[i].Length == size)
      && (forall i, j :: 0 <= i < j < |buffers| ==> buffers[i] != buffers[j])
      && index <= peak && index <= count
      && count == Power2Times(initial, doublings)
      && initial <= count <= Max(initial, 2 * (peak - 1))
    }

    // The buffers given out since the last reset.
    ghost function HandedOut(): seq<array<Byte>>
      requires Valid()
      reads this
    {
      buffers[..index]
    }

    constructor (bufferSize: nat, count: nat)
      ensures Valid() && size == bufferSize && initial == count && doublings == 0 && peak == 0
      ensures HandedOut() == []
    {
      size := bufferSize;
      this.count := count;
      index := 0;
      initial, doublings, peak := count, 0, 0;
      var made := MakeBuffers(bufferSize, count);
      buffers := made;
    }

    // Hands out a buffer that has not been handed out since the last reset. An
    // allocator made with no buffers never has any, and panics here.
    method Allocate() returns (buffer: array<Byte>)
      requires Valid() && count >= 1
      modifies this
      ensures Valid() && buffer.Length == size
      ensures HandedOut() == old(HandedOut()) + [buffer]
      ensures forall i :: 0 <= i < old(index) ==> old(HandedOut())[i] != buffer
      ensures old(buffers) <= buffers && (old(index) < old(count) ==> buffers == old(buffers))
      ensures count == (if old(index) == old(count) then 2 else 1) * old(count)
      ensures peak == Max(old(peak), |HandedOut()|)
    {
      if index >= count {
        var more := MakeBuffers(size, count);
        buffers := buffers + more;
        count := count + count;
        doublings := doublings + 1;
      }
      buffer := buffers[index];
      index := index + 1;
      peak := Max(peak, index);
    }

    method Reset()
      requires Valid()
      modifies this`index
      ensures Valid() && HandedOut() == [] && buffers == old(buffers)
    {
      index := 0;
    }
  }

  method MakeBuffers(size: nat, count: nat) returns (made: seq<array<Byte>>)
    ensures |made| == count
    ensures forall i :: 0 <= i < count ==> fresh(made[i]) && made[i].Length == size
    ensures forall i, j :: 0 <= i < j < count ==> made[i] != made[j]
  {
    made := [];
    for i := 0 to count
      invariant |made| == i
      invariant forall k :: 0 <= k < i ==> fresh(made[k]) && made[k].Length == size
      invariant forall j, k :: 0 <= j < k < i ==> made[j] != made[k]
    {
      var buffer := new Byte[size];
      made := made + [buffer];
    }
  }
}
