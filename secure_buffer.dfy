/** SecureBuffer: a move-only byte buffer for secret material that is zero-filled
    when allocated and zeroed again before it is released.

    `data` is the owned heap block (the unique_ptr, null when nothing is owned) and
    `size` the recorded byte count. The two normally agree; after a self-move
    assignment the buffer keeps its block while `size` reads 0. */
module SecureBuffers {
  import opened Bytes

  /** n zero bytes. */
  function Zeros(n: nat): seq<uint8>
  {
    seq(n, _ => 0)
  }

  /** sodium_memzero(a, n): overwrite the first n bytes of a with zero. */
  method MemZero(a: array<uint8>, n: nat)
    requires n <= a.Length
    modifies a
    ensures a[..n] == Zeros(n)
    ensures a[n..] == old(a[n..])
  {
    forall i | 0 <= i < n {
      a[i] := 0;
    }
  }

  /** memcpy(a, src, |src|), and the primitives that write their result into a
      caller's buffer: the first |src| bytes of a become src. */
  method CopyInto(a: array<uint8>, src: seq<uint8>)
    requires |src| <= a.Length
    modifies a
    ensures a[..|src|] == src
    ensures a[|src|..] == old(a[|src|..])
  {
    forall i | 0 <= i < |src| {
      a[i] := src[i];
    }
  }

  class SecureBuffer {
    var data: array?<uint8>   // data_
    var size: nat             // data_size_

    /** A null block is recorded as size 0, and a recorded size is the block's
        length or 0. */
    ghost predicate Valid()
      reads this
    {
      (data == null ==> size == 0) &&
      (data != null ==> size == 0 || size == data.Length)
    }

    /** The secret bytes the buffer holds: the first `size` bytes of its block. */
    function Contents(): seq<uint8>
      reads this, data
      requires Valid()
    {
      if data == null then [] else data[..size]
    }

    /** SecureBuffer(): no block and size 0. */
    constructor Default()
      ensures Valid()
      ensures data == null && size == 0
      ensures IsEmpty() && Contents() == []
    {
      data := null;
      size := 0;
    }

    /** SecureBuffer(size): a fresh block of exactly `n` bytes, all zero. It is
        empty exactly when n is 0, even though a block was allocated. */
    constructor Allocate(n: nat)
      ensures Valid()
      ensures data != null && fresh(data) && data.Length == n && size == n
      ensures Contents() == Zeros(n)
      ensures IsEmpty() <==> n == 0
    {
      var block := new uint8[n];
      MemZero(block, n);
      size := n;
      data := block;
    }

    /** SecureBuffer(SecureBuffer&& other): take other's block and size and leave
        other with no block and size 0. */
    constructor MoveFrom(other: SecureBuffer)
      requires other.Valid()
      modifies other
      ensures Valid() && other.Valid()
      ensures data == old(other.data) && size == old(other.size)
      ensures Contents() == old(other.Contents())
      ensures other.data == null && other.size == 0 && other.IsEmpty()
    {
      size := other.size;
      data := other.data;
      new;
      other.data := null;
      other.size := 0;
    }

    /** operator=(SecureBuffer&& other): take other's block and size and empty
        other. The block this buffer held before is released without being
        zeroed. Moving a buffer onto itself keeps its block but records size 0. */
    method MoveAssign(other: SecureBuffer)
      requires Valid() && other.Valid()
      modifies this, other
      ensures Valid() && other.Valid()
      ensures other != this ==>
        data == old(other.data) && size == old(other.size) &&
        Contents() == old(other.Contents()) &&
        other.data == null && other.size == 0 && other.IsEmpty()
      ensures other == this ==> data == old(data) && size == 0 && IsEmpty()
      ensures old(data) != null ==> unchanged(old(data))
    {
      // take other's block; the old block is dropped unzeroed
      var moved := other.data;
      other.data := null;
      data := moved;
      // take other's size, then record size 0 in other
      size := other.size;
      other.size := 0;
    }

    /** ~SecureBuffer(): zero every byte of a non-empty buffer, then release its
        block. A block recorded with size 0 is released as it stands. */
    method Destroy()
      requires Valid()
      modifies this, data
      ensures data == null
      ensures old(data) != null && old(size) != 0 ==> old(data)[..] == Zeros(old(size))
      ensures old(data) != null && old(size) == 0 ==> unchanged(old(data))
    {
      if data != null && size != 0 {
        MemZero(data, size);
      }
      data := null;
    }

    /** size(): the number of bytes the buffer holds. */
    function Size(): (n: nat)
      reads this, data
      requires Valid()
      ensures n == |Contents()|
    {
      size
    }

    /** data(): the owned block, which holds Contents() whenever the buffer is
        not empty. */
    function Data(): (a: array?<uint8>)
      reads this, data
      requires Valid()
      ensures !IsEmpty() ==> a != null && a[..] == Contents()
    {
      data
    }

    /** IsEmpty(): no block, or size 0. */
    predicate IsEmpty()
      reads this
    {
      data == null || size == 0
    }

    /** A buffer is empty exactly when it holds no bytes. */
    lemma EmptyIffNoContents()
      requires Valid()
      ensures IsEmpty() <==> Contents() == []
    {
    }
  }
}
