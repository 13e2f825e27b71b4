/** The part of `java.nio.ByteBuffer` that the MPUB encoder uses: a heap buffer written sequentially. */
module JavaNio {
  import opened JavaNumbers

  class ByteBuffer {
    /** The backing array `allocate` creates and `array()` returns. */
    const data: array<byte>
    /** Index of the next byte to write. */
    var position: nat

    ghost predicate Valid()
      reads this
    {
      position <= data.Length
    }

    /** The bytes written so far. */
    ghost function Written(): seq<byte>
      reads this, data
      requires Valid()
    {
      data[..position]
    }

    /** `ByteBuffer.allocate(capacity)`: a zero-filled buffer positioned at its start. */
    constructor Allocate(capacity: nat)
      ensures Valid() && fresh(data)
      ensures data.Length == capacity && position == 0
      ensures forall i :: 0 <= i < data.Length ==> data[i] == 0
    {
      data := new byte[capacity](_ => 0);
      position := 0;
    }

    /** `put(src)`: copies `src` at the current position and moves past it. */
    method Put(src: seq<byte>)
      requires Valid()
      requires position + |src| <= data.Length
      modifies this, data
      ensures Valid()
      ensures position == old(position) + |src|
      ensures Written() == old(Written()) + src
    {
      var i := 0;
      while i < |src|
        invariant 0 <= i <= |src|
        invariant position == old(position) + i
        invariant data[..position] == old(data[..position]) + src[..i]
      {
        data[position] := src[i];
        position := position + 1;
        i := i + 1;
      }
    }

    /** `putInt(v)`: the four bytes of `v`'s bit pattern, most significant first. */
    method PutInt(v: int32)
      requires Valid()
      requires position + 4 <= data.Length
      modifies this, data
      ensures Valid()
      ensures position == old(position) + 4
      ensures Written() == old(Written()) + BigEndian32(Bits(v))
    {
      Put(BigEndian32(Bits(v)));
    }
  }
}
