/** A fixed-capacity byte buffer with a cursor, in the manner of
    `java.nio.ByteBuffer`: relative puts and gets advance `position`,
    and neither ever moves past `limit`. */
module ByteBuffers {
  import opened SignedBytes

  /** What the buffer operations throw. */
  datatype BufferError =
    | BufferOverflow    // a put with no room left before the limit
    | BufferUnderflow   // a get with nothing left before the limit
    | IllegalCapacity   // allocation with a negative capacity

  datatype Result<T> = Ok(value: T) | Err(error: BufferError)

  /** The result of an operation that returns nothing but may throw. */
  datatype Outcome = Pass | Fail(error: BufferError)

  /** `s` with `w` written over it starting at index `at`. */
  function Overwrite(s: seq<JByte>, at: nat, w: seq<JByte>): (r: seq<JByte>)
    requires at + |w| <= |s|
    ensures |r| == |s|
    ensures r[..at] == s[..at] && r[at..at + |w|] == w && r[at + |w|..] == s[at + |w|..]
  {
    s[..at] + w + s[at + |w|..]
  }

  class ByteBuffer {
    const data: array<JByte>
    var position: nat
    var limit: nat

    /** The cursor never passes the limit, nor the limit the capacity. */
    ghost predicate Valid()
      reads this
    {
      position <= limit <= data.Length
    }

    /** Number of bytes a relative put or get may still touch. */
    function Remaining(): nat
      reads this
      requires Valid()
    {
      limit - position
    }

    /** The bytes between the cursor and the limit. */
    ghost function Readable(): (s: seq<JByte>)
      reads this, data
      requires Valid()
      ensures |s| == Remaining()
    {
      data[position..limit]
    }

    /** `ByteBuffer.allocate`: zero-filled, cursor at 0, limit at capacity. */
    constructor Allocate(capacity: nat)
      ensures Valid() && fresh(data)
      ensures data.Length == capacity && position == 0 && limit == capacity
      ensures forall k :: 0 <= k < capacity ==> data[k] == 0
    {
      data := new JByte[capacity](_ => 0);
      position := 0;
      limit := capacity;
    }

    /** Relative `put(byte)`: writes at the cursor and advances it, or throws
        an overflow, changing nothing, when the cursor is at the limit. */
    method Put(b: JByte) returns (ok: bool)
      requires Valid()
      modifies this`position, data
      ensures Valid() && limit == old(limit)
      ensures ok <==> old(position) < limit
      ensures ok ==> position == old(position) + 1 && data[..] == old(data[..])[old(position) := b]
      ensures !ok ==> position == old(position) && data[..] == old(data[..])
    {
      if position < limit {
        data[position] := b;
        position := position + 1;
        ok := true;
      } else {
        ok := false;
      }
    }

    /** Relative `get()`: reads at the cursor and advances it, or throws an
        underflow, changing nothing, when the cursor is at the limit. */
    method Get() returns (r: Result<JByte>)
      requires Valid()
      modifies this`position
      ensures Valid() && limit == old(limit)
      ensures r.Ok? <==> old(position) < limit
      ensures r.Ok? ==> r.value == data[old(position)] && position == old(position) + 1
      ensures r.Err? ==> r.error == BufferUnderflow && position == old(position)
    {
      if position < limit {
        r := Ok(data[position]);
        position := position + 1;
      } else {
        r := Err(BufferUnderflow);
      }
    }

    /** `flip()`: the region just written becomes the region to read. */
    method Flip()
      requires Valid()
      modifies this`position, this`limit
      ensures Valid()
      ensures limit == old(position) && position == 0
      ensures Readable() == data[..old(position)]
    {
      limit := position;
      position := 0;
    }
  }
}
