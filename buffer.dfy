/**
 * `Buffer<T>` (buffer.h): a thin wrapper around a `std::vector<T>` whose
 * contents the member functions overwrite in place. The adapter only
 * instantiates it with `byte`, so the element type here is `Byte`, and a
 * value-initialised element is 0.
 */
module Buffers {
  import opened Common

  class Buffer {
    /** `mBuff`. */
    var elems: seq<Byte>

    /** `Buffer(size)`: `size` value-initialised (zero) elements; none for size 0. */
    constructor (size: nat := 0)
      ensures elems == Zeros(size)
    {
      elems := Zeros(size);  // if (size) mBuff = std::vector<T>(size);
    }

    /** The copy constructor: the same elements as `b`. */
    constructor Copy(b: Buffer)
      ensures elems == b.elems
    {
      elems := b.elems;
    }

    /** `operator=`: takes over the elements of `b`; assigning a buffer to itself changes nothing. */
    method Assign(b: Buffer)
      modifies this
      ensures elems == old(b.elems)
      ensures b == this ==> elems == old(elems)
    {
      if b != this {
        elems := b.elems;
      }
    }

    /** `operator==`: equal sizes and equal bytes (`memcmp` over `byteSize()` bytes). */
    predicate Equals(b: Buffer)
      reads this, b
      ensures Equals(b) <==> elems == b.elems
    {
      |elems| == |b.elems| && elems[..ByteSize()] == b.elems[..ByteSize()]
    }

    /** `setVal(val)`: every element becomes `val`; the size stays. */
    method SetVal(val: Byte)
      modifies this
      ensures elems == Fill(|old(elems)|, val)
    {
      elems := Fill(|elems|, val);
    }

    /** `zero()`: every element becomes 0; the size stays. */
    method Zero()
      modifies this
      ensures elems == Zeros(|old(elems)|)
    {
      elems := Zeros(|elems|);
    }

    /** `reinit(size)`: nothing changes at the same size; otherwise `size` zero elements. */
    method Reinit(size: nat)
      modifies this
      ensures size == |old(elems)| ==> elems == old(elems)
      ensures size != |old(elems)| ==> elems == Zeros(size)
    {
      if size == |elems| {
        return;
      }
      elems := [];             // mBuff.clear();
      elems := Zeros(size);    // mBuff.resize(size);
    }

    /** `reinit(size, val)`: `size` elements, each `val`. */
    method ReinitWith(size: nat, val: Byte)
      modifies this
      ensures elems == Fill(size, val)
    {
      Reinit(size);
      SetVal(val);
    }

    /** `assignData(data, size)`: the first `size` elements of `data`. */
    method AssignData(data: array<Byte>, size: nat)
      requires size <= data.Length
      modifies this
      ensures elems == data[..size]
    {
      elems := data[..size];
    }

    /**
     * `memcpy(data(), src, size)`: writes the first `size` elements of
     * `src` over the first `size` elements of the buffer.
     */
    method CopyIn(src: array<Byte>, size: nat)
      requires size <= src.Length && size <= |elems|
      modifies this
      ensures elems == src[..size] + old(elems)[size..]
    {
      elems := src[..size] + elems[size..];
    }

    /** `clear()`: no elements. */
    method Clear()
      modifies this
      ensures elems == []
    {
      elems := [];
    }

    /** `size()`. */
    function Size(): (n: nat)
      reads this
      ensures n == |elems|
    {
      |elems|
    }

    /** `byteSize()`: `size() * sizeof(byte)`. */
    function ByteSize(): (n: nat)
      reads this
      ensures n == Size() * 1
    {
      |elems| * 1
    }

    /** `empty()`. */
    predicate Empty()
      reads this
      ensures Empty() <==> |elems| == 0
    {
      elems == []
    }

    /** `get(i)`: element `i`, one of the buffer's elements. */
    function Get(i: nat): (v: Byte)
      requires i < |elems|
      reads this
      ensures v in elems
    {
      elems[i]
    }

    /** `last()`: the element at `size() - 1`, which `get` also returns there. */
    function Last(): (v: Byte)
      requires |elems| > 0
      reads this
      ensures v in elems && v == Get(Size() - 1)
    {
      elems[|elems| - 1]
    }

    /** `set(i, val)`: element `i` becomes `val`, and only that one. */
    method Set(i: nat, val: Byte)
      requires i < |elems|
      modifies this
      ensures |elems| == |old(elems)|
      ensures Get(i) == val
      ensures forall j :: 0 <= j < |elems| && j != i ==> Get(j) == old(elems)[j]
    {
      elems := elems[i := val];
    }
  }
}
