/** alflib/memory/memory_writer.hpp and memory_writer.cpp: a writer that appends bytes to a
    growable buffer at a write offset, doubling the buffer (exactly, in integers) when a write
    does not fit, and lays integers and lists out in the little-endian framing of LittleEndian. */
module MemoryWriters {
  import opened Common
  import opened LittleEndian

  /** Buffer size of a default-constructed writer. */
  const DEFAULT_BUFFER_SIZE: nat := 16
  /** Factor by which the buffer grows. The source's factor is an f32 2.0, so its product
      rounds sizes with more than 24 significant bits; here the doubling is exact. */
  const BUFFER_RESIZE_FACTOR: nat := 2

  /** Buffer::Resize(n): the first min(|b|, n) bytes kept, zero bytes after them. */
  function Resized(b: Bytes, n: nat): (r: Bytes)
    ensures |r| == n
    ensures forall i :: 0 <= i < n ==> r[i] == if i < |b| then b[i] else 0
  {
    if n <= |b| then b[..n] else b + seq(n - |b|, _ => 0)
  }

  /** Buffer::Write(offset, data, size): `data` over the bytes from `offset`, the rest kept. */
  function Overwritten(b: Bytes, offset: nat, data: Bytes): (r: Bytes)
    requires offset + |data| <= |b|
    ensures |r| == |b| && r[..offset] == b[..offset] && r[offset..offset + |data|] == data
    ensures r[offset + |data|..] == b[offset + |data|..]
  {
    b[..offset] + data + b[offset + |data|..]
  }

  class MemoryWriter {
    /** mBuffer. */
    var buffer: Bytes
    /** mWriteOffset: where the next write goes. */
    var writeOffset: nat

    ghost predicate Valid()
      reads this
    {
      0 < |buffer| && writeOffset <= |buffer|
    }

    /** The bytes written so far, in order. */
    function Written(): (s: Bytes)
      reads this
      requires Valid()
      ensures |s| == writeOffset
    {
      buffer[..writeOffset]
    }

    /** MemoryWriter(bufferSize): asserts a non-empty buffer; nothing is written yet. */
    constructor (bufferSize: nat)
      requires bufferSize > 0
      ensures Valid() && |buffer| == bufferSize && Written() == []
    {
      buffer := seq(bufferSize, _ => 0);
      writeOffset := 0;
    }

    /** WriteBytes(data, size): the buffer doubles once when the write does not fit, the bytes
        go at the write offset, and the offset advances by their number. The source does not
        check that one doubling is enough; that is the precondition. */
    method WriteBytes(data: Bytes)
      requires Valid() && writeOffset + |data| <= BUFFER_RESIZE_FACTOR * |buffer|
      modifies this
      ensures Valid() && Written() == old(Written()) + data
      ensures writeOffset == old(writeOffset) + |data|
      ensures |buffer| == if old(|buffer|) < old(writeOffset) + |data| then BUFFER_RESIZE_FACTOR * old(|buffer|)
                          else old(|buffer|)
    {
      if |buffer| < writeOffset + |data| {
        buffer := Resized(buffer, |buffer| * BUFFER_RESIZE_FACTOR);
      }
      ghost var b := buffer;
      buffer := Overwritten(buffer, writeOffset, data);
      assert buffer[..writeOffset] == b[..writeOffset] == old(Written());
      assert buffer[..writeOffset + |data|] == buffer[..writeOffset] + buffer[writeOffset..writeOffset + |data|];
      writeOffset := writeOffset + |data|;
    }

    /** Write of an s8/u8/.../u64: its little-endian bytes, whatever the host order. */
    method WriteInt(k: IntKind, v: int)
      requires Valid() && InRange(k, v) && writeOffset + k.Width() <= BUFFER_RESIZE_FACTOR * |buffer|
      modifies this
      ensures Valid() && Written() == old(Written()) + Encode(k, v) && |buffer| >= old(|buffer|)
    {
      WriteBytes(Encode(k, v));
    }

    /** Write(ArrayList<T>): the element count as a u64, then every element in list order. A
        buffer of at least 8 bytes never needs more than one doubling per write. */
    method WriteList(k: IntKind, xs: seq<int>)
      requires Valid() && 8 <= |buffer| && |xs| < U64_MODULUS
      requires forall i :: 0 <= i < |xs| ==> InRange(k, xs[i])
      modifies this
      ensures Valid() && 8 <= |buffer| && Written() == old(Written()) + EncodeList(k, xs)
    {
      WriteInt(U64, |xs|);
      WriteElements(k, xs);
    }

    /** The loop of Write(ArrayList<T>): every element in list order. */
    method WriteElements(k: IntKind, xs: seq<int>)
      requires Valid() && 8 <= |buffer|
      requires forall i :: 0 <= i < |xs| ==> InRange(k, xs[i])
      modifies this
      ensures Valid() && 8 <= |buffer| && Written() == old(Written()) + EncodeInts(k, xs)
    {
      var i := 0;
      while i < |xs|
        invariant 0 <= i <= |xs| && Valid() && 8 <= |buffer|
        invariant Written() == old(Written()) + EncodeInts(k, xs[..i])
      {
        WriteNext(k, xs, i, old(Written()));
        i := i + 1;
      }
      assert xs[..|xs|] == xs;
    }

    /** One turn of the Write(ArrayList<T>) loop: element i after elements 0 to i - 1. */
    method WriteNext(k: IntKind, xs: seq<int>, i: nat, ghost before: Bytes)
      requires Valid() && 8 <= |buffer| && i < |xs|
      requires forall j :: 0 <= j < |xs| ==> InRange(k, xs[j])
      requires Written() == before + EncodeInts(k, xs[..i])
      modifies this
      ensures Valid() && 8 <= |buffer| && Written() == before + EncodeInts(k, xs[..i + 1])
    {
      WriteInt(k, xs[i]);
      EncodeIntsSnoc(k, xs, i);
    }
  }
}
