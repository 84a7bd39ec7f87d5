/** alflib/memory/memory_reader.hpp: a reader over a byte buffer that consumes integers and
    lists in the framing the memory writer produces, advancing a read offset. */
module MemoryReaders {
  import opened Common
  import opened LittleEndian
  import ArrayLists
  import MemoryWriters

  class MemoryReader {
    /** mBuffer: the bytes being read. */
    const buffer: Bytes
    /** mReadOffset: where the next read starts. */
    var readOffset: nat

    /** MemoryReader(buffer): reading starts at offset 0. */
    constructor (buffer: Bytes)
      ensures this.buffer == buffer && readOffset == 0
    {
      this.buffer := buffer;
      readOffset := 0;
    }

    /** Read<s8>() ... Read<u64>(): the integer whose little-endian bytes start at the read
        offset; the offset moves past them. */
    method ReadInt(k: IntKind) returns (v: int)
      requires readOffset + k.Width() <= |buffer|
      modifies this
      ensures InRange(k, v) && v == Decode(k, buffer[old(readOffset)..old(readOffset) + k.Width()])
      ensures readOffset == old(readOffset) + k.Width()
    {
      v := Decode(k, buffer[readOffset..readOffset + k.Width()]);
      readOffset := readOffset + k.Width();
    }

    /** ReadArrayList<T>(): a u64 count n, then n elements, into a default list resized to n. */
    method ReadArrayList(k: IntKind) returns (list: ArrayLists.ArrayList<int>)
      requires readOffset + 8 <= |buffer|
      requires readOffset + 8 + Span(k, Decode(U64, buffer[readOffset..readOffset + 8])) <= |buffer|
      modifies this
      ensures fresh(list) && list.Valid()
      ensures var n := Decode(U64, buffer[old(readOffset)..old(readOffset) + 8]);
        list.Contents() == DecodeInts(k, buffer[old(readOffset) + 8..], n) &&
        readOffset == old(readOffset) + 8 + Span(k, n)
    {
      var n := ReadInt(U64);
      list := new ArrayLists.ArrayList.WithCapacity(ArrayLists.DEFAULT_CAPACITY, 0);
      list.Resize(n);
      ReadElements(k, list);
    }

    /** One turn of the ReadArrayList loop: list[i] = Read<T>(), where element i of the n
        stored from `start` on is next. */
    method ReadNext(k: IntKind, list: ArrayLists.ArrayList<int>, i: nat, ghost start: nat, ghost target: seq<int>)
      requires list.Valid() && i < list.size && start + Span(k, list.size) <= |buffer|
      requires target == ElementsAt(k, buffer, start, list.size)
      requires readOffset == start + Span(k, i) && list.Contents()[..i] == target[..i]
      modifies this, list.buffer
      ensures list.Valid() && list.size == old(list.size)
      ensures readOffset == start + Span(k, i + 1) && list.Contents()[..i + 1] == target[..i + 1]
    {
      ElementIsAt(k, buffer, start, list.size, i);
      ghost var c := list.Contents();
      var v := ReadInt(k);
      list.Set(i, v);
      PrefixGrows(c, target, i, list.Contents());
    }

    /** The loop of ReadArrayList: list[i] = Read<T>() for every index of the list. */
    method ReadElements(k: IntKind, list: ArrayLists.ArrayList<int>)
      requires list.Valid() && readOffset + Span(k, list.size) <= |buffer|
      modifies this, list.buffer
      ensures list.Valid() && list.size == old(list.size)
      ensures list.Contents() == DecodeInts(k, buffer[old(readOffset)..], list.size)
      ensures readOffset == old(readOffset) + Span(k, list.size)
    {
      var n := list.size;
      ghost var target := ElementsAt(k, buffer, readOffset, n);
      var i := 0;
      while i < n
        invariant 0 <= i <= n && list.Valid() && list.size == n
        invariant readOffset == old(readOffset) + Span(k, i)
        invariant list.Contents()[..i] == target[..i]
      {
        ReadNext(k, list, i, old(readOffset), target);
        i := i + 1;
      }
      assert list.Contents() == list.Contents()[..n] == target[..n] == target;
      ElementsAtAreDecodeInts(k, buffer, old(readOffset), n);
    }
  }

  /** The n elements of kind k stored in b from offset on, as the reader meets them. */
  function ElementsAt(k: IntKind, b: Bytes, offset: nat, n: nat): (r: seq<int>)
    requires offset + Span(k, n) <= |b|
    ensures |r| == n
    decreases n
  {
    if n == 0 then []
    else [Decode(k, b[offset..offset + k.Width()])] + ElementsAt(k, b, offset + k.Width(), n - 1)
  }

  /** Reading in place from an offset gives what decoding the bytes from that offset gives. */
  lemma {:induction false} ElementsAtAreDecodeInts(k: IntKind, b: Bytes, offset: nat, n: nat)
    requires offset + Span(k, n) <= |b|
    ensures ElementsAt(k, b, offset, n) == DecodeInts(k, b[offset..], n)
    decreases n
  {
    if n > 0 {
      ElementsAtAreDecodeInts(k, b, offset + k.Width(), n - 1);
      assert b[offset..][..k.Width()] == b[offset..offset + k.Width()];
      assert b[offset..][k.Width()..] == b[offset + k.Width()..];
    }
  }

  /** Element i of n stored from `start` on sits at start + Span(k, i), one width before
      element i + 1. */
  lemma {:induction false} ElementIsAt(k: IntKind, b: Bytes, start: nat, n: nat, i: nat)
    requires i < n && start + Span(k, n) <= |b|
    ensures start + Span(k, i) + k.Width() <= |b|
    ensures ElementsAt(k, b, start, n)[i] == Decode(k, b[start + Span(k, i)..start + Span(k, i) + k.Width()])
    decreases i
  {
    var w := k.Width();
    var e := ElementsAt(k, b, start, n);
    assert Span(k, n) == w + Span(k, n - 1);
    assert e == [Decode(k, b[start..start + w])] + ElementsAt(k, b, start + w, n - 1);
    if i == 0 {
      assert Span(k, 0) == 0;
    } else {
      ElementIsAt(k, b, start + w, n - 1, i - 1);
      assert Span(k, i) == w + Span(k, i - 1);
      assert e[i] == ElementsAt(k, b, start + w, n - 1)[i - 1];
    }
  }

  lemma PrefixGrows(c: seq<int>, t: seq<int>, i: nat, d: seq<int>)
    requires i < |c| && i < |t| && c[..i] == t[..i] && d == c[i := t[i]]
    ensures d[..i + 1] == t[..i + 1]
  {
    assert d[..i + 1] == c[..i] + [t[i]];
    assert t[..i + 1] == t[..i] + [t[i]];
  }

  /** What a writer produced reads back: a list written into a default writer and read from the
      start of its buffer comes back element for element. */
  method WriteThenReadList(k: IntKind, xs: seq<int>) returns (ys: seq<int>)
    requires |xs| < U64_MODULUS && forall i :: 0 <= i < |xs| ==> InRange(k, xs[i])
    ensures ys == xs
  {
    var writer := new MemoryWriters.MemoryWriter(MemoryWriters.DEFAULT_BUFFER_SIZE);
    writer.WriteList(k, xs);
    ghost var rest := writer.buffer[writer.writeOffset..];
    assert writer.buffer == EncodeList(k, xs) + rest;
    DecodeEncodeList(k, xs, rest);
    assert writer.buffer[..8] == writer.buffer[0..0 + 8] && writer.buffer[8..] == writer.buffer[0 + 8..];
    var reader := new MemoryReader(writer.buffer);
    var list := reader.ReadArrayList(k);
    ys := list.Contents();
  }
}
