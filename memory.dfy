/** The byte-order helpers of alflib/memory/memory.hpp. */
module Memory {

  /** The bytes of a value from least to most significant, each kept in the value's own width. */
  function Octets16(x: bv16): seq<bv16> {
    [x & 0xff, (x >> 8) & 0xff]
  }

  function Octets32(x: bv32): seq<bv32> {
    [x & 0xff, (x >> 8) & 0xff, (x >> 16) & 0xff, (x >> 24) & 0xff]
  }

  function Octets64(x: bv64): seq<bv64> {
    [x & 0xff, (x >> 8) & 0xff, (x >> 16) & 0xff, (x >> 24) & 0xff,
     (x >> 32) & 0xff, (x >> 40) & 0xff, (x >> 48) & 0xff, (x >> 56) & 0xff]
  }

  /** A sequence read back to front. */
  function Reversed<T>(s: seq<T>): (r: seq<T>)
    ensures |r| == |s|
    ensures forall i :: 0 <= i < |s| ==> r[i] == s[|s| - 1 - i]
  {
    if s == [] then [] else Reversed(s[1..]) + [s[0]]
  }

  /** SwapEndian(u16): the two bytes exchanged by masking and shifting. */
  function SwapEndian16(value: bv16): (r: bv16)
    ensures r & 0xff == (value >> 8) & 0xff
    ensures (r >> 8) & 0xff == value & 0xff
  {
    ((value & 0xff00) >> 8) | ((value & 0x00ff) << 8)
  }

  /** SwapEndian(u32): the four bytes in reverse order. */
  function SwapEndian32(value: bv32): (r: bv32)
    ensures r & 0xff == (value >> 24) & 0xff
    ensures (r >> 8) & 0xff == (value >> 16) & 0xff
    ensures (r >> 16) & 0xff == (value >> 8) & 0xff
    ensures (r >> 24) & 0xff == value & 0xff
  {
    ((value & 0xff000000) >> 24) | ((value & 0x00ff0000) >> 8) |
    ((value & 0x0000ff00) << 8) | ((value & 0x000000ff) << 24)
  }

  /** SwapEndian(u64): the eight bytes in reverse order. */
  function SwapEndian64(value: bv64): (r: bv64)
    ensures r & 0xff == (value >> 56) & 0xff
    ensures (r >> 8) & 0xff == (value >> 48) & 0xff
    ensures (r >> 16) & 0xff == (value >> 40) & 0xff
    ensures (r >> 24) & 0xff == (value >> 32) & 0xff
    ensures (r >> 32) & 0xff == (value >> 24) & 0xff
    ensures (r >> 40) & 0xff == (value >> 16) & 0xff
    ensures (r >> 48) & 0xff == (value >> 8) & 0xff
    ensures (r >> 56) & 0xff == value & 0xff
  {
    ((value & 0xff00000000000000) >> 56) |
    ((value & 0x00ff000000000000) >> 40) |
    ((value & 0x0000ff0000000000) >> 24) |
    ((value & 0x000000ff00000000) >> 8) |
    ((value & 0x00000000ff000000) << 8) |
    ((value & 0x0000000000ff0000) << 24) |
    ((value & 0x000000000000ff00) << 40) |
    ((value & 0x00000000000000ff) << 56)
  }

  /** Swapping the byte order of a u16 reverses its bytes. */
  lemma Swap16ReversesOctets(x: bv16)
    ensures Octets16(SwapEndian16(x)) == Reversed(Octets16(x))
  {
    var o := Octets16(x);
    assert Reversed(o) == [o[1], o[0]] by { ReversedPair(o[0], o[1]); }
  }

  lemma ReversedPair<T>(a: T, b: T)
    ensures Reversed([a, b]) == [b, a]
  {
    assert [a, b][1..] == [b];
  }

  /** Swapping the byte order of a u32 reverses its bytes. */
  lemma Swap32ReversesOctets(x: bv32)
    ensures Octets32(SwapEndian32(x)) == Reversed(Octets32(x))
  {
    var o := Octets32(x);
    assert Reversed(o) == [o[3], o[2], o[1], o[0]];
  }

  /** Swapping the byte order of a u64 reverses its bytes. */
  lemma Swap64ReversesOctets(x: bv64)
    ensures Octets64(SwapEndian64(x)) == Reversed(Octets64(x))
  {
    var o := Octets64(x);
    assert Reversed(o) == [o[7], o[6], o[5], o[4], o[3], o[2], o[1], o[0]];
  }

  /** Swapping twice gives the value back. */
  lemma Swap16IsInvolution(x: bv16)
    ensures SwapEndian16(SwapEndian16(x)) == x
  {}

  lemma Swap32IsInvolution(x: bv32)
    ensures SwapEndian32(SwapEndian32(x)) == x
  {}

  lemma Swap64IsInvolution(x: bv64)
    ensures SwapEndian64(SwapEndian64(x)) == x
  {}

  /** A value whose bytes are all equal, such as 0 or 0xFFFF, is its own swap. */
  lemma Swap16FixesUniformBytes(x: bv16)
    requires forall i :: 0 <= i < 2 ==> Octets16(x)[i] == Octets16(x)[0]
    ensures SwapEndian16(x) == x
  {
    assert Octets16(x)[1] == Octets16(x)[0];
  }

  lemma Swap32FixesUniformBytes(x: bv32)
    requires forall i :: 0 <= i < 4 ==> Octets32(x)[i] == Octets32(x)[0]
    ensures SwapEndian32(x) == x
  {
    assert Octets32(x)[1] == Octets32(x)[0];
    assert Octets32(x)[2] == Octets32(x)[0];
    assert Octets32(x)[3] == Octets32(x)[0];
  }

  lemma Swap64FixesUniformBytes(x: bv64)
    requires forall i :: 0 <= i < 8 ==> Octets64(x)[i] == Octets64(x)[0]
    ensures SwapEndian64(x) == x
  {
    assert Octets64(x)[1] == Octets64(x)[0];
    assert Octets64(x)[2] == Octets64(x)[0];
    assert Octets64(x)[3] == Octets64(x)[0];
    assert Octets64(x)[4] == Octets64(x)[0];
    assert Octets64(x)[5] == Octets64(x)[0];
    assert Octets64(x)[6] == Octets64(x)[0];
    assert Octets64(x)[7] == Octets64(x)[0];
  }

  lemma ZeroAndOnesAreFixed()
    ensures SwapEndian16(0) == 0 && SwapEndian16(0xFFFF) == 0xFFFF
    ensures SwapEndian32(0) == 0 && SwapEndian32(0xFFFF_FFFF) == 0xFFFF_FFFF
    ensures SwapEndian64(0) == 0 && SwapEndian64(0xFFFF_FFFF_FFFF_FFFF) == 0xFFFF_FFFF_FFFF_FFFF
  {}
}
