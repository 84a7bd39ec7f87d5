/** The byte layout a memory writer produces and a memory reader consumes: fixed-width integers
    stored least significant byte first, in two's complement for the signed kinds, whatever the
    byte order of the host; and a list stored as a u64 element count followed by its elements. */
module LittleEndian {
  import opened Common

  /** The fixed-width integer types the writer and reader specialise for. */
  datatype IntKind = S8 | U8 | S16 | U16 | S32 | U32 | S64 | U64
  {
    /** Size in bytes. */
    function Width(): nat {
      match this
      case S8 | U8 => 1
      case S16 | U16 => 2
      case S32 | U32 => 4
      case S64 | U64 => 8
    }

    /** The number of bit patterns, 256^Width() (see ModulusIsPow256). */
    function Modulus(): nat {
      match this
      case S8 | U8 => 0x100
      case S16 | U16 => 0x1_0000
      case S32 | U32 => 0x1_0000_0000
      case S64 | U64 => 0x1_0000_0000_0000_0000
    }

    /** The smallest value of the kind. */
    function Min(): int {
      match this
      case S8 => -0x80
      case S16 => -0x8000
      case S32 => -0x8000_0000
      case S64 => -0x8000_0000_0000_0000
      case U8 | U16 | U32 | U64 => 0
    }

    /** One more than the largest value of the kind. */
    function Limit(): int {
      match this
      case S8 => 0x80
      case S16 => 0x8000
      case S32 => 0x8000_0000
      case S64 => 0x8000_0000_0000_0000
      case U8 => 0x100
      case U16 => 0x1_0000
      case U32 => 0x1_0000_0000
      case U64 => 0x1_0000_0000_0000_0000
    }
  }

  /** 256^n, the number of values n bytes can hold. */
  function Pow256(n: nat): (r: nat)
    ensures r > 0
  {
    if n == 0 then 1 else 256 * Pow256(n - 1)
  }

  lemma ModulusIsPow256(k: IntKind)
    ensures k.Modulus() == Pow256(k.Width())
  {
    assert Pow256(1) == 0x100;
    assert Pow256(2) == 0x1_0000;
    assert Pow256(4) == 0x1_0000_0000;
    assert Pow256(8) == 0x1_0000_0000_0000_0000;
  }

  /** The values of an integer kind: [-2^(8w-1), 2^(8w-1)) when signed, [0, 2^(8w)) otherwise. */
  predicate InRange(k: IntKind, v: int) {
    k.Min() <= v < k.Limit()
  }

  /** The n low-order base-256 digits of v, least significant first. */
  function EncodeNat(v: nat, n: nat): (r: Bytes)
    ensures |r| == n
  {
    if n == 0 then [] else [v % 256] + EncodeNat(v / 256, n - 1)
  }

  /** The number whose base-256 digits, least significant first, are b. */
  function DecodeNat(b: Bytes): (r: nat)
    ensures r < Pow256(|b|)
  {
    if b == [] then 0 else b[0] + 256 * DecodeNat(b[1..])
  }

  lemma {:induction false} DecodeEncodeNat(v: nat, n: nat)
    requires v < Pow256(n)
    ensures DecodeNat(EncodeNat(v, n)) == v
  {
    if n > 0 {
      DecodeEncodeNat(v / 256, n - 1);
      assert EncodeNat(v, n)[1..] == EncodeNat(v / 256, n - 1);
    }
  }

  lemma {:induction false} EncodeDecodeNat(b: Bytes)
    ensures EncodeNat(DecodeNat(b), |b|) == b
  {
    if b != [] {
      EncodeDecodeNat(b[1..]);
      var v := DecodeNat(b);
      assert v % 256 == b[0] && v / 256 == DecodeNat(b[1..]);
    }
  }

  /** The two's-complement bit pattern of v, read as an unsigned number. */
  function ToUnsigned(k: IntKind, v: int): (u: nat)
    requires InRange(k, v)
    ensures u < k.Modulus()
  {
    if v < 0 then v + k.Modulus() else v
  }

  /** The value of kind k whose bit pattern is u. */
  function FromUnsigned(k: IntKind, u: nat): (v: int)
    requires u < k.Modulus()
    ensures InRange(k, v)
  {
    if u >= k.Limit() then u - k.Modulus() else u
  }

  /** The bytes written for an integer of kind k. */
  function Encode(k: IntKind, v: int): (r: Bytes)
    requires InRange(k, v)
    ensures |r| == k.Width()
  {
    EncodeNat(ToUnsigned(k, v), k.Width())
  }

  /** The integer of kind k read from exactly Width() bytes. */
  function Decode(k: IntKind, b: Bytes): (v: int)
    requires |b| == k.Width()
    ensures InRange(k, v)
  {
    ModulusIsPow256(k);
    FromUnsigned(k, DecodeNat(b))
  }

  /** Reading back a written integer gives the integer. */
  lemma DecodeEncode(k: IntKind, v: int)
    requires InRange(k, v)
    ensures Decode(k, Encode(k, v)) == v
  {
    ModulusIsPow256(k);
    DecodeEncodeNat(ToUnsigned(k, v), k.Width());
  }

  /** Every byte pattern of the right width is the encoding of exactly the value read from it. */
  lemma EncodeDecode(k: IntKind, b: Bytes)
    requires |b| == k.Width()
    ensures Encode(k, Decode(k, b)) == b
  {
    ModulusIsPow256(k);
    EncodeDecodeNat(b);
  }

  /** Encoding is injective: different values give different bytes. */
  lemma EncodeIsInjective(k: IntKind, v: int, w: int)
    requires InRange(k, v) && InRange(k, w)
    ensures Encode(k, v) == Encode(k, w) ==> v == w
  {
    DecodeEncode(k, v);
    DecodeEncode(k, w);
  }

  /** The number of bytes n elements of kind k take up (n times the width, see SpanIsProduct). */
  function Span(k: IntKind, n: nat): nat {
    if n == 0 then 0 else k.Width() + Span(k, n - 1)
  }

  lemma {:induction false} SpanIsProduct(k: IntKind, n: nat)
    ensures Span(k, n) == n * k.Width()
  {
    if n > 0 {
      SpanIsProduct(k, n - 1);
      assert n * k.Width() == k.Width() + (n - 1) * k.Width();
    }
  }

  /** The element encodings of a list, one after another. */
  function EncodeInts(k: IntKind, xs: seq<int>): (r: Bytes)
    requires forall i :: 0 <= i < |xs| ==> InRange(k, xs[i])
    ensures |r| == Span(k, |xs|)
  {
    if xs == [] then [] else Encode(k, xs[0]) + EncodeInts(k, xs[1..])
  }

  /** n elements of kind k read from the front of b. */
  function DecodeInts(k: IntKind, b: Bytes, n: nat): (r: seq<int>)
    requires Span(k, n) <= |b|
    ensures |r| == n
    ensures forall i :: 0 <= i < n ==> InRange(k, r[i])
  {
    if n == 0 then [] else [Decode(k, b[..k.Width()])] + DecodeInts(k, b[k.Width()..], n - 1)
  }

  /** A list as written: its element count as a u64, then its elements in order. */
  function EncodeList(k: IntKind, xs: seq<int>): (r: Bytes)
    requires |xs| < U64_MODULUS
    requires forall i :: 0 <= i < |xs| ==> InRange(k, xs[i])
    ensures |r| == 8 + Span(k, |xs|)
  {
    Encode(U64, |xs|) + EncodeInts(k, xs)
  }

  /** Reading n elements back from their encodings, whatever follows them, gives the elements. */
  lemma {:induction false} DecodeEncodeInts(k: IntKind, xs: seq<int>, rest: Bytes)
    requires forall i :: 0 <= i < |xs| ==> InRange(k, xs[i])
    ensures DecodeInts(k, EncodeInts(k, xs) + rest, |xs|) == xs
  {
    if xs != [] {
      var tail := EncodeInts(k, xs[1..]) + rest;
      assert EncodeInts(k, xs) + rest == Encode(k, xs[0]) + tail;
      DecodeEncodeInts(k, xs[1..], rest);
      DecodeIntsCons(k, xs[0], tail, |xs| - 1);
      assert [xs[0]] + xs[1..] == xs;
    }
  }

  /** Reading one more element over the encoding of `x` yields `x` first. */
  lemma DecodeIntsCons(k: IntKind, x: int, b: Bytes, n: nat)
    requires InRange(k, x) && Span(k, n) <= |b|
    ensures Span(k, n + 1) <= |Encode(k, x) + b|
    ensures DecodeInts(k, Encode(k, x) + b, n + 1) == [x] + DecodeInts(k, b, n)
  {
    var c := Encode(k, x) + b;
    assert c[..k.Width()] == Encode(k, x);
    assert c[k.Width()..] == b;
    DecodeEncode(k, x);
  }

  /** Reading a list back from its framing gives its count and then its elements. */
  lemma DecodeEncodeList(k: IntKind, xs: seq<int>, rest: Bytes)
    requires |xs| < U64_MODULUS
    requires forall i :: 0 <= i < |xs| ==> InRange(k, xs[i])
    ensures var b := EncodeList(k, xs) + rest;
      Decode(U64, b[..8]) == |xs| && DecodeInts(k, b[8..], |xs|) == xs
  {
    var b := EncodeList(k, xs) + rest;
    assert b[..8] == Encode(U64, |xs|);
    assert b[8..] == EncodeInts(k, xs) + rest;
    DecodeEncode(U64, |xs|);
    DecodeEncodeInts(k, xs, rest);
  }

  /** The encoding of a concatenation is the concatenation of the encodings. */
  lemma {:induction false} EncodeIntsAppend(k: IntKind, a: seq<int>, b: seq<int>)
    requires forall i :: 0 <= i < |a| ==> InRange(k, a[i])
    requires forall i :: 0 <= i < |b| ==> InRange(k, b[i])
    ensures forall i :: 0 <= i < |a + b| ==> InRange(k, (a + b)[i])
    ensures EncodeInts(k, a + b) == EncodeInts(k, a) + EncodeInts(k, b)
  {
    assert forall i :: 0 <= i < |a + b| ==> (a + b)[i] == if i < |a| then a[i] else b[i - |a|];
    if a == [] {
      assert a + b == b;
    } else {
      assert (a + b)[0] == a[0] && (a + b)[1..] == a[1..] + b;
      EncodeIntsAppend(k, a[1..], b);
      assert EncodeInts(k, a + b) == Encode(k, a[0]) + EncodeInts(k, a[1..] + b);
    }
  }

  /** Writing one more element appends its encoding. */
  lemma EncodeIntsSnoc(k: IntKind, xs: seq<int>, i: nat)
    requires i < |xs| && forall j :: 0 <= j < |xs| ==> InRange(k, xs[j])
    ensures EncodeInts(k, xs[..i + 1]) == EncodeInts(k, xs[..i]) + Encode(k, xs[i])
  {
    assert xs[..i + 1] == xs[..i] + [xs[i]];
    EncodeIntsAppend(k, xs[..i], [xs[i]]);
    assert EncodeInts(k, [xs[i]]) == Encode(k, xs[i]) + EncodeInts(k, []);
  }
}
