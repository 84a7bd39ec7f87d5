/** UTF-8 as section 3 of RFC 3629 defines it: the encoding of one codepoint, the decoding of the
    sequence that starts at a byte offset, and the codepoint-level view of a NUL-terminated byte
    string (its codepoint count, the codepoint at an index, the first and last index of a codepoint,
    a substring by codepoint index) that String delegates to. */
module Utf8 {
  import opened Common

  /** A Unicode scalar value: at most U+10FFFF and not a UTF-16 surrogate, which section 3 of
      RFC 3629 forbids UTF-8 to encode. */
  predicate IsScalar(cp: int) {
    0 <= cp <= 0x10FFFF && !(0xD800 <= cp <= 0xDFFF)
  }

  /** Codepoints a NUL-terminated string can hold: scalar values other than NUL. */
  predicate IsText(cps: seq<u32>) {
    forall i :: 0 <= i < |cps| ==> cps[i] != 0 && IsScalar(cps[i])
  }

  /** The number of bytes the encoding of a codepoint takes, by the ranges of the table in section 3
      of RFC 3629; 0 above U+10FFFF. */
  function Width(cp: u32): (w: nat)
    ensures w <= 4
    ensures w == 0 <==> cp > 0x10FFFF
  {
    if cp < 0x80 then 1
    else if cp < 0x800 then 2
    else if cp < 0x1_0000 then 3
    else if cp <= 0x10FFFF then 4
    else 0
  }

  /** A byte of the form 10xxxxxx, which continues a multi-byte sequence. */
  predicate IsContinuation(x: u8) {
    0x80 <= x < 0xC0
  }

  /** The encoding of a scalar value: six bits of the value per continuation byte, the rest in
      the lead byte. */
  function EncodeScalar(cp: u32): (r: Bytes)
    requires IsScalar(cp)
    ensures |r| == Width(cp)
    ensures r[0] == 0 <==> cp == 0
    ensures forall i :: 1 <= i < |r| ==> IsContinuation(r[i])
  {
    if cp < 0x80 then [cp]
    else if cp < 0x800 then [0xC0 + cp / 0x40, 0x80 + cp % 0x40]
    else if cp < 0x1_0000 then [0xE0 + cp / 0x40 / 0x40, 0x80 + cp / 0x40 % 0x40, 0x80 + cp % 0x40]
    else [0xF0 + cp / 0x40 / 0x40 / 0x40, 0x80 + cp / 0x40 / 0x40 % 0x40, 0x80 + cp / 0x40 % 0x40, 0x80 + cp % 0x40]
  }

  /** Encoding a codepoint, failing for anything that is not a scalar value. */
  function Encode(cp: u32): (r: Option<Bytes>)
    ensures r.Some? <==> IsScalar(cp)
    ensures r.Some? ==> |r.value| == Width(cp)
  {
    if IsScalar(cp) then Some(EncodeScalar(cp)) else None
  }

  /** The six payload bits of a continuation byte. */
  function Payload(x: u8): int { x as int - 0x80 }

  /** The scalar value encoded by the two-, three- or four-byte sequence at offset o of c, or
      None when the bytes there are truncated, overlong, a surrogate or above U+10FFFF. */
  function DecodeMulti(c: Bytes, o: nat): (r: Option<(u32, nat)>)
    requires o < |c| && 0xC2 <= c[o] <= 0xF4
  {
    var b0: int := c[o];
    if b0 < 0xE0 then
      if o + 1 < |c| && IsContinuation(c[o + 1]) then
        Some(((b0 - 0xC0) * 0x40 + Payload(c[o + 1]), 2))
      else None
    else if b0 < 0xF0 then
      if o + 2 < |c| && IsContinuation(c[o + 1]) && IsContinuation(c[o + 2]) then
        var cp := ((b0 - 0xE0) * 0x40 + Payload(c[o + 1])) * 0x40 + Payload(c[o + 2]);
        if cp < 0x800 || 0xD800 <= cp <= 0xDFFF then None else Some((cp, 3))
      else None
    else
      if o + 3 < |c| && IsContinuation(c[o + 1]) && IsContinuation(c[o + 2]) && IsContinuation(c[o + 3]) then
        var cp := (((b0 - 0xF0) * 0x40 + Payload(c[o + 1])) * 0x40 + Payload(c[o + 2])) * 0x40 + Payload(c[o + 3]);
        if cp < 0x1_0000 || cp > 0x10FFFF then None else Some((cp, 4))
      else None
  }

  /** The codepoint whose encoding starts at byte offset o of c, with its width in bytes; None
      when the bytes there are not a well-formed UTF-8 sequence. */
  function DecodeAt(c: Bytes, o: nat): (r: Option<(u32, nat)>)
    ensures r.Some? ==> 1 <= r.value.1 <= 4 && o + r.value.1 <= |c| && IsScalar(r.value.0)
    ensures r.Some? ==> (r.value.0 == 0 <==> c[o] == 0)
    ensures r.Some? && r.value.0 != 0 ==> c[o + r.value.1 - 1] != 0
  {
    if o >= |c| then None
    else if c[o] < 0x80 then Some((c[o], 1))
    else if c[o] < 0xC2 || c[o] > 0xF4 then None
    else DecodeMulti(c, o)
  }

  /** Decoding the bytes of an encoding gives back the codepoint and its width, whatever
      surrounds them. */
  lemma DecodeEncode(c: Bytes, o: nat, cp: u32)
    requires IsScalar(cp) && o + Width(cp) <= |c| && c[o..o + Width(cp)] == EncodeScalar(cp)
    ensures DecodeAt(c, o) == Some((cp, Width(cp)))
  {
    var e := EncodeScalar(cp);
    assert c[o] == e[0];
    if |e| == 2 {
      assert c[o + 1] == e[1];
    } else if |e| == 3 {
      assert c[o + 1] == e[1] && c[o + 2] == e[2];
    } else if |e| == 4 {
      assert c[o + 1] == e[1] && c[o + 2] == e[2] && c[o + 3] == e[3];
    }
  }

  /** Splitting off the low six bits of q * 64 + p. */
  lemma SplitLowBits(q: nat, p: int)
    requires 0 <= p < 0x40
    ensures (q * 0x40 + p) / 0x40 == q && (q * 0x40 + p) % 0x40 == p
  {
  }

  lemma ShortestForm2(b0: u8, b1: u8)
    requires 0xC2 <= b0 < 0xE0 && IsContinuation(b1)
    ensures var cp := (b0 as int - 0xC0) * 0x40 + Payload(b1);
      IsScalar(cp) && Width(cp) == 2 && EncodeScalar(cp) == [b0, b1]
  {
    SplitLowBits(b0 as int - 0xC0, Payload(b1));
  }

  lemma ShortestForm3(b0: u8, b1: u8, b2: u8)
    requires 0xE0 <= b0 < 0xF0 && IsContinuation(b1) && IsContinuation(b2)
    requires var cp := ((b0 as int - 0xE0) * 0x40 + Payload(b1)) * 0x40 + Payload(b2);
      0x800 <= cp && !(0xD800 <= cp <= 0xDFFF)
    ensures var cp := ((b0 as int - 0xE0) * 0x40 + Payload(b1)) * 0x40 + Payload(b2);
      IsScalar(cp) && Width(cp) == 3 && EncodeScalar(cp) == [b0, b1, b2]
  {
    var q := (b0 as int - 0xE0) * 0x40 + Payload(b1);
    SplitLowBits(q, Payload(b2));
    SplitLowBits(b0 as int - 0xE0, Payload(b1));
  }

  lemma ShortestForm4(b0: u8, b1: u8, b2: u8, b3: u8)
    requires 0xF0 <= b0 <= 0xF4 && IsContinuation(b1) && IsContinuation(b2) && IsContinuation(b3)
    requires var cp := (((b0 as int - 0xF0) * 0x40 + Payload(b1)) * 0x40 + Payload(b2)) * 0x40 + Payload(b3);
      0x1_0000 <= cp <= 0x10FFFF
    ensures var cp := (((b0 as int - 0xF0) * 0x40 + Payload(b1)) * 0x40 + Payload(b2)) * 0x40 + Payload(b3);
      IsScalar(cp) && Width(cp) == 4 && EncodeScalar(cp) == [b0, b1, b2, b3]
  {
    var q1 := (b0 as int - 0xF0) * 0x40 + Payload(b1);
    var q2 := q1 * 0x40 + Payload(b2);
    SplitLowBits(q2, Payload(b3));
    SplitLowBits(q1, Payload(b2));
    SplitLowBits(b0 as int - 0xF0, Payload(b1));
  }

  /** The decoder accepts only shortest forms: the bytes it decodes are exactly the encoding of the
      codepoint it returns. */
  lemma EncodeDecode(c: Bytes, o: nat)
    requires DecodeAt(c, o).Some?
    ensures var (cp, w) := DecodeAt(c, o).value; w == Width(cp) && c[o..o + w] == EncodeScalar(cp)
  {
    var (cp, w) := DecodeAt(c, o).value;
    if w == 1 {
      assert c[o..o + 1] == [c[o]];
    } else if w == 2 {
      ShortestForm2(c[o], c[o + 1]);
      assert c[o..o + 2] == [c[o], c[o + 1]];
    } else if w == 3 {
      ShortestForm3(c[o], c[o + 1], c[o + 2]);
      assert c[o..o + 3] == [c[o], c[o + 1], c[o + 2]];
    } else {
      ShortestForm4(c[o], c[o + 1], c[o + 2], c[o + 3]);
      assert c[o..o + 4] == [c[o], c[o + 1], c[o + 2], c[o + 3]];
    }
  }

  /** The codepoints decoded one after another from offset o of c, up to a NUL codepoint or the
      first malformed sequence. */
  function Scan(c: Bytes, o: nat): (r: seq<u32>)
    ensures IsText(r)
    decreases |c| - o
  {
    match DecodeAt(c, o)
    case None => []
    case Some((cp, w)) => if cp == 0 then [] else [cp] + Scan(c, o + w)
  }

  /** Scanning past a decoded codepoint other than NUL. */
  lemma ScanStep(c: Bytes, o: nat)
    requires DecodeAt(c, o).Some? && DecodeAt(c, o).value.0 != 0
    ensures Scan(c, o) == [DecodeAt(c, o).value.0] + Scan(c, o + DecodeAt(c, o).value.1)
  {
  }

  /** Scanning stops at a NUL codepoint or a malformed sequence. */
  lemma ScanStop(c: Bytes, o: nat)
    requires DecodeAt(c, o).None? || DecodeAt(c, o).value.0 == 0
    ensures Scan(c, o) == []
  {
  }

  /** The codepoints of a string, read through its NUL-terminated form. */
  function Codepoints(b: Bytes): (r: seq<u32>)
    ensures IsText(r)
  {
    Scan(b + [0], 0)
  }

  /** The UTF-8 length of a string: how many codepoints it holds, never more than its bytes. */
  function Length(b: Bytes): (r: nat)
    ensures r <= |b|
  {
    ScanBound(b + [0], 0);
    |Codepoints(b)|
  }

  /** The encodings of a sequence of codepoints, one after another. */
  function EncodeText(cps: seq<u32>): (r: Bytes)
    requires IsText(cps)
    ensures |r| >= |cps|
  {
    if cps == [] then [] else EncodeScalar(cps[0]) + EncodeText(cps[1..])
  }

  /** Bytes that are exactly the encoding of NUL-free scalar values. */
  predicate IsWellFormed(b: Bytes) {
    EncodeText(Codepoints(b)) == b
  }

  /** Scanning the encoding of a text, placed anywhere and followed by NUL, gives back the text. */
  lemma {:induction false} ScanEncodeText(p: Bytes, cps: seq<u32>)
    requires IsText(cps)
    ensures Scan(p + EncodeText(cps) + [0], |p|) == cps
    decreases |cps|
  {
    if cps == [] {
      assert (p + EncodeText(cps) + [0])[|p|] == 0;
    } else {
      var q := p + EncodeScalar(cps[0]);
      ScanEncodeText(q, cps[1..]);
      ScanEncodeStep(p, cps, q);
    }
  }

  /** The step of ScanEncodeText: the first codepoint, then the scan of the rest. */
  lemma ScanEncodeStep(p: Bytes, cps: seq<u32>, q: Bytes)
    requires IsText(cps) && cps != [] && q == p + EncodeScalar(cps[0])
    requires Scan(q + EncodeText(cps[1..]) + [0], |q|) == cps[1..]
    ensures Scan(p + EncodeText(cps) + [0], |p|) == cps
  {
    var c := p + EncodeText(cps) + [0];
    DecodeFirst(p, cps, c);
    RegroupFirst(p, cps, q, c);
    ScanCons(c, |p|, cps[0], Width(cps[0]), |q|, cps[1..]);
    HeadTail(cps);
  }

  /** The first codepoint of an encoded text decodes where the text starts. */
  lemma DecodeFirst(p: Bytes, cps: seq<u32>, c: Bytes)
    requires IsText(cps) && cps != [] && c == p + EncodeText(cps) + [0]
    ensures DecodeAt(c, |p|) == Some((cps[0], Width(cps[0])))
  {
    var e, rest := EncodeScalar(cps[0]), EncodeText(cps[1..]);
    assert EncodeText(cps) == e + rest;
    Regroup(p, e, rest);
    SliceOfMiddle(p, e, rest + [0]);
    DecodeEncode(c, |p|, cps[0]);
  }

  /** An encoded text is its first encoding followed by the encoding of the rest. */
  lemma RegroupFirst(p: Bytes, cps: seq<u32>, q: Bytes, c: Bytes)
    requires IsText(cps) && cps != [] && q == p + EncodeScalar(cps[0]) && c == p + EncodeText(cps) + [0]
    ensures c == q + EncodeText(cps[1..]) + [0] && |q| == |p| + Width(cps[0])
  {
    var e, rest := EncodeScalar(cps[0]), EncodeText(cps[1..]);
    assert EncodeText(cps) == e + rest;
    Regroup(p, e, rest);
  }

  lemma HeadTail(s: seq<u32>)
    requires s != []
    ensures s == [s[0]] + s[1..]
  {
  }

  /** Scanning a decoded codepoint other than NUL puts it before the rest of the scan. */
  lemma ScanCons(c: Bytes, o: nat, cp: u32, w: nat, next: nat, tail: seq<u32>)
    requires DecodeAt(c, o) == Some((cp, w)) && cp != 0
    requires next == o + w && Scan(c, next) == tail
    ensures Scan(c, o) == [cp] + tail
  {
    ScanStep(c, o);
  }

  lemma Regroup(p: Bytes, e: Bytes, t: Bytes)
    ensures p + (e + t) + [0] == p + e + (t + [0]) == p + e + t + [0]
  {
  }

  lemma SliceOfMiddle(p: Bytes, e: Bytes, t: Bytes)
    ensures (p + e + t)[|p|..|p| + |e|] == e
  {
  }

  /** Reading back the encoding of a text gives the text, so that encoding is well-formed. */
  lemma CodepointsOfEncodeText(cps: seq<u32>)
    requires IsText(cps)
    ensures Codepoints(EncodeText(cps)) == cps
    ensures IsWellFormed(EncodeText(cps))
  {
    ScanEncodeText([], cps);
    assert [] + EncodeText(cps) + [0] == EncodeText(cps) + [0];
  }

  /** The bytes that are the encoding of some text are exactly the well-formed ones. */
  lemma WellFormedIff(b: Bytes)
    ensures IsWellFormed(b) <==> exists cps :: IsText(cps) && EncodeText(cps) == b
  {
    if exists cps :: IsText(cps) && EncodeText(cps) == b {
      var cps :| IsText(cps) && EncodeText(cps) == b;
      CodepointsOfEncodeText(cps);
    }
  }

  /** The encoding of a concatenation is the concatenation of the encodings. */
  lemma {:induction false} EncodeTextAppend(a: seq<u32>, b: seq<u32>)
    requires IsText(a) && IsText(b)
    ensures IsText(a + b) && EncodeText(a + b) == EncodeText(a) + EncodeText(b)
  {
    assert forall i :: 0 <= i < |a + b| ==> (a + b)[i] == if i < |a| then a[i] else b[i - |a|];
    if a == [] {
      assert a + b == b;
    } else {
      assert (a + b)[0] == a[0] && (a + b)[1..] == a[1..] + b;
      EncodeTextAppend(a[1..], b);
    }
  }

  /** Well-formed strings concatenate to a well-formed string holding both texts. */
  lemma WellFormedAppend(a: Bytes, b: Bytes)
    requires IsWellFormed(a) && IsWellFormed(b)
    ensures IsWellFormed(a + b) && Codepoints(a + b) == Codepoints(a) + Codepoints(b)
  {
    EncodeTextAppend(Codepoints(a), Codepoints(b));
    CodepointsOfEncodeText(Codepoints(a) + Codepoints(b));
  }

  /** Every codepoint scanned before the terminating NUL takes at least one byte before it. */
  lemma {:induction false} ScanBound(c: Bytes, o: nat)
    requires o < |c| && c[|c| - 1] == 0
    ensures |Scan(c, o)| <= |c| - 1 - o
    decreases |c| - o
  {
    match DecodeAt(c, o)
    case None =>
    case Some((cp, w)) =>
      if cp != 0 {
        if o + w < |c| {
          ScanBound(c, o + w);
        }
      }
  }

  /** The codepoint at a codepoint index; past the end the terminating NUL, 0. */
  function AtIndex(b: Bytes, index: nat): (r: u32)
    ensures index < Length(b) ==> r != 0 && IsScalar(r)
    ensures index >= Length(b) ==> r == 0
  {
    var cps := Codepoints(b);
    if index < |cps| then cps[index] else 0
  }

  /** The first index of x in s, or -1 when x does not occur. */
  function FirstIndex(s: seq<u32>, x: u32): (r: int)
    ensures r >= -1
    ensures r == -1 <==> x !in s
    ensures r >= 0 ==> r < |s| && s[r] == x && forall j :: 0 <= j < r ==> s[j] != x
  {
    if s == [] then -1
    else if s[0] == x then 0
    else
      var k := FirstIndex(s[1..], x);
      assert s == [s[0]] + s[1..];
      if k == -1 then -1 else k + 1
  }

  /** The last index of x in s, or -1 when x does not occur. */
  function LastIndex(s: seq<u32>, x: u32): (r: int)
    ensures r >= -1
    ensures r == -1 <==> x !in s
    ensures r >= 0 ==> r < |s| && s[r] == x && forall j :: r < j < |s| ==> s[j] != x
  {
    if s == [] then -1
    else if s[|s| - 1] == x then |s| - 1
    else LastIndex(s[..|s| - 1], x)
  }

  /** The count codepoints from codepoint index from, clamped to the end of the string. */
  function Substring(b: Bytes, from: nat, count: nat): (r: Bytes)
    ensures var cps := Codepoints(b); var lo := if from < |cps| then from else |cps|;
      Codepoints(r) == cps[lo..if count < |cps| - lo then lo + count else |cps|]
  {
    var cps := Codepoints(b);
    var lo := if from < |cps| then from else |cps|;
    var hi := if count < |cps| - lo then lo + count else |cps|;
    CodepointsOfEncodeText(cps[lo..hi]);
    EncodeText(cps[lo..hi])
  }

  /** The codepoints from codepoint index from to the end; empty when from is past the end. */
  function SubstringFrom(b: Bytes, from: nat): (r: Bytes)
    ensures Codepoints(r) == Codepoints(b)[if from < Length(b) then from else Length(b)..]
  {
    var cps := Codepoints(b);
    var lo := if from < |cps| then from else |cps|;
    CodepointsOfEncodeText(cps[lo..]);
    EncodeText(cps[lo..])
  }

  /** On a well-formed string a substring is a run of its bytes: the encodings of the codepoints
      before the start, then the result, then the rest. */
  lemma {:induction false} SubstringIsInfix(b: Bytes, from: nat, count: nat)
    requires IsWellFormed(b)
    ensures exists pre, post :: b == pre + Substring(b, from, count) + post
  {
    var cps := Codepoints(b);
    var lo := if from < |cps| then from else |cps|;
    var hi := if count < |cps| - lo then lo + count else |cps|;
    EncodeThree(cps, lo, hi);
    assert b == EncodeText(cps[..lo]) + Substring(b, from, count) + EncodeText(cps[hi..]);
  }

  /** Cutting a text in three cuts its encoding in three. */
  lemma {:induction false} EncodeThree(cps: seq<u32>, lo: nat, hi: nat)
    requires IsText(cps) && lo <= hi <= |cps|
    ensures EncodeText(cps) == EncodeText(cps[..lo]) + EncodeText(cps[lo..hi]) + EncodeText(cps[hi..])
  {
    var pre, mid, post := cps[..lo], cps[lo..hi], cps[hi..];
    assert cps == pre + mid + post;
    EncodeTextAppend(pre, mid);
    EncodeTextAppend(pre + mid, post);
  }

  /** The first codepoint of a string is cp exactly when the string starts with the encoding of cp
      (a NUL-free scalar value). */
  lemma FirstCodepoint(b: Bytes, cp: u32)
    ensures (Length(b) > 0 && AtIndex(b, 0) == cp) <==>
      (cp != 0 && IsScalar(cp) && Width(cp) <= |b| && b[..Width(cp)] == EncodeScalar(cp))
  {
    var c := b + [0];
    if Length(b) > 0 && AtIndex(b, 0) == cp {
      var (x, w) := DecodeAt(c, 0).value;
      EncodeDecode(c, 0);
      assert c[|b|] == 0;
      assert c[..w] == b[..w];
    }
    if cp != 0 && IsScalar(cp) && Width(cp) <= |b| && b[..Width(cp)] == EncodeScalar(cp) {
      assert c[0..Width(cp)] == b[..Width(cp)];
      DecodeEncode(c, 0, cp);
    }
  }

  /** The codepoint decoded at the place where the encoding of cp would start, if the string ended
      with it, is cp exactly when the string does end with that encoding. */
  lemma LastCodepoint(b: Bytes, cp: u32)
    ensures Width(cp) <= |b| ==>
      var d := DecodeAt(b + [0], |b| - Width(cp));
      ((d.Some? && d.value.0 == cp) <==> IsScalar(cp) && b[|b| - Width(cp)..] == EncodeScalar(cp))
  {
    if Width(cp) <= |b| {
      var c := b + [0];
      var o := |b| - Width(cp);
      var d := DecodeAt(c, o);
      if d.Some? && d.value.0 == cp {
        EncodeDecode(c, o);
        assert c[o..o + Width(cp)] == b[o..];
      }
      if IsScalar(cp) && b[o..] == EncodeScalar(cp) {
        assert c[o..o + Width(cp)] == b[o..];
        DecodeEncode(c, o, cp);
      }
    }
  }

  /** Indexing the encoding of a text gives its codepoints back. */
  lemma AtIndexOfEncodeText(cps: seq<u32>, index: nat)
    requires IsText(cps) && index < |cps|
    ensures AtIndex(EncodeText(cps), index) == cps[index]
  {
    CodepointsOfEncodeText(cps);
  }

  /** The encoding of a text holds no NUL byte. */
  lemma {:induction false} NoNulInEncodeText(cps: seq<u32>)
    requires IsText(cps)
    ensures forall i :: 0 <= i < |EncodeText(cps)| ==> EncodeText(cps)[i] != 0
  {
    if cps != [] {
      NoNulInEncodeText(cps[1..]);
      var e := EncodeScalar(cps[0]);
      assert forall i :: 0 <= i < |e| ==> e[i] != 0 by {
        forall i | 0 <= i < |e| ensures e[i] != 0 {
          if i > 0 { assert IsContinuation(e[i]); }
        }
      }
    }
  }

  /** A text whose encoding ends with an ASCII byte ends with that codepoint: the last byte of a
      longer encoding is a continuation byte. */
  lemma {:induction false} LastAscii(cps: seq<u32>)
    requires IsText(cps) && cps != [] && EncodeText(cps)[|EncodeText(cps)| - 1] < 0x80
    ensures cps[|cps| - 1] == EncodeText(cps)[|EncodeText(cps)| - 1] as u32
    ensures EncodeText(cps) == EncodeText(cps[..|cps| - 1]) + [cps[|cps| - 1] as u8]
  {
    var n := |cps|;
    var init, x := cps[..n - 1], cps[n - 1];
    EncodeSnoc(cps, init, x);
    var a, e := EncodeText(init), EncodeScalar(x);
    LastOfAppend(a, e);
    LastByteAscii(x);
  }

  /** The encoding of a text is that of all but its last codepoint, then that of the last. */
  lemma {:induction false} EncodeSnoc(cps: seq<u32>, init: seq<u32>, x: u32)
    requires IsText(cps) && cps != [] && init == cps[..|cps| - 1] && x == cps[|cps| - 1]
    ensures IsText(init) && IsScalar(x) && EncodeText(cps) == EncodeText(init) + EncodeScalar(x)
  {
    assert cps == init + [x];
    EncodeTextAppend(init, [x]);
    assert EncodeText([x]) == EncodeScalar(x) + EncodeText([]);
  }

  lemma LastOfAppend(a: Bytes, b: Bytes)
    requires b != []
    ensures (a + b)[|a + b| - 1] == b[|b| - 1]
  {
  }

  /** An encoding whose last byte is ASCII is that single byte. */
  lemma LastByteAscii(x: u32)
    requires IsScalar(x) && EncodeScalar(x)[|EncodeScalar(x)| - 1] < 0x80
    ensures EncodeScalar(x) == [x as u8] && x < 0x80
  {
    var e := EncodeScalar(x);
    if |e| > 1 {
      assert false;
    }
  }

  /** Bytes 1..0x7F as codepoints. */
  function Widen(b: Bytes): (r: seq<u32>)
    ensures |r| == |b| && forall i :: 0 <= i < |b| ==> r[i] == b[i]
  {
    if b == [] then [] else [b[0] as u32] + Widen(b[1..])
  }

  /** An ASCII string without NUL is well-formed, one codepoint per byte. */
  lemma {:induction false} AsciiText(b: Bytes)
    requires forall i :: 0 <= i < |b| ==> 0 < b[i] < 0x80
    ensures IsText(Widen(b)) && EncodeText(Widen(b)) == b
    ensures Codepoints(b) == Widen(b)
  {
    if b != [] {
      AsciiText(b[1..]);
      assert Widen(b)[1..] == Widen(b[1..]);
      assert b == [b[0]] + b[1..];
    }
    CodepointsOfEncodeText(Widen(b));
  }

  /** "hellö!" holds six codepoints in seven bytes. */
  lemma HelloLength()
    ensures var b: Bytes := [0x68, 0x65, 0x6C, 0x6C, 0xC3, 0xB6, 0x21]; Length(b) == 6 && |b| == 7
  {
    var cps: seq<u32> := [0x68, 0x65, 0x6C, 0x6C, 0xF6, 0x21];
    assert EncodeText(cps) == [0x68, 0x65, 0x6C, 0x6C, 0xC3, 0xB6, 0x21];
    CodepointsOfEncodeText(cps);
  }

  /** U+1F603 takes four bytes and is one codepoint. */
  lemma SmileyLength()
    ensures var b: Bytes := [0xF0, 0x9F, 0x98, 0x83]; Length(b) == 1 && |b| == 4
  {
    assert EncodeText([0x1F603]) == [0xF0, 0x9F, 0x98, 0x83];
    CodepointsOfEncodeText([0x1F603]);
  }

  /** Substrings of "😃,😃" by codepoint index, clamped at the end. */
  lemma SmileySubstrings()
    ensures var b: Bytes := [0xF0, 0x9F, 0x98, 0x83, 0x2C, 0xF0, 0x9F, 0x98, 0x83];
      Substring(b, 1, 1) == [0x2C] && Substring(b, 2, 1) == [0xF0, 0x9F, 0x98, 0x83]
      && Substring(b, 0, 4) == b && Substring(b, 100, 100) == []
  {
    var cps: seq<u32> := [0x1F603, 0x2C, 0x1F603];
    assert EncodeText(cps) == [0xF0, 0x9F, 0x98, 0x83, 0x2C, 0xF0, 0x9F, 0x98, 0x83];
    CodepointsOfEncodeText(cps);
    assert cps[1..2] == [0x2C] && cps[2..3] == [0x1F603] && cps[0..3] == cps;
    assert EncodeText([0x2C]) == [0x2C];
    assert EncodeText([0x1F603]) == [0xF0, 0x9F, 0x98, 0x83];
  }

  /** n copies of U+1F603, one after another. */
  function Smileys(n: nat): (r: Bytes)
    ensures |r| == 4 * n
  {
    if n == 0 then [] else [0xF0, 0x9F, 0x98, 0x83] + Smileys(n - 1)
  }

  /** n copies of one codepoint. */
  function Repeat(cp: u32, n: nat): (r: seq<u32>)
    ensures |r| == n && forall i :: 0 <= i < n ==> r[i] == cp
  {
    if n == 0 then [] else [cp] + Repeat(cp, n - 1)
  }

  lemma {:induction false} SmileysEncode(n: nat)
    ensures IsText(Repeat(0x1F603, n)) && EncodeText(Repeat(0x1F603, n)) == Smileys(n)
  {
    if n > 0 {
      SmileysEncode(n - 1);
      var r := Repeat(0x1F603, n);
      assert r[1..] == Repeat(0x1F603, n - 1);
      assert EncodeScalar(0x1F603) == [0xF0, 0x9F, 0x98, 0x83];
    }
  }

  /** A run of n U+1F603 holds n codepoints in 4n bytes; 200 of them, 200 in 800. */
  lemma SmileysLength(n: nat)
    ensures Length(Smileys(n)) == n && |Smileys(n)| == 4 * n
    ensures Length(Smileys(200)) == 200 && |Smileys(200)| == 800
  {
    SmileysEncode(n);
    CodepointsOfEncodeText(Repeat(0x1F603, n));
    SmileysEncode(200);
    CodepointsOfEncodeText(Repeat(0x1F603, 200));
  }
}
