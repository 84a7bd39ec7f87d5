/** alflib::String: a byte buffer holding UTF-8 (RFC 3629) together with a cached count of the
    codepoints in it. Codepoint-level queries go through the abstract UTF-8 operations of module
    Utf8; byte-level ones (Find, Replace, equality) work on the bytes directly. */
module Strings {
  import opened Common
  import Utf8

  /** The u64 value (u64)-1, which Substring reads as "to the end". */
  const U64_MAX: int := 0xFFFF_FFFF_FFFF_FFFF

  /** The cached length a constructor stores: the UTF-8 length, truncated to u32. */
  function CountOf(b: Bytes): u32 {
    Utf8.Length(b) % U32_MODULUS
  }

  /** What a NUL-terminated view of b (c_str(), or a char8 array) holds: b up to its first NUL. */
  function UpToNul(b: Bytes): (r: Bytes)
    ensures 0 !in r
    ensures |r| <= |b| && r == b[..|r|]
    ensures |r| < |b| ==> b[|r|] == 0
  {
    if b == [] || b[0] == 0 then [] else [b[0]] + UpToNul(b[1..])
  }

  /** A NUL-free byte string reads back whole through its NUL-terminated view. */
  lemma UpToNulOfNulFree(b: Bytes)
    requires 0 !in b
    ensures UpToNul(b) == b
  {
  }

  /** The concatenation of two well-formed strings holds both texts, so its cached length is the
      sum of theirs in u32 arithmetic: `s += t` and `s + t` agree. */
  lemma ConcatCount(a: Bytes, b: Bytes)
    requires Utf8.IsWellFormed(a) && Utf8.IsWellFormed(b)
    ensures Utf8.IsWellFormed(a + b)
    ensures CountOf(a + b) == (CountOf(a) + CountOf(b)) % U32_MODULUS
  {
    Utf8.WellFormedAppend(a, b);
    ModAdd(Utf8.Length(a), Utf8.Length(b));
  }

  lemma ModAdd(x: nat, y: nat)
    ensures (x + y) % U32_MODULUS == (x % U32_MODULUS + y % U32_MODULUS) % U32_MODULUS
  {
    var qx, qy := x / U32_MODULUS, y / U32_MODULUS;
    assert x == qx * U32_MODULUS + x % U32_MODULUS;
    assert y == qy * U32_MODULUS + y % U32_MODULUS;
    assert x + y == (qx + qy) * U32_MODULUS + (x % U32_MODULUS + y % U32_MODULUS);
  }

  // ---------------------------------------------------------------------------------------------
  // Byte search and replacement (std::string::find and the Replace loop)

  /** t occurs in s at byte offset i. */
  predicate OccursAt(s: Bytes, t: Bytes, i: nat) {
    i + |t| <= |s| && s[i..i + |t|] == t
  }

  ghost predicate Occurs(s: Bytes, t: Bytes) {
    exists i: nat :: OccursAt(s, t, i)
  }

  /** The first offset at or after i where t occurs in s, or -1. */
  function FindFrom(s: Bytes, t: Bytes, i: nat): (r: int)
    requires i <= |s|
    ensures r == -1 || (i <= r && OccursAt(s, t, r))
    decreases |s| - i
  {
    if OccursAt(s, t, i) then i else if i == |s| then -1 else FindFrom(s, t, i + 1)
  }

  /** FindFrom finds nothing exactly when nothing occurs at or after i, and otherwise it finds
      the first occurrence. */
  lemma {:induction false} FindFromFirst(s: Bytes, t: Bytes, i: nat)
    requires i <= |s|
    ensures var r := FindFrom(s, t, i);
      (r == -1 <==> forall j: nat :: i <= j ==> !OccursAt(s, t, j))
      && forall j: nat :: i <= j < r ==> !OccursAt(s, t, j)
    decreases |s| - i
  {
    if !OccursAt(s, t, i) && i < |s| {
      FindFromFirst(s, t, i + 1);
    }
  }

  /** When the Replace loop ends: every step shortens the string, or `from` is one byte that
      `to` does not contain, so that every step removes one of its occurrences. */
  predicate Terminates(from: Bytes, to: Bytes) {
    |to| < |from| || (|from| == 1 && from[0] !in to)
  }

  /** What every step of the Replace loop decreases. */
  function Progress(s: Bytes, from: Bytes, to: Bytes): nat
    requires Terminates(from, to)
  {
    if |to| < |from| then |s| else multiset(s)[from[0]]
  }

  /** One step of the Replace loop: the occurrence of `from` at i becomes `to`. */
  function ReplaceAt(s: Bytes, from: Bytes, to: Bytes, i: nat): (r: Bytes)
    requires OccursAt(s, from, i)
    ensures |r| == |s| - |from| + |to|
  {
    s[..i] + to + s[i + |from|..]
  }

  lemma ReplaceAtProgress(s: Bytes, from: Bytes, to: Bytes, i: nat)
    requires Terminates(from, to) && OccursAt(s, from, i)
    ensures Progress(ReplaceAt(s, from, to, i), from, to) < Progress(s, from, to)
  {
    if |to| >= |from| {
      assert s[i..i + 1] == from;
      assert s == s[..i] + from + s[i + 1..];
      var r := ReplaceAt(s, from, to, i);
      assert multiset(r) == multiset(s[..i]) + multiset(to) + multiset(s[i + 1..]);
      assert multiset(s) == multiset(s[..i]) + multiset(from) + multiset(s[i + 1..]);
    }
  }

  /** The bytes the Replace loop leaves and the number of steps it takes, each step replacing the
      first occurrence of `from` in what the previous steps left. */
  function ReplaceAll(s: Bytes, from: Bytes, to: Bytes): (Bytes, nat)
    requires Terminates(from, to)
    decreases Progress(s, from, to)
  {
    var i := FindFrom(s, from, 0);
    if i < 0 then (s, 0)
    else
      ReplaceAtProgress(s, from, to, i);
      var q := ReplaceAll(ReplaceAt(s, from, to, i), from, to);
      (q.0, q.1 + 1)
  }

  /** Afterwards `from` no longer occurs; no step is taken, and nothing changes, exactly when it
      did not occur to begin with. */
  lemma {:induction false} ReplaceAllResult(s: Bytes, from: Bytes, to: Bytes)
    requires Terminates(from, to)
    ensures var r := ReplaceAll(s, from, to);
      !Occurs(r.0, from) && (r.1 == 0 <==> !Occurs(s, from)) && (r.1 == 0 ==> r.0 == s)
    decreases Progress(s, from, to)
  {
    var i := FindFrom(s, from, 0);
    FindFromFirst(s, from, 0);
    if i >= 0 {
      ReplaceAtProgress(s, from, to, i);
      ReplaceAllResult(ReplaceAt(s, from, to, i), from, to);
    }
  }

  /** Every step changes the byte count by the same amount: a `to` shorter than `from` shrinks
      the bytes by at least one per step, so there are at most as many steps as bytes; one of
      the same size keeps the size and a longer one grows it by at least one per step. */
  lemma {:induction false} ReplaceAllSize(s: Bytes, from: Bytes, to: Bytes)
    requires Terminates(from, to)
    ensures var r := ReplaceAll(s, from, to);
      (|to| < |from| ==> |r.0| + r.1 <= |s|) && (|to| == |from| ==> |r.0| == |s|)
      && (|to| > |from| ==> |r.0| >= |s| + r.1)
    decreases Progress(s, from, to)
  {
    var i := FindFrom(s, from, 0);
    if i >= 0 {
      ReplaceAtProgress(s, from, to, i);
      ReplaceAllSize(ReplaceAt(s, from, to, i), from, to);
    }
  }

  /** Every byte c of s replaced by t: an independent description of replacing a single byte. */
  function Substitute(s: Bytes, c: u8, t: Bytes): (r: Bytes)
  {
    if s == [] then [] else (if s[0] == c then t else [s[0]]) + Substitute(s[1..], c, t)
  }

  lemma {:induction false} SubstituteAppend(a: Bytes, b: Bytes, c: u8, t: Bytes)
    ensures Substitute(a + b, c, t) == Substitute(a, c, t) + Substitute(b, c, t)
  {
    if a == [] {
      assert a + b == b;
    } else {
      assert (a + b)[0] == a[0] && (a + b)[1..] == a[1..] + b;
      SubstituteAppend(a[1..], b, c, t);
    }
  }

  lemma {:induction false} SubstituteFixes(s: Bytes, c: u8, t: Bytes)
    requires c !in s
    ensures Substitute(s, c, t) == s
  {
    if s != [] {
      SubstituteFixes(s[1..], c, t);
      assert s == [s[0]] + s[1..];
    }
  }

  /** Where the first occurrence of the single byte c is found, no c comes before it. */
  lemma FindByte(s: Bytes, c: u8)
    ensures var i := FindFrom(s, [c], 0);
      (i < 0 ==> c !in s) && (i >= 0 ==> i < |s| && s[i] == c && c !in s[..i])
  {
    var i := FindFrom(s, [c], 0);
    FindFromFirst(s, [c], 0);
    if i >= 0 {
      assert s[i..i + 1] == [c];
    }
    forall k | 0 <= k < |s| && (i < 0 || k < i) ensures s[k] != c {
      assert !OccursAt(s, [c], k);
      assert s[k..k + 1] == [s[k]];
    }
  }

  lemma SubstituteSplit(a: Bytes, x: Bytes, b: Bytes, c: u8, t: Bytes)
    ensures Substitute(a + x + b, c, t) == Substitute(a, c, t) + Substitute(x, c, t) + Substitute(b, c, t)
  {
    SubstituteAppend(a + x, b, c, t);
    SubstituteAppend(a, x, c, t);
  }

  lemma SubstituteAround(a: Bytes, x: Bytes, b: Bytes, c: u8, t: Bytes)
    requires c !in a && (x == t || x == [c]) && c !in t
    ensures Substitute(a + x + b, c, t) == a + t + Substitute(b, c, t)
  {
    SubstituteSplit(a, x, b, c, t);
    SubstituteFixes(a, c, t);
    SubstituteFixes(t, c, t);
    assert Substitute([c], c, t) == t + Substitute([], c, t);
  }

  /** One step of the loop on a single byte c leaves Substitute unchanged and removes one c. */
  lemma SubstituteStep(s: Bytes, c: u8, t: Bytes, i: nat)
    requires i < |s| && s[i] == c && c !in s[..i] && c !in t
    ensures OccursAt(s, [c], i)
    ensures Substitute(ReplaceAt(s, [c], t, i), c, t) == Substitute(s, c, t)
    ensures multiset(ReplaceAt(s, [c], t, i))[c] == multiset(s)[c] - 1
  {
    assert s[i..i + 1] == [c];
    var a, b := s[..i], s[i + 1..];
    assert s == a + [c] + b;
    assert ReplaceAt(s, [c], t, i) == a + t + b;
    SubstituteAround(a, [c], b, c, t);
    SubstituteAround(a, t, b, c, t);
    CountStep(a, [c], t, b, c);
  }

  lemma CountStep(a: Bytes, x: Bytes, t: Bytes, b: Bytes, c: u8)
    requires x == [c] && c !in t
    ensures multiset(a + t + b)[c] == multiset(a + x + b)[c] - 1
  {
    assert multiset(a + t + b) == multiset(a) + multiset(t) + multiset(b);
    assert multiset(a + x + b) == multiset(a) + multiset(x) + multiset(b);
  }

  /** Replacing a single byte c by a string without c replaces every c and takes one step per c. */
  lemma {:induction false} ReplaceByte(s: Bytes, c: u8, t: Bytes)
    requires c !in t
    ensures ReplaceAll(s, [c], t) == (Substitute(s, c, t), multiset(s)[c])
    decreases multiset(s)[c]
  {
    FindByte(s, c);
    var i := FindFrom(s, [c], 0);
    if i < 0 {
      SubstituteFixes(s, c, t);
    } else {
      SubstituteStep(s, c, t, i);
      ReplaceByte(ReplaceAt(s, [c], t, i), c, t);
    }
  }

  /** One step of ReplaceAll: the occurrence first found is replaced, and one step is counted
      on top of the n taken so far. */
  lemma ReplaceAllAt(s: Bytes, from: Bytes, to: Bytes, i: int, r: Bytes, all: (Bytes, nat), n: nat)
    requires Terminates(from, to) && i >= 0 && i == FindFrom(s, from, 0)
    requires OccursAt(s, from, i) && r == ReplaceAt(s, from, to, i)
    requires all == (ReplaceAll(s, from, to).0, n + ReplaceAll(s, from, to).1)
    ensures all == (ReplaceAll(r, from, to).0, n + 1 + ReplaceAll(r, from, to).1)
  {
    var rest := ReplaceAll(r, from, to);
    assert ReplaceAll(s, from, to) == (rest.0, rest.1 + 1);
  }

  /** Replace with an empty `from` finds it at offset 0 and leaves the string as it was, so
      the loop's state never changes and its condition always holds: it does not end. */
  lemma ReplaceEmptyIsFixedPoint(s: Bytes, to: Bytes)
    ensures FindFrom(s, [], 0) == 0
    ensures to == [] ==> ReplaceAt(s, [], to, 0) == s
    ensures !Terminates([], to)
  {
    assert OccursAt(s, [], 0);
  }

  // ---------------------------------------------------------------------------------------------

  class String {
    /** The UTF-8 bytes (mString). */
    var bytes: Bytes
    /** The cached codepoint count (mLength). */
    var length: u32

    /** The cached length agrees with the bytes. */
    ghost predicate Valid()
      reads this
    {
      length == CountOf(bytes)
    }

    /** String(const std::string&), and String(const char8*) given the bytes before its
        terminator: the bytes, and their UTF-8 length up to the first NUL. */
    constructor (s: Bytes)
      ensures bytes == s && length == CountOf(s)
      ensures Valid()
    {
      bytes := s;
      length := CountOf(s);
    }

    /** String(u32): the encoding of one codepoint as a NUL-terminated string, with length 1.
        For NUL the bytes are empty, so the cached length no longer agrees with them. */
    constructor FromCodepoint(cp: u32)
      requires Utf8.IsScalar(cp)
      ensures bytes == (if cp == 0 then [] else Utf8.EncodeScalar(cp))
      ensures length == 1
      ensures Valid() <==> cp != 0
    {
      var encoded := Utf8.Encode(cp).value;
      if cp != 0 {
        Utf8.NoNulInEncodeText([cp]);
        assert Utf8.EncodeText([cp]) == encoded;
        UpToNulOfNulFree(encoded);
        Utf8.CodepointsOfEncodeText([cp]);
      }
      bytes := UpToNul(encoded);
      length := 1;
    }

    /** The copy and the move constructor: both bytes and length carry over. */
    constructor Copy(other: String)
      ensures bytes == other.bytes && length == other.length
    {
      bytes := other.bytes;
      length := other.length;
    }

    /** Copy and move assignment. */
    method Assign(other: String)
      modifies this
      ensures bytes == old(other.bytes) && length == old(other.length)
    {
      if other != this {
        bytes := other.bytes;
        length := other.length;
      }
    }

    /** GetLength(): while the cached length is up to date and the count fits in a u32, the
        number of codepoints. */
    function Length(): (r: u32)
      reads this
      ensures Valid() && Utf8.Length(bytes) < U32_MODULUS ==> r as int == |Utf8.Codepoints(bytes)|
    {
      length
    }

    /** GetSize(): the byte count, truncated to u32; never below the length while the cached
        length is up to date. */
    function Size(): (r: u32)
      reads this
      ensures Valid() && |bytes| < U32_MODULUS ==> Length() <= r
    {
      |bytes| % U32_MODULUS
    }

    /** The codepoint whose encoding starts at a byte offset and its width, or -1 and the width
        given; decoding reads the NUL-terminated bytes. */
    function AtByteOffset(offset: u32, width: u32): (r: (int, u32))
      reads this
      ensures r.0 == -1 <==> Utf8.DecodeAt(bytes + [0], offset).None?
      ensures r.0 == -1 ==> r.1 == width
      ensures r.0 != -1 ==>
        Utf8.IsScalar(r.0) && 1 <= r.1 <= 4 && offset + r.1 <= |bytes| + 1
        && (bytes + [0])[offset..offset + r.1] == Utf8.EncodeScalar(r.0)
    {
      var d := Utf8.DecodeAt(bytes + [0], offset);
      if d.None? then (-1, width)
      else
        Utf8.EncodeDecode(bytes + [0], offset);
        (d.value.0, d.value.1)
    }

    /** The smallest byte offset at which the substring occurs, or -1 when it does not occur. */
    function Find(sub: String): (r: int)
      reads this, sub
      ensures r == -1 <==> !Occurs(bytes, sub.bytes)
      ensures r != -1 ==>
        0 <= r && OccursAt(bytes, sub.bytes, r) && forall j: nat :: j < r ==> !OccursAt(bytes, sub.bytes, j)
    {
      FindFromFirst(bytes, sub.bytes, 0);
      FindFrom(bytes, sub.bytes, 0)
    }

    /** The codepoint index of the first occurrence of cp, or -1 when it does not occur. */
    function IndexOf(cp: u32): (r: int)
      reads this
      ensures var cps := Utf8.Codepoints(bytes);
        (r == -1 <==> cp !in cps)
        && (r != -1 ==> 0 <= r < |cps| && cps[r] == cp && forall j :: 0 <= j < r ==> cps[j] != cp)
    {
      Utf8.FirstIndex(Utf8.Codepoints(bytes), cp)
    }

    /** The codepoint index of the last occurrence of cp, or -1 when it does not occur. */
    function LastIndexOf(cp: u32): (r: int)
      reads this
      ensures var cps := Utf8.Codepoints(bytes);
        (r == -1 <==> cp !in cps)
        && (r != -1 ==> 0 <= r < |cps| && cps[r] == cp && forall j :: r < j < |cps| ==> cps[j] != cp)
    {
      Utf8.LastIndex(Utf8.Codepoints(bytes), cp)
    }

    /** The codepoint at a codepoint index (At and operator[]); 0 past the end. */
    function At(index: u32): (r: u32)
      reads this
      ensures var cps := Utf8.Codepoints(bytes);
        (index < |cps| ==> r == cps[index] && r != 0 && Utf8.IsScalar(r)) && (index >= |cps| ==> r == 0)
    {
      Utf8.AtIndex(bytes, index)
    }

    /** The string starts with cp exactly when it starts with the encoding of cp, a NUL-free
        scalar value. */
    function StartsWith(cp: u32): (r: bool)
      reads this
      ensures Valid() && |bytes| < U32_MODULUS ==>
        (r <==> cp != 0 && Utf8.IsScalar(cp) && Utf8.Width(cp) <= |bytes|
                && bytes[..Utf8.Width(cp)] == Utf8.EncodeScalar(cp))
    {
      Utf8.FirstCodepoint(bytes, cp);
      length > 0 && At(0) == cp
    }

    /** The string ends with cp exactly when its last bytes are the encoding of cp. */
    function EndsWith(cp: u32): (r: bool)
      reads this
      ensures |bytes| < U32_MODULUS ==>
        (r <==> Utf8.IsScalar(cp) && Utf8.Width(cp) <= |bytes|
                && bytes[|bytes| - Utf8.Width(cp)..] == Utf8.EncodeScalar(cp))
    {
      Utf8.LastCodepoint(bytes, cp);
      var width := Utf8.Width(cp);
      var size := Size();
      assert |bytes| < U32_MODULUS ==> size == |bytes|;
      if width > size then false
      else
        var d := Utf8.DecodeAt(bytes + [0], size - width);
        d.Some? && d.value.0 == cp
    }

    /** count codepoints from codepoint index from, clamped to the end; count == (u64)-1 takes
        everything from `from` on. */
    function Substring(from: u64, count: u64): (r: Bytes)
      reads this
      ensures var cps := Utf8.Codepoints(bytes);
        var lo := if from < |cps| then from else |cps|;
        Utf8.Codepoints(r) == cps[lo..if count != U64_MAX && count < |cps| - lo then lo + count else |cps|]
    {
      if count == U64_MAX then Utf8.SubstringFrom(bytes, from) else Utf8.Substring(bytes, from, count)
    }

    /** operator+=(const String&): bytes appended, cached lengths added in u32 arithmetic. */
    method Append(other: String)
      modifies this
      ensures bytes == old(bytes) + old(other.bytes)
      ensures length == (old(length) + old(other.length)) % U32_MODULUS
      ensures old(Valid() && other.Valid() && Utf8.IsWellFormed(bytes) && Utf8.IsWellFormed(other.bytes))
        ==> Valid() && Utf8.IsWellFormed(bytes)
    {
      ghost var ok := Valid() && other.Valid() && Utf8.IsWellFormed(bytes) && Utf8.IsWellFormed(other.bytes);
      if ok {
        ConcatCount(bytes, other.bytes);
      }
      var b, n := other.bytes, other.length;
      bytes := bytes + b;
      length := (length + n) % U32_MODULUS;
    }

    /** operator+=(const char8*): the bytes before the terminator appended, their UTF-8 length
        added. */
    method AppendUtf8(s: Bytes)
      requires 0 !in s
      modifies this
      ensures bytes == old(bytes) + s
      ensures length == (old(length) + CountOf(s)) % U32_MODULUS
      ensures old(Valid() && Utf8.IsWellFormed(bytes)) && Utf8.IsWellFormed(s)
        ==> Valid() && Utf8.IsWellFormed(bytes)
    {
      if Valid() && Utf8.IsWellFormed(bytes) && Utf8.IsWellFormed(s) {
        ConcatCount(bytes, s);
      }
      bytes := bytes + s;
      length := (length + CountOf(s)) % U32_MODULUS;
    }

    /** Replace every occurrence of `from` by `to`, first occurrence first, and count the steps. */
    method Replace(from: String, to: String) returns (count: u32)
      requires from != this && to != this
      requires Terminates(from.bytes, to.bytes)
      modifies this
      ensures var r := ReplaceAll(old(bytes), from.bytes, to.bytes);
        bytes == r.0 && count == r.1 % U32_MODULUS
      ensures !Occurs(bytes, from.bytes)
      ensures !Occurs(old(bytes), from.bytes) ==> bytes == old(bytes) && length == old(length)
      ensures Occurs(old(bytes), from.bytes) || old(Valid()) ==> Valid()
    {
      ghost var f, t := from.bytes, to.bytes;
      ghost var all := ReplaceAll(bytes, f, t);
      count := 0;
      ghost var steps: nat := 0;
      var index := Find(from);
      while index >= 0
        invariant index == FindFrom(bytes, f, 0)
        invariant all == (ReplaceAll(bytes, f, t).0, steps + ReplaceAll(bytes, f, t).1)
        invariant count == steps % U32_MODULUS
        invariant steps == 0 ==> bytes == old(bytes) && length == old(length)
        invariant steps > 0 ==> Valid()
        decreases Progress(bytes, f, t)
      {
        count, steps, index := ReplaceStep(from, to, count, steps, index, all);
      }
      ReplaceAllResult(old(bytes), f, t);
    }

    /** One iteration of the Replace loop, with the loop's invariant as contract. */
    method ReplaceStep(from: String, to: String, count: u32, ghost steps: nat, index: int,
                       ghost all: (Bytes, nat))
      returns (count': u32, ghost steps': nat, index': int)
      requires from != this && to != this && Terminates(from.bytes, to.bytes)
      requires index >= 0 && index == FindFrom(bytes, from.bytes, 0)
      requires count == steps % U32_MODULUS
      requires all == (ReplaceAll(bytes, from.bytes, to.bytes).0, steps + ReplaceAll(bytes, from.bytes, to.bytes).1)
      modifies this
      ensures index' == FindFrom(bytes, from.bytes, 0)
      ensures all == (ReplaceAll(bytes, from.bytes, to.bytes).0, steps' + ReplaceAll(bytes, from.bytes, to.bytes).1)
      ensures Progress(bytes, from.bytes, to.bytes) < Progress(old(bytes), from.bytes, to.bytes)
      ensures count' == steps' % U32_MODULUS && steps' == steps + 1 && Valid()
    {
      ReplaceOnce(from, to, index, all, steps);
      Recount();
      ModSucc(steps, count);
      count' := (count + 1) % U32_MODULUS;
      steps' := steps + 1;
      index' := FindFrom(bytes, from.bytes, 0);  // Find(from)
    }

    /** `*this = str0 + to + str1` around the occurrence of `from` at index: the bytes of one
        step of ReplaceAll. */
    method ReplaceOnce(from: String, to: String, index: int, ghost all: (Bytes, nat), ghost n: nat)
      requires from != this && to != this && Terminates(from.bytes, to.bytes)
      requires index >= 0 && index == FindFrom(bytes, from.bytes, 0)
      requires all == (ReplaceAll(bytes, from.bytes, to.bytes).0, n + ReplaceAll(bytes, from.bytes, to.bytes).1)
      modifies this
      ensures all == (ReplaceAll(bytes, from.bytes, to.bytes).0, n + 1 + ReplaceAll(bytes, from.bytes, to.bytes).1)
      ensures Progress(bytes, from.bytes, to.bytes) < Progress(old(bytes), from.bytes, to.bytes)
      ensures length == old(length)
    {
      ghost var s0, f, t := bytes, from.bytes, to.bytes;
      var str0 := bytes[..index];
      var str1 := bytes[index + |from.bytes|..];
      bytes := str0 + to.bytes + str1;
      ReplaceAtProgress(s0, f, t, index);
      ReplaceAllAt(s0, f, t, index, bytes, all, n);
    }

    /** The length the assignment of a new string recounts. */
    method Recount()
      modifies this
      ensures bytes == old(bytes) && Valid()
    {
      length := CountOf(bytes);
    }

    /** Remove every occurrence of the encoding of cp; nothing when cp cannot be encoded or is
        NUL (which a NUL-terminated view never shows). */
    method Remove(cp: u32) returns (count: u32)
      modifies this
      ensures !Utf8.IsScalar(cp) || cp == 0 ==> count == 0 && bytes == old(bytes) && length == old(length)
      ensures Utf8.IsScalar(cp) && cp != 0 ==>
        var r := ReplaceAll(old(bytes), Utf8.EncodeScalar(cp), []);
        bytes == r.0 && count == r.1 % U32_MODULUS && !Occurs(bytes, Utf8.EncodeScalar(cp))
      ensures 0 < cp < 0x80 ==>
        bytes == Substitute(old(bytes), cp, []) && count == multiset(old(bytes))[cp] % U32_MODULUS
      ensures old(Valid()) ==> Valid()
    {
      var encoded := Utf8.Encode(cp);
      if encoded.None? || cp == 0 {
        return 0;
      }
      Utf8.NoNulInEncodeText([cp]);
      assert Utf8.EncodeText([cp]) == encoded.value;
      UpToNulOfNulFree(encoded.value);
      var from := new String(UpToNul(encoded.value));
      var to := new String([]);
      if cp < 0x80 {
        ReplaceByte(bytes, cp, []);
      }
      count := Replace(from, to);
    }

    /** The calls ForEach makes: each codepoint with its index (a u32), in order, up to the first
        NUL or malformed sequence. */
    method ForEach() returns (calls: seq<(u32, u32)>)
      ensures |calls| == Utf8.Length(bytes)
      ensures forall i :: 0 <= i < |calls| ==> calls[i] == (Utf8.Codepoints(bytes)[i], i % U32_MODULUS)
    {
      calls := Traverse(bytes + [0]);
    }
  }

  /** Incrementing a u32 counter of n steps gives the counter of n + 1 steps. */
  lemma ModSucc(n: nat, k: int)
    requires k == n % U32_MODULUS
    ensures (k + 1) % U32_MODULUS == (n + 1) % U32_MODULUS
  {
  }

  /** Each codepoint with its index, as u32. */
  function Numbered(cps: seq<u32>): (r: seq<(u32, u32)>)
    ensures |r| == |cps| && forall i :: 0 <= i < |cps| ==> r[i] == (cps[i], i % U32_MODULUS)
  {
    seq(|cps|, i requires 0 <= i < |cps| => (cps[i], i % U32_MODULUS))
  }

  lemma NumberedSnoc(cps: seq<u32>, cp: u32)
    ensures Numbered(cps + [cp]) == Numbered(cps) + [(cp, |cps| % U32_MODULUS)]
  {
  }

  /** The loop of ForEach over NUL-terminated bytes c. */
  method Traverse(c: Bytes) returns (calls: seq<(u32, u32)>)
    ensures calls == Numbered(Utf8.Scan(c, 0))
  {
    ghost var done: seq<u32> := [];
    calls := [];
    var index: u32 := 0;
    var offset: nat := 0;
    var d := Utf8.DecodeAt(c, offset);
    while d.Some? && d.value.0 != 0
      invariant offset <= |c| && d == Utf8.DecodeAt(c, offset)
      invariant Utf8.Scan(c, 0) == done + Utf8.Scan(c, offset)
      invariant calls == Numbered(done) && index == |done| % U32_MODULUS
      decreases |c| - offset
    {
      offset, done, calls, index := TraverseStep(c, offset, done, calls, index);
      d := Utf8.DecodeAt(c, offset);
    }
    Utf8.ScanStop(c, offset);
  }

  /** One iteration of the ForEach loop: call back with the decoded codepoint, move past it. */
  method TraverseStep(c: Bytes, offset: nat, ghost done: seq<u32>, calls: seq<(u32, u32)>, index: u32)
    returns (offset': nat, ghost done': seq<u32>, calls': seq<(u32, u32)>, index': u32)
    requires Utf8.DecodeAt(c, offset).Some? && Utf8.DecodeAt(c, offset).value.0 != 0
    requires Utf8.Scan(c, 0) == done + Utf8.Scan(c, offset)
    requires calls == Numbered(done) && index == |done| % U32_MODULUS
    ensures offset < offset' <= |c|
    ensures Utf8.Scan(c, 0) == done' + Utf8.Scan(c, offset')
    ensures calls' == Numbered(done') && index' == |done'| % U32_MODULUS
  {
    var d := Utf8.DecodeAt(c, offset);
    var cp, width := d.value.0, d.value.1;
    Utf8.ScanStep(c, offset);
    NumberedSnoc(done, cp);
    ModSucc(|done|, index);
    calls' := calls + [(cp, index)];
    done' := done + [cp];
    offset' := offset + width;
    index' := (index + 1) % U32_MODULUS;
  }

  /** operator+(String, String): a new string of both byte strings, its length counted afresh. */
  method Plus(a: String, b: String) returns (r: String)
    ensures fresh(r) && r.bytes == a.bytes + b.bytes && r.Valid()
    ensures a.Valid() && b.Valid() && Utf8.IsWellFormed(a.bytes) && Utf8.IsWellFormed(b.bytes)
      ==> r.length == (a.length + b.length) % U32_MODULUS
  {
    if a.Valid() && b.Valid() && Utf8.IsWellFormed(a.bytes) && Utf8.IsWellFormed(b.bytes) {
      ConcatCount(a.bytes, b.bytes);
    }
    r := new String(a.bytes + b.bytes);
  }

  /** What std::hash sees: the NUL-terminated view of the bytes, which for a well-formed string
      is all of them. */
  function HashedBytes(s: String): (r: Bytes)
    reads s
    ensures Utf8.IsWellFormed(s.bytes) ==> r == s.bytes
  {
    if Utf8.IsWellFormed(s.bytes) then
      Utf8.NoNulInEncodeText(Utf8.Codepoints(s.bytes));
      UpToNulOfNulFree(s.bytes);
      UpToNul(s.bytes)
    else UpToNul(s.bytes)
  }

  /** operator==: byte equality, so equal strings hash alike and, when cached lengths are up to
      date, have the same length. */
  function Equals(a: String, b: String): (r: bool)
    reads a, b
    ensures r ==> HashedBytes(a) == HashedBytes(b)
    ensures r && a.Valid() && b.Valid() ==> a.Length() == b.Length()
  {
    a.bytes == b.bytes
  }

  /** operator!=: the negation of operator==. */
  function NotEquals(a: String, b: String): (r: bool)
    reads a, b
    ensures r == !Equals(a, b)
  {
    a.bytes != b.bytes
  }
}
