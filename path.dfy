/** alflib::Path: a String holding a file-system path with '/' separators (the non-Windows build),
    and the text operations on it: normalisation, joining, splitting into components and taking
    the name and extension apart. */
module Paths {
  import opened Common
  import Math
  import Utf8
  import Strings

  const SLASH: u8 := 0x2F
  const BACKSLASH: u8 := 0x5C
  const DOT: u8 := 0x2E

  /** Path::CURRENT and Path::PARENT. */
  const CURRENT: Bytes := [DOT]
  const PARENT: Bytes := [DOT, DOT]

  /** Both separators are recognised when reading a path. */
  predicate IsSeparator(cp: u32) {
    cp == SLASH as u32 || cp == BACKSLASH as u32
  }

  // ---------------------------------------------------------------------------------------------
  // Normalisation (the constructor and FixSeparators)

  /** What the constructor makes of well-formed bytes: every '\' becomes '/', then one trailing
      '/' is dropped. */
  function Normalize(b: Bytes): Bytes {
    var s := Strings.Substitute(b, BACKSLASH, [SLASH]);
    if |s| > 0 && s[|s| - 1] == SLASH then s[..|s| - 1] else s
  }

  /** '\' read as '/'. */
  function FixCodepoint(cp: u32): u32 {
    if cp == BACKSLASH as u32 then SLASH as u32 else cp
  }

  function FixAll(cps: seq<u32>): (r: seq<u32>)
    ensures |r| == |cps| && forall i :: 0 <= i < |cps| ==> r[i] == FixCodepoint(cps[i])
  {
    if cps == [] then [] else [FixCodepoint(cps[0])] + FixAll(cps[1..])
  }

  /** Replacing the byte '\' in an encoding replaces the codepoint '\': bytes of longer encodings
      are all at least 0x80. */
  lemma SubstituteScalar(cp: u32)
    requires cp != 0 && Utf8.IsScalar(cp)
    ensures Strings.Substitute(Utf8.EncodeScalar(cp), BACKSLASH, [SLASH]) == Utf8.EncodeScalar(FixCodepoint(cp))
  {
    var e := Utf8.EncodeScalar(cp);
    if cp >= 0x80 {
      assert forall i :: 0 <= i < |e| ==> e[i] >= 0x80;
      assert BACKSLASH !in e;
      Strings.SubstituteFixes(e, BACKSLASH, [SLASH]);
    } else {
      assert e == [cp as u8];
      assert Strings.Substitute(e, BACKSLASH, [SLASH]) == (if cp == BACKSLASH as u32 then [SLASH] else e) + [];
    }
  }

  /** FixSeparators on well-formed bytes gives the encoding of the text with '\' read as '/'. */
  lemma {:induction false} SubstituteText(cps: seq<u32>)
    requires Utf8.IsText(cps)
    ensures Utf8.IsText(FixAll(cps))
    ensures Strings.Substitute(Utf8.EncodeText(cps), BACKSLASH, [SLASH]) == Utf8.EncodeText(FixAll(cps))
  {
    if cps != [] {
      SubstituteText(cps[1..]);
      SubstituteScalar(cps[0]);
      Strings.SubstituteAppend(Utf8.EncodeScalar(cps[0]), Utf8.EncodeText(cps[1..]), BACKSLASH, [SLASH]);
      assert FixAll(cps)[1..] == FixAll(cps[1..]);
    }
  }

  /** After FixSeparators a well-formed string is still well-formed and holds no '\'. */
  lemma FixedIsText(b: Bytes)
    requires Utf8.IsWellFormed(b)
    ensures var s := Strings.Substitute(b, BACKSLASH, [SLASH]);
      Utf8.IsWellFormed(s) && |s| == |b| && BACKSLASH !in s
      && Utf8.Codepoints(s) == FixAll(Utf8.Codepoints(b))
  {
    var cps := Utf8.Codepoints(b);
    SubstituteText(cps);
    Utf8.CodepointsOfEncodeText(FixAll(cps));
    SubstituteLength(b);
  }

  lemma {:induction false} SubstituteLength(b: Bytes)
    ensures var s := Strings.Substitute(b, BACKSLASH, [SLASH]); |s| == |b| && BACKSLASH !in s
  {
    if b != [] {
      SubstituteLength(b[1..]);
    }
  }

  /** Normalize in terms of the bytes FixSeparators leaves. */
  lemma NormalizeUnfold(b: Bytes, s: Bytes)
    requires s == Strings.Substitute(b, BACKSLASH, [SLASH])
    ensures Normalize(b) == if EndsWithSlash(s) then DropLast(s) else s
  {
  }

  /** A normalised path holds no '\', and it is one byte shorter exactly when the separators'
      replacement ends with '/'. */
  lemma NormalizeFacts(b: Bytes)
    ensures BACKSLASH !in Normalize(b)
    ensures var s := Strings.Substitute(b, BACKSLASH, [SLASH]);
      |Normalize(b)| == (if |b| > 0 && s[|s| - 1] == SLASH then |b| - 1 else |b|)
  {
    SubstituteLength(b);
  }

  // ---------------------------------------------------------------------------------------------
  // Components

  /** The runs of codepoints between separators, in order. */
  function Split(cps: seq<u32>): (r: seq<seq<u32>>)
    ensures |r| >= 1
    decreases |cps|
  {
    if cps == [] then [[]] else Extend(Split(cps[..|cps| - 1]), cps[|cps| - 1])
  }

  /** The components after one more codepoint: a separator opens a new, empty component, anything
      else extends the last one. */
  function Extend(init: seq<seq<u32>>, c: u32): (r: seq<seq<u32>>)
    requires |init| >= 1
    ensures |r| >= 1
  {
    if IsSeparator(c) then init + [[]] else init[..|init| - 1] + [init[|init| - 1] + [c]]
  }

  /** The separators of a path, in order. */
  function Separators(cps: seq<u32>): (r: seq<u32>)
    decreases |cps|
  {
    if cps == [] then []
    else
      var init := Separators(cps[..|cps| - 1]);
      if IsSeparator(cps[|cps| - 1]) then init + [cps[|cps| - 1]] else init
  }

  /** c[0] + s[0] + c[1] + ... + s[n-1] + c[n]. */
  function Interleave(comps: seq<seq<u32>>, seps: seq<u32>): seq<u32>
    requires |comps| == |seps| + 1
    decreases |seps|
  {
    if seps == [] then comps[0]
    else Interleave(comps[..|comps| - 1], seps[..|seps| - 1]) + [seps[|seps| - 1]] + comps[|comps| - 1]
  }

  /** There is one more component than there are separators. */
  lemma {:induction false} SplitCount(cps: seq<u32>)
    ensures |Split(cps)| == |Separators(cps)| + 1
    decreases |cps|
  {
    if cps != [] {
      SplitCount(cps[..|cps| - 1]);
    }
  }

  /** No component holds a separator. */
  lemma {:induction false} SplitHasNoSeparator(cps: seq<u32>)
    ensures forall i, j :: 0 <= i < |Split(cps)| && 0 <= j < |Split(cps)[i]| ==> !IsSeparator(Split(cps)[i][j])
    decreases |cps|
  {
    if cps != [] {
      SplitHasNoSeparator(cps[..|cps| - 1]);
    }
  }

  lemma InterleaveExtendLast(comps: seq<seq<u32>>, seps: seq<u32>, c: u32)
    requires |comps| == |seps| + 1
    ensures var n := |comps|;
      Interleave(comps[..n - 1] + [comps[n - 1] + [c]], seps) == Interleave(comps, seps) + [c]
  {
    var n := |comps|;
    var comps' := comps[..n - 1] + [comps[n - 1] + [c]];
    if seps != [] {
      assert comps'[..n - 1] == comps[..n - 1];
    }
  }

  /** Interleaving the components with the separators rebuilds the path. */
  lemma {:induction false} SplitRebuilds(cps: seq<u32>)
    ensures |Split(cps)| == |Separators(cps)| + 1
    ensures Interleave(Split(cps), Separators(cps)) == cps
    decreases |cps|
  {
    SplitCount(cps);
    if cps != [] {
      var p, c := cps[..|cps| - 1], cps[|cps| - 1];
      SplitRebuilds(p);
      SplitCount(p);
      var init, seps := Split(p), Separators(p);
      if IsSeparator(c) {
        assert (init + [[]])[..|init|] == init;
        assert (seps + [c])[..|seps|] == seps;
      } else {
        InterleaveExtendLast(init, seps, c);
      }
      assert p + [c] == cps;
    }
  }

  /** Joining with one separator concatenates the components. */
  lemma {:induction false} SplitJoin(a: seq<u32>, b: seq<u32>)
    ensures Split(a + [SLASH as u32] + b) == Split(a) + Split(b)
    decreases |b|
  {
    var j := a + [SLASH as u32];
    if b == [] {
      SplitSnoc(a, SLASH as u32);
      assert j + b == j;
      assert Split(b) == [[]];
    } else {
      var p, c := b[..|b| - 1], b[|b| - 1];
      SplitJoin(a, p);
      assert b == p + [c];
      assert j + b == (j + p) + [c];
      SplitJoinStep(Split(a), Split(p), j + p, p, c);
    }
  }

  /** The step of SplitJoin: one more codepoint after the join point. */
  lemma SplitJoinStep(sa: seq<seq<u32>>, sp: seq<seq<u32>>, x: seq<u32>, p: seq<u32>, c: u32)
    requires Split(x) == sa + sp && Split(p) == sp
    ensures Split(x + [c]) == sa + Split(p + [c])
  {
    SplitSnoc(x, c);
    SplitSnoc(p, c);
    ExtendAppend(sa, sp, c);
  }

  /** Extending a concatenation extends its second part. */
  lemma ExtendAppend(sa: seq<seq<u32>>, sp: seq<seq<u32>>, c: u32)
    requires |sp| >= 1
    ensures Extend(sa + sp, c) == sa + Extend(sp, c)
  {
    var init := sa + sp;
    if !IsSeparator(c) {
      var last := sp[|sp| - 1] + [c];
      assert init[..|init| - 1] == sa + sp[..|sp| - 1];
      assert init[|init| - 1] + [c] == last;
    }
  }

  /** Split of a path one codepoint longer: a separator opens a new, empty component, anything
      else extends the last one. */
  lemma SplitSnoc(p: seq<u32>, c: u32)
    ensures Split(p + [c]) == Extend(Split(p), c)
  {
    assert (p + [c])[..|p|] == p;
  }

  /** The codepoints of a path after its last separator: the last component. */
  function LastComponent(cps: seq<u32>): (r: seq<u32>)
  {
    Split(cps)[|Split(cps)| - 1]
  }

  /** The last component is a separator-free suffix of the path, right after its last separator. */
  lemma LastComponentIsSuffix(cps: seq<u32>)
    ensures var r := LastComponent(cps);
      |r| <= |cps| && cps[|cps| - |r|..] == r
      && (forall j :: 0 <= j < |r| ==> !IsSeparator(r[j]))
      && (|r| < |cps| ==> IsSeparator(cps[|cps| - |r| - 1]))
  {
    SplitRebuilds(cps);
    SplitHasNoSeparator(cps);
    var comps, seps := Split(cps), Separators(cps);
    var r := comps[|comps| - 1];
    assert forall j :: 0 <= j < |r| ==> !IsSeparator(r[j]);
    if seps != [] {
      var front := Interleave(comps[..|comps| - 1], seps[..|seps| - 1]);
      assert cps == front + [seps[|seps| - 1]] + r;
      SeparatorsAreSeparators(cps);
      assert IsSeparator(seps[|seps| - 1]);
      assert cps[|cps| - |r|..] == r;
    } else {
      assert cps == comps[0];
    }
  }

  lemma {:induction false} SeparatorsAreSeparators(cps: seq<u32>)
    ensures forall i :: 0 <= i < |Separators(cps)| ==> IsSeparator(Separators(cps)[i])
    decreases |cps|
  {
    if cps != [] {
      SeparatorsAreSeparators(cps[..|cps| - 1]);
    }
  }

  /** The extension a path's name carries: from the last '.' of its last component, provided
      something follows that '.'. */
  function IntendedExtension(cps: seq<u32>): (r: seq<u32>)
    ensures r == [] || (r[0] == DOT as u32 && |r| >= 2)
    ensures |r| <= |LastComponent(cps)| <= |cps|
    ensures r != [] ==> exists k :: 0 <= k <= |LastComponent(cps)| && LastComponent(cps)[k..] == r
  {
    var name := LastComponent(cps);
    LastComponentIsSuffix(cps);
    var dot := Utf8.LastIndex(name, DOT as u32);
    if dot == -1 || dot == |name| - 1 then [] else name[dot..]
  }

  // ---------------------------------------------------------------------------------------------

  datatype Extension = NoExtension | Txt | Png | Tar | Zip | UnknownExtension

  /** ".txt", ".png", ".tar", ".zip". */
  const TXT: Bytes := [DOT, 0x74, 0x78, 0x74]
  const PNG: Bytes := [DOT, 0x70, 0x6E, 0x67]
  const TAR: Bytes := [DOT, 0x74, 0x61, 0x72]
  const ZIP: Bytes := [DOT, 0x7A, 0x69, 0x70]

  /** Bytes that a path's constructor keeps exactly: a well-formed string whose cached length is
      up to date, shorter than 2^32 bytes. */
  ghost predicate Good(s: Strings.String)
    reads s
  {
    s.Valid() && Utf8.IsWellFormed(s.bytes) && |s.bytes| < U32_MODULUS
  }

  class Path {
    /** mPath. */
    const str: Strings.String

    /** Path(const String&): the string copied, separators fixed, one trailing separator removed. */
    constructor (path: Strings.String)
      ensures fresh(str)
      ensures Good(path) ==> str.bytes == Normalize(path.bytes) && Good(str)
    {
      str := new Strings.String.Copy(path);
      new;
      ghost var good, b := Good(path), path.bytes;
      FixSeparators();
      ghost var s := str.bytes;
      NormalizeUnfold(b, s);
      if good {
        FixedIsText(b);
      }
      TrimSeparator();
    }

    /** The constructor's last step: drop one trailing separator, through Substring and the cached
        length. */
    method TrimSeparator()
      modifies str
      ensures old(Good(str)) && BACKSLASH !in old(str.bytes) ==>
        str.bytes == (if EndsWithSlash(old(str.bytes)) then DropLast(old(str.bytes)) else old(str.bytes)) && Good(str)
    {
      ghost var good, s := Good(str) && BACKSLASH !in str.bytes, str.bytes;
      if good {
        DropTrailing(str);
      }
      if str.EndsWith(BACKSLASH as u32) || str.EndsWith(SLASH as u32) {
        var sub := str.Substring(0, (str.length - 1) % U32_MODULUS);
        if good {
          TrailingSubstring(str, sub);
        }
        var t := new Strings.String(sub);
        str.Assign(t);
      } else {
        assert good ==> !EndsWithSlash(s);
      }
    }

    /** The copy constructor: a path with its own copy of the string. */
    constructor Copy(other: Path)
      ensures fresh(str) && str.bytes == other.str.bytes && str.length == other.str.length
    {
      str := new Strings.String.Copy(other.str);
    }

    /** Replace every '\' by '/'. */
    method FixSeparators()
      modifies str
      ensures str.bytes == Strings.Substitute(old(str.bytes), BACKSLASH, [SLASH])
      ensures old(str.Valid()) ==> str.Valid()
    {
      var from := new Strings.String([BACKSLASH]);
      var to := new Strings.String([SLASH]);
      Strings.ReplaceByte(str.bytes, BACKSLASH, [SLASH]);
      var _ := str.Replace(from, to);
    }

    /** Append `other`, with a '/' in between unless `other` starts with a separator; the
        result is not normalised again. */
    method Join(other: Path)
      modifies str
      ensures var sep := if old(other.str.StartsWith(BACKSLASH as u32) || other.str.StartsWith(SLASH as u32))
                         then [] else [SLASH];
        str.bytes == old(str.bytes) + sep + (if other.str == str then old(str.bytes) + sep else old(other.str.bytes))
      ensures old(Good(str) && Good(other.str)) && |str.bytes| < U32_MODULUS ==> Good(str)
    {
      if !other.str.StartsWith(BACKSLASH as u32) && !other.str.StartsWith(SLASH as u32) {
        var s := new Strings.String.FromCodepoint(SLASH as u32);
        Utf8.CodepointsOfEncodeText([SLASH as u32]);
        assert Utf8.EncodeText([SLASH as u32]) == s.bytes;
        str.Append(s);
      }
      str.Append(other.str);
    }

    /** A joined copy; this path is left as it was. */
    method Joined(other: Path) returns (p: Path)
      ensures fresh(p) && fresh(p.str)
      ensures var sep := if other.str.StartsWith(BACKSLASH as u32) || other.str.StartsWith(SLASH as u32)
                         then [] else [SLASH];
        p.str.bytes == str.bytes + sep + other.str.bytes
      ensures Good(str) && Good(other.str) && |p.str.bytes| < U32_MODULUS ==> Good(p.str)
    {
      p := new Path.Copy(this);
      p.Join(other);
    }

    /** The components between separators, each as the bytes Substring returns: as many as there
        are separators plus one, none holding a separator. */
    method GetComponents() returns (comps: seq<Bytes>)
      ensures var cps := Utf8.Codepoints(str.bytes);
        |cps| < U32_MODULUS ==>
          |comps| == |Split(cps)| && forall i :: 0 <= i < |comps| ==> Utf8.Codepoints(comps[i]) == Split(cps)[i]
    {
      var calls := str.ForEach();
      ghost var cps := Utf8.Codepoints(str.bytes);
      ghost var small := |cps| < U32_MODULUS;
      comps := [];
      var prevIndex: u32 := 0;
      var k := 0;
      while k < |calls|
        invariant k <= |calls| == |cps|
        invariant small ==> ComponentsSoFar(cps, k, comps, prevIndex)
      {
        comps, prevIndex := ComponentStep(str, cps, calls[k].0, calls[k].1, k, comps, prevIndex);
        k := k + 1;
      }
      if small {
        LastComponentRest(str, comps, prevIndex);
      }
      comps := comps + [str.Substring(prevIndex, Strings.U64_MAX)];
    }

    /** GetName as written: from the last separator, inclusive, up to the last '.' when that comes
        after it, and otherwise to the end; empty when there is no separator. */
    function GetName(): (r: Bytes)
      reads this, str
      ensures var cps := Utf8.Codepoints(str.bytes);
        var sep := Math.Max(Utf8.LastIndex(cps, SLASH as u32), Utf8.LastIndex(cps, BACKSLASH as u32));
        var dot := Utf8.LastIndex(cps, DOT as u32);
        (sep == -1 ==> r == [])
        && (sep != -1 && |cps| < U32_MODULUS ==> Utf8.Codepoints(r) == cps[sep..if sep < dot then dot else |cps|])
    {
      var sepIndex := Math.Max(str.LastIndexOf(SLASH as u32), str.LastIndexOf(BACKSLASH as u32));
      var dotIndex := str.LastIndexOf(DOT as u32);
      if sepIndex == -1 then []
      else
        NameSubstring(str, sepIndex, dotIndex);
        if dotIndex == -1 then str.Substring(sepIndex % U64_MODULUS, Strings.U64_MAX)
        else str.Substring(sepIndex % U64_MODULUS, (dotIndex - sepIndex) % U64_MODULUS)
    }

    /** GetExtensionString as written: "" when there is no '.', otherwise everything from the
        last '.' on, wherever that '.' is. */
    function GetExtensionString(): (r: Bytes)
      reads this, str
      ensures var cps := Utf8.Codepoints(str.bytes);
        |cps| < U32_MODULUS ==>
        (r == [] <==> DOT as u32 !in cps)
        && (DOT as u32 in cps ==> Utf8.Codepoints(r) == cps[Utf8.LastIndex(cps, DOT as u32)..])
    {
      var index := str.LastIndexOf(DOT as u32);
      ExtensionSubstring(str, index);
      if index == -1 then [] else str.Substring(index % U64_MODULUS, Strings.U64_MAX)
    }

    /** GetName as evidently intended (the tests expect "file.txt" of "path/to/file.txt"): the
        last component, from just after the last separator, or the whole path when there is none. */
    function NameIntended(): (r: Bytes)
      reads this, str
      ensures var cps := Utf8.Codepoints(str.bytes);
        |cps| < U32_MODULUS ==> Utf8.Codepoints(r) == LastComponent(cps)
    {
      var sepIndex := Math.Max(str.LastIndexOf(SLASH as u32), str.LastIndexOf(BACKSLASH as u32));
      LastComponentAfterLastSeparator(Utf8.Codepoints(str.bytes));
      RestSubstring(str, sepIndex + 1);
      str.Substring((sepIndex + 1) % U64_MODULUS, Strings.U64_MAX)
    }

    /** GetExtensionString as evidently intended (the tests expect "" of "file." and of
        "path/to/.hidden/file"): from the last '.' of the name, when something follows it. */
    function ExtensionIntended(): (r: Bytes)
      reads this, str
      ensures var cps := Utf8.Codepoints(str.bytes);
        |cps| < U32_MODULUS ==> Utf8.Codepoints(r) == IntendedExtension(cps) && (r == [] <==> IntendedExtension(cps) == [])
    {
      var name := NameIntended();
      var ncps := Utf8.Codepoints(name);
      var dot := Utf8.LastIndex(ncps, DOT as u32);
      NonEmptyText(ncps[if dot < 0 then 0 else dot..]);
      if dot == -1 || dot == |ncps| - 1 then [] else Utf8.SubstringFrom(name, dot)
    }

    /** The extension named by the extension string: none when it is empty, one of the four known
        ones when it is exactly that, unknown otherwise. */
    function GetExtension(): (e: Extension)
      reads this, str
      ensures Utf8.Length(str.bytes) < U32_MODULUS ==>
        (e == NoExtension <==> IntendedExtension(Utf8.Codepoints(str.bytes)) == [])
      ensures e == Txt <==> ExtensionIntended() == TXT
      ensures e == Png <==> ExtensionIntended() == PNG
      ensures e == Tar <==> ExtensionIntended() == TAR
      ensures e == Zip <==> ExtensionIntended() == ZIP
    {
      var ext := ExtensionIntended();
      ExtensionCount(ext);
      Classify(ext)
    }

    /** GetExtension as written, on the as-written extension string: for "file." it compares "."
        and so names an unknown extension. */
    function GetExtensionAsWritten(): (e: Extension)
      reads this, str
      ensures Utf8.Length(str.bytes) < U32_MODULUS ==>
        (e == NoExtension <==> DOT as u32 !in Utf8.Codepoints(str.bytes))
      ensures e == Txt <==> GetExtensionString() == TXT
      ensures e == Png <==> GetExtensionString() == PNG
      ensures e == Tar <==> GetExtensionString() == TAR
      ensures e == Zip <==> GetExtensionString() == ZIP
    {
      var ext := GetExtensionString();
      ExtensionCount(ext);
      Classify(ext)
    }
  }

  /** The extension an extension string names: none when it holds no codepoint, one of the four
      known ones when it is exactly that, unknown otherwise. */
  function Classify(ext: Bytes): (e: Extension)
    ensures e == NoExtension <==> Strings.CountOf(ext) == 0
    ensures e == Txt <==> ext == TXT
    ensures e == Png <==> ext == PNG
    ensures e == Tar <==> ext == TAR
    ensures e == Zip <==> ext == ZIP
  {
    KnownExtensionsCount();
    if Strings.CountOf(ext) == 0 then NoExtension
    else if ext == TXT then Txt
    else if ext == PNG then Png
    else if ext == TAR then Tar
    else if ext == ZIP then Zip
    else UnknownExtension
  }

  /** After the codepoints before k: comps are the finished components, and the current one runs
      from prevIndex to k. */
  ghost predicate ComponentsSoFar(cps: seq<u32>, k: nat, comps: seq<Bytes>, prevIndex: nat)
  {
    k <= |cps| && prevIndex <= k
    && |comps| + 1 == |Split(cps[..k])|
    && (forall i :: 0 <= i < |comps| ==> Utf8.Codepoints(comps[i]) == Split(cps[..k])[i])
    && Split(cps[..k])[|comps|] == cps[prevIndex..k]
  }

  lemma SplitStepSeparator(cps: seq<u32>, k: nat, comps: seq<Bytes>, prevIndex: nat)
    requires ComponentsSoFar(cps, k, comps, prevIndex) && k < |cps| && IsSeparator(cps[k])
    ensures forall b: Bytes :: Utf8.Codepoints(b) == cps[prevIndex..k] ==> ComponentsSoFar(cps, k + 1, comps + [b], k + 1)
  {
    assert cps[..k + 1][..k] == cps[..k];
  }

  lemma SplitStepOther(cps: seq<u32>, k: nat, comps: seq<Bytes>, prevIndex: nat)
    requires ComponentsSoFar(cps, k, comps, prevIndex) && k < |cps| && !IsSeparator(cps[k])
    ensures ComponentsSoFar(cps, k + 1, comps, prevIndex)
  {
    assert cps[..k + 1][..k] == cps[..k];
    assert cps[prevIndex..k + 1] == cps[prevIndex..k] + [cps[k]];
  }

  /** The body of GetComponents' loop, for the k-th codepoint cp at index: a separator closes the
      component so far and starts the next one after it. */
  method ComponentStep(s: Strings.String, ghost cps: seq<u32>, cp: u32, index: u32, ghost k: nat,
                       comps: seq<Bytes>, prevIndex: u32)
    returns (comps': seq<Bytes>, prevIndex': u32)
    requires cps == Utf8.Codepoints(s.bytes)
    requires |cps| < U32_MODULUS ==>
      ComponentsSoFar(cps, k, comps, prevIndex) && k < |cps| && cp == cps[k] && index == k % U32_MODULUS
    ensures |cps| < U32_MODULUS ==> ComponentsSoFar(cps, k + 1, comps', prevIndex')
  {
    comps', prevIndex' := comps, prevIndex;
    if cp == SLASH as u32 || cp == BACKSLASH as u32 {
      if |cps| < U32_MODULUS {
        assert index == k;
        ComponentAtSeparator(s, k, index, comps, prevIndex);
      }
      comps' := comps + [s.Substring(prevIndex, (index - prevIndex) % U32_MODULUS)];
      prevIndex' := (index + 1) % U32_MODULUS;
    } else if |cps| < U32_MODULUS {
      SplitStepOther(cps, k, comps, prevIndex);
    }
  }

  /** At a separator the component so far is finished: the substring from prevIndex, counted in
      u32 arithmetic, holds exactly its codepoints. */
  lemma ComponentAtSeparator(s: Strings.String, k: nat, index: u32, comps: seq<Bytes>, prevIndex: u32)
    requires var cps := Utf8.Codepoints(s.bytes);
      |cps| < U32_MODULUS && ComponentsSoFar(cps, k, comps, prevIndex) && k < |cps| && IsSeparator(cps[k])
    requires index == k
    ensures ComponentsSoFar(Utf8.Codepoints(s.bytes), k + 1,
      comps + [s.Substring(prevIndex, (index - prevIndex) % U32_MODULUS)], (index + 1) % U32_MODULUS)
  {
    var cps := Utf8.Codepoints(s.bytes);
    assert (k + 1) % U32_MODULUS == k + 1;
    assert (k - prevIndex) % U32_MODULUS == k - prevIndex;
    var b := s.Substring(prevIndex, k - prevIndex);
    assert Utf8.Codepoints(b) == cps[prevIndex..k];
    SplitStepSeparator(cps, k, comps, prevIndex);
  }

  /** After the last codepoint the rest of the string from prevIndex is the last component. */
  lemma LastComponentRest(s: Strings.String, comps: seq<Bytes>, prevIndex: u32)
    requires var cps := Utf8.Codepoints(s.bytes); ComponentsSoFar(cps, |cps|, comps, prevIndex)
    ensures var cps := Utf8.Codepoints(s.bytes); var all := comps + [s.Substring(prevIndex, Strings.U64_MAX)];
      |all| == |Split(cps)| && forall i :: 0 <= i < |all| ==> Utf8.Codepoints(all[i]) == Split(cps)[i]
  {
    var cps := Utf8.Codepoints(s.bytes);
    assert cps[..|cps|] == cps;
  }

  predicate EndsWithSlash(c: Bytes) {
    |c| > 0 && c[|c| - 1] == SLASH
  }

  function DropLast(c: Bytes): Bytes
    requires c != []
  {
    c[..|c| - 1]
  }

  /** The substring dropping the last codepoint of a well-formed string that ends with '/' is the
      string without its last byte, and still well-formed. */
  lemma TrailingSlash(s: Bytes)
    requires Utf8.IsWellFormed(s) && |s| > 0 && s[|s| - 1] == SLASH
    ensures var n := Utf8.Length(s);
      n > 0 && Utf8.Substring(s, 0, n - 1) == s[..|s| - 1] && Utf8.IsWellFormed(s[..|s| - 1])
  {
    var cps := Utf8.Codepoints(s);
    assert cps != [];
    Utf8.LastAscii(cps);
    Utf8.CodepointsOfEncodeText(cps[..|cps| - 1]);
  }

  /** The constructor's last step on a string with its separators fixed: it ends with a separator
      exactly when its last byte is '/', and then the substring it keeps is the string without
      that byte. */
  lemma DropTrailing(s: Strings.String)
    requires Good(s) && BACKSLASH !in s.bytes
    ensures s.EndsWith(BACKSLASH as u32) || s.EndsWith(SLASH as u32) <==> EndsWithSlash(s.bytes)
  {
    var b := s.bytes;
    assert Utf8.EncodeScalar(BACKSLASH as u32) == [BACKSLASH];
    assert Utf8.EncodeScalar(SLASH as u32) == [SLASH];
    assert |b| > 0 ==> b[|b| - 1] != BACKSLASH;
    if |b| > 0 && b[|b| - 1] == SLASH {
      assert b[|b| - 1..] == [SLASH];
    }
  }

  /** ... and then the substring it keeps is the string without that byte. */
  lemma TrailingSubstring(s: Strings.String, sub: Bytes)
    requires Good(s) && EndsWithSlash(s.bytes)
    requires sub == s.Substring(0, (s.length - 1) % U32_MODULUS)
    ensures sub == DropLast(s.bytes) && Utf8.IsWellFormed(sub)
  {
    var n := Utf8.Length(s.bytes);
    CachedLength(s);
    TrailingSlash(s.bytes);
    SubstringPrefix(s, n - 1);
  }

  /** The cached length of a good string is its UTF-8 length. */
  lemma CachedLength(s: Strings.String)
    requires Good(s)
    ensures s.length == Utf8.Length(s.bytes) < U32_MODULUS
  {
  }

  /** A u32 count is never the u64 "to the end" marker. */
  lemma SubstringPrefix(s: Strings.String, count: int)
    requires 0 <= count < U32_MODULUS
    ensures s.Substring(0, count) == Utf8.Substring(s.bytes, 0, count)
  {
  }


  /** The substring GetName takes: up to the dot when the dot comes after the separator, and
      otherwise the whole rest of the string, through a u64 wrap-around of the count. */
  lemma NameSubstring(s: Strings.String, sep: int, dot: int)
    ensures var cps := Utf8.Codepoints(s.bytes);
      0 <= sep < |cps| < U32_MODULUS && -1 <= dot < |cps| && dot != sep ==>
        var r := if dot == -1 then s.Substring(sep % U64_MODULUS, Strings.U64_MAX)
                 else s.Substring(sep % U64_MODULUS, (dot - sep) % U64_MODULUS);
        Utf8.Codepoints(r) == cps[sep..if sep < dot then dot else |cps|]
  {
    var cps := Utf8.Codepoints(s.bytes);
    if 0 <= sep < |cps| < U32_MODULUS && -1 <= dot < |cps| && dot != sep {
      assert sep % U64_MODULUS == sep;
      var c := (dot - sep) % U64_MODULUS;
      if dot == -1 {
      } else if sep < dot {
        assert c == dot - sep;
      } else {
        assert c == dot - sep + U64_MODULUS;
        assert c == Strings.U64_MAX || c >= |cps| - sep;
      }
    }
  }

  /** The substring GetExtensionString takes: everything from the dot on, and never nothing. */
  lemma ExtensionSubstring(s: Strings.String, index: int)
    ensures var cps := Utf8.Codepoints(s.bytes);
      0 <= index < |cps| < U32_MODULUS ==>
        var r := s.Substring(index % U64_MODULUS, Strings.U64_MAX);
        Utf8.Codepoints(r) == cps[index..] && r != []
  {
    var cps := Utf8.Codepoints(s.bytes);
    if 0 <= index < |cps| < U32_MODULUS {
      assert index % U64_MODULUS == index;
      assert Utf8.Codepoints([]) == [] by {
        Utf8.ScanStop([0], 0);
      }
    }
  }

  /** The empty extension string, and only that, counts no codepoints, for any string shorter
      than 2^32 codepoints. */
  lemma ExtensionCount(ext: Bytes)
    ensures ext == [] ==> Strings.CountOf(ext) == 0
    ensures ext != [] && Utf8.Codepoints(ext) != [] && Utf8.Length(ext) < U32_MODULUS ==> Strings.CountOf(ext) != 0
  {
    Utf8.ScanStop([0], 0);
  }

  /** The encoding of a nonempty text is not empty. */
  lemma NonEmptyText(cps: seq<u32>)
    ensures Utf8.Codepoints([]) == []
    ensures Utf8.IsText(cps) && cps != [] ==> Utf8.EncodeText(cps) != []
  {
    Utf8.ScanStop([0], 0);
    if Utf8.IsText(cps) && cps != [] {
      assert |Utf8.EncodeScalar(cps[0])| >= 1;
    }
  }

  /** Substring from just after an index, to the end: the rest of the codepoints. */
  lemma RestSubstring(s: Strings.String, from: int)
    ensures var cps := Utf8.Codepoints(s.bytes);
      0 <= from <= |cps| < U32_MODULUS ==>
        Utf8.Codepoints(s.Substring(from % U64_MODULUS, Strings.U64_MAX)) == cps[from..]
  {
    var cps := Utf8.Codepoints(s.bytes);
    if 0 <= from <= |cps| < U32_MODULUS {
      assert from % U64_MODULUS == from;
    }
  }

  /** The last component starts right after the last separator of either kind. */
  lemma {:induction false} LastComponentAfterLastSeparator(cps: seq<u32>)
    ensures var sep := Math.Max(Utf8.LastIndex(cps, SLASH as u32), Utf8.LastIndex(cps, BACKSLASH as u32));
      -1 <= sep < |cps| && LastComponent(cps) == cps[sep + 1..]
  {
    var r := LastComponent(cps);
    var k := |cps| - |r|;
    LastComponentStart(cps, r, k);
    LastSeparatorAt(cps, k);
    assert cps[k..] == r;
  }

  /** The last component starts at k, with no separator from k on and one just before. */
  lemma LastComponentStart(cps: seq<u32>, r: seq<u32>, k: int)
    requires r == LastComponent(cps) && k == |cps| - |r|
    ensures 0 <= k <= |cps| && cps[k..] == r
    ensures forall j :: k <= j < |cps| ==> !IsSeparator(cps[j])
    ensures k > 0 ==> IsSeparator(cps[k - 1])
  {
    LastComponentIsSuffix(cps);
    forall j | k <= j < |cps| ensures !IsSeparator(cps[j]) {
      assert cps[j] == r[j - k];
    }
  }

  /** When nothing from k on is a separator and the codepoint before k is one, the last separator
      is at k - 1 (or there is none, when k is 0). */
  lemma LastSeparatorAt(cps: seq<u32>, k: int)
    requires 0 <= k <= |cps| && forall j :: k <= j < |cps| ==> !IsSeparator(cps[j])
    requires k > 0 ==> IsSeparator(cps[k - 1])
    ensures Math.Max(Utf8.LastIndex(cps, SLASH as u32), Utf8.LastIndex(cps, BACKSLASH as u32)) == k - 1
  {
    var slash, backslash := SLASH as u32, BACKSLASH as u32;
    if k == 0 {
      LastIndexBelow(cps, slash, 0);
      LastIndexBelow(cps, backslash, 0);
    } else if cps[k - 1] == slash {
      LastIndexAt(cps, slash, k - 1);
      LastIndexBelow(cps, backslash, k - 1);
    } else {
      LastIndexAt(cps, backslash, k - 1);
      LastIndexBelow(cps, slash, k - 1);
    }
  }

  /** No occurrence from k on: the last one, if any, is before k. */
  lemma LastIndexBelow(s: seq<u32>, x: u32, k: int)
    requires 0 <= k <= |s| && forall j :: k <= j < |s| ==> s[j] != x
    ensures Utf8.LastIndex(s, x) < k
  {
  }

  /** An occurrence with none after it is the last. */
  lemma LastIndexAt(s: seq<u32>, x: u32, i: int)
    requires 0 <= i < |s| && s[i] == x && forall j :: i < j < |s| ==> s[j] != x
    ensures Utf8.LastIndex(s, x) == i
  {
  }

  /** Each known extension is four ASCII codepoints. */
  lemma KnownExtensionsCount()
    ensures Strings.CountOf(TXT) == 4 && Strings.CountOf(PNG) == 4
    ensures Strings.CountOf(TAR) == 4 && Strings.CountOf(ZIP) == 4
  {
    AsciiCount(TXT);
    AsciiCount(PNG);
    AsciiCount(TAR);
    AsciiCount(ZIP);
  }

  /** NUL-free ASCII has one codepoint per byte. */
  lemma AsciiCount(b: Bytes)
    requires |b| < U32_MODULUS && forall i :: 0 <= i < |b| ==> 0 < b[i] < 0x80
    ensures Strings.CountOf(b) == |b|
  {
    Utf8.AsciiText(b);
  }

  /** operator+(const Path&, const String&): join with the path the string makes; a '/' goes
      between them unless the normalised string starts with one. */
  method PlusString(p: Path, s: Strings.String) returns (r: Path)
    ensures fresh(r)
    ensures Good(s) ==> var n := Normalize(s.bytes);
      r.str.bytes == p.str.bytes + (if StartsWithSlash(n) then [] else [SLASH]) + n
    ensures Good(p.str) && Good(s) && |r.str.bytes| < U32_MODULUS ==> Good(r.str)
  {
    ghost var good := Good(s);
    var q := new Path(s);
    if good {
      NormalizeFacts(s.bytes);
      LeadingSeparator(q.str);
    }
    r := p.Joined(q);
  }

  predicate StartsWithSlash(c: Bytes) {
    |c| > 0 && c[0] == SLASH
  }

  /** A string without '\' starts with a separator exactly when its first byte is '/'. */
  lemma LeadingSeparator(s: Strings.String)
    requires Good(s) && BACKSLASH !in s.bytes
    ensures s.StartsWith(BACKSLASH as u32) || s.StartsWith(SLASH as u32) <==> StartsWithSlash(s.bytes)
  {
    assert Utf8.EncodeScalar(SLASH as u32) == [SLASH];
    assert Utf8.EncodeScalar(BACKSLASH as u32) == [BACKSLASH];
    assert |s.bytes| > 0 ==> s.bytes[..1] == [s.bytes[0]];
  }

  /** operator==: the normalised strings are equal, so they hold the same codepoints. */
  function Equals(p0: Path, p1: Path): (r: bool)
    reads p0, p0.str, p1, p1.str
    ensures r ==> Utf8.Codepoints(p0.str.bytes) == Utf8.Codepoints(p1.str.bytes)
  {
    Strings.Equals(p0.str, p1.str)
  }

  /** Paths made from strings that differ only in the kind of separator are equal. */
  lemma SeparatorKindsEqual(p0: Path, p1: Path, s0: Bytes, s1: Bytes)
    requires p0.str.bytes == Normalize(s0) && p1.str.bytes == Normalize(s1)
    requires |s0| == |s1| && forall i :: 0 <= i < |s0| ==> FixByte(s0[i]) == FixByte(s1[i])
    ensures Equals(p0, p1)
  {
    SubstituteFixedBytes(s0);
    SubstituteFixedBytes(s1);
    assert Strings.Substitute(s0, BACKSLASH, [SLASH]) == Strings.Substitute(s1, BACKSLASH, [SLASH]);
  }

  /** '\' read as '/', byte-wise. */
  function FixByte(b: u8): u8 {
    if b == BACKSLASH then SLASH else b
  }

  /** operator!=: the negation of operator==. */
  function NotEquals(p0: Path, p1: Path): (r: bool)
    reads p0, p0.str, p1, p1.str
    ensures r == !Equals(p0, p1)
  {
    Strings.NotEquals(p0.str, p1.str)
  }

  // ---------------------------------------------------------------------------------------------
  // The cases of the path tests

  /** "./", "../", "this/is/a\path", "this\is\a\path" and "this/is/a/path". */
  const DOT_SLASH: Bytes := [DOT, SLASH]
  const DOT_DOT_SLASH: Bytes := [DOT, DOT, SLASH]
  const MIXED: Bytes := [0x74, 0x68, 0x69, 0x73, SLASH, 0x69, 0x73, SLASH, 0x61, BACKSLASH, 0x70, 0x61, 0x74, 0x68]
  const BACKSLASHED: Bytes := [0x74, 0x68, 0x69, 0x73, BACKSLASH, 0x69, 0x73, BACKSLASH, 0x61, BACKSLASH, 0x70, 0x61, 0x74, 0x68]
  const SLASHED: Bytes := [0x74, 0x68, 0x69, 0x73, SLASH, 0x69, 0x73, SLASH, 0x61, SLASH, 0x70, 0x61, 0x74, 0x68]

  /** A trailing separator goes, and both separator kinds end up as '/'. */
  lemma NormalizeExamples()
    ensures Normalize(DOT_SLASH) == CURRENT && Normalize(DOT_DOT_SLASH) == PARENT
    ensures Normalize(MIXED) == SLASHED && Normalize(BACKSLASHED) == SLASHED
  {
    NormalizeBytewise(DOT_SLASH, DOT_SLASH);
    NormalizeBytewise(DOT_DOT_SLASH, DOT_DOT_SLASH);
    NormalizeBytewise(MIXED, SLASHED);
    NormalizeBytewise(BACKSLASHED, SLASHED);
  }

  /** Normalize, given the path with every '\' replaced by '/'. */
  lemma NormalizeBytewise(b: Bytes, t: Bytes)
    requires |t| == |b| && forall i :: 0 <= i < |b| ==> t[i] == FixByte(b[i])
    ensures Normalize(b) == if EndsWithSlash(t) then DropLast(t) else t
  {
    SubstituteFixedBytes(b);
    var s := Strings.Substitute(b, BACKSLASH, [SLASH]);
    assert s == t;
    NormalizeUnfold(b, s);
  }

  /** FixSeparators byte by byte. */
  lemma {:induction false} SubstituteFixedBytes(b: Bytes)
    ensures var s := Strings.Substitute(b, BACKSLASH, [SLASH]);
      |s| == |b| && forall i :: 0 <= i < |b| ==> s[i] == FixByte(b[i])
  {
    if b != [] {
      SubstituteFixedBytes(b[1..]);
      var s := Strings.Substitute(b, BACKSLASH, [SLASH]);
      assert s == [FixByte(b[0])] + Strings.Substitute(b[1..], BACKSLASH, [SLASH]);
    }
  }

  /** "path/to/file.txt", "/file", "file.txt" and "file.". */
  const PATH_TO_FILE: Bytes := [0x70, 0x61, 0x74, 0x68, SLASH, 0x74, 0x6F, SLASH, 0x66, 0x69, 0x6C, 0x65, DOT, 0x74, 0x78, 0x74]
  const SLASH_FILE: Bytes := [SLASH, 0x66, 0x69, 0x6C, 0x65]
  const FILE_TXT: Bytes := [0x66, 0x69, 0x6C, 0x65, DOT, 0x74, 0x78, 0x74]
  const FILE_DOT: Bytes := [0x66, 0x69, 0x6C, 0x65, DOT]

  /** Of "path/to/file.txt" GetName as written yields "/file", where "file.txt" is meant. */
  lemma GetNameOfPathToFile(p: Path)
    requires p.str.bytes == PATH_TO_FILE
    ensures Utf8.Codepoints(p.GetName()) == Utf8.Widen(SLASH_FILE)
    ensures Utf8.Codepoints(p.NameIntended()) == Utf8.Widen(FILE_TXT)
  {
    Utf8.AsciiText(p.str.bytes);
    var cps := Utf8.Widen(p.str.bytes);
    PathToFileSeparator(cps);
    PathToFileDot(cps);
    ComponentAfter(cps, 7);
    PathToFileSlices(cps);
  }

  /** The name and the last component of "path/to/file.txt", as codepoint slices. */
  lemma PathToFileSlices(cps: seq<u32>)
    requires |cps| == |PATH_TO_FILE| && forall i :: 0 <= i < |cps| ==> cps[i] == PATH_TO_FILE[i] as u32
    ensures cps[7..12] == Utf8.Widen(SLASH_FILE) && cps[8..] == Utf8.Widen(FILE_TXT)
  {
    SameWidening(cps[7..12], SLASH_FILE);
    SameWidening(cps[8..], FILE_TXT);
  }

  /** What follows the last separator, when that is at index k. */
  lemma ComponentAfter(cps: seq<u32>, k: int)
    requires Math.Max(Utf8.LastIndex(cps, SLASH as u32), Utf8.LastIndex(cps, BACKSLASH as u32)) == k
    ensures -1 <= k < |cps| && LastComponent(cps) == cps[k + 1..]
  {
    LastComponentAfterLastSeparator(cps);
  }

  lemma PathToFileSeparator(cps: seq<u32>)
    requires |cps| == |PATH_TO_FILE| && forall i :: 0 <= i < |cps| ==> cps[i] == PATH_TO_FILE[i] as u32
    ensures Math.Max(Utf8.LastIndex(cps, SLASH as u32), Utf8.LastIndex(cps, BACKSLASH as u32)) == 7
  {
    LastSeparatorAt(cps, 8);
  }

  lemma PathToFileDot(cps: seq<u32>)
    requires |cps| == |PATH_TO_FILE| && forall i :: 0 <= i < |cps| ==> cps[i] == PATH_TO_FILE[i] as u32
    ensures Utf8.LastIndex(cps, DOT as u32) == 12
  {
    LastIndexAt(cps, DOT as u32, 12);
  }

  /** Codepoints that are the bytes one for one are their widening. */
  lemma SameWidening(cps: seq<u32>, b: Bytes)
    requires |cps| == |b| && forall i :: 0 <= i < |b| ==> cps[i] == b[i] as u32
    ensures cps == Utf8.Widen(b)
  {
  }

  /** Of "file." GetExtensionString as written yields ".", where "" is meant. */
  lemma ExtensionOfFileDot(p: Path)
    requires p.str.bytes == FILE_DOT
    ensures Utf8.Codepoints(p.GetExtensionString()) == [DOT as u32]
    ensures p.ExtensionIntended() == [] && p.GetExtension() == NoExtension
    ensures p.GetExtensionAsWritten() == UnknownExtension
  {
    Utf8.AsciiText(p.str.bytes);
    FileDotIndices(Utf8.Widen(p.str.bytes));
    var ext := p.GetExtensionString();
    KnownExtensionsCount();
    assert Utf8.Length(ext) == 1;
  }

  /** Where the dot of "file." is, and that it has no separator. */
  lemma {:induction false} FileDotIndices(cps: seq<u32>)
    requires |cps| == |FILE_DOT| && forall i :: 0 <= i < |cps| ==> cps[i] == FILE_DOT[i] as u32
    ensures Utf8.LastIndex(cps, DOT as u32) == 4 && cps[4..] == [DOT as u32]
    ensures LastComponent(cps) == cps && IntendedExtension(cps) == []
  {
    LastSeparatorAt(cps, 0);
    LastIndexAt(cps, DOT as u32, 4);
    LastComponentAfterLastSeparator(cps);
    assert cps[0..] == cps;
  }
}
