/**
 * The output file name of `obfuscate_script` (DaObfu/daobfu.py): `os.path.splitext`
 * cuts the input path into a base and an extension, and "_obfuscated" goes between
 * them. `os.path` is `posixpath` on Unix and `ntpath` on Windows; both split with the
 * same routine and differ only in the separators they recognise.
 */
module Paths {

  datatype Flavor = Posix | Windows

  /** `sep` and `altsep`: '/' on both, and '\' as well on Windows. */
  predicate IsSep(f: Flavor, c: char)
  {
    c == '/' || (f == Windows && c == '\\')
  }

  /** What `rfind` looks for: a path separator of a flavour, or the extension dot. */
  datatype Target = Sep(f: Flavor) | Dot

  predicate Matches(t: Target, c: char)
  {
    match t
    case Sep(f) => IsSep(f, c)
    case Dot => c == '.'
  }

  /** `str.rfind` for a class of characters: the last index holding one, or -1. */
  function LastIndexWhere(p: string, target: Target): (k: int)
    ensures -1 <= k < |p|
    ensures k >= 0 ==> Matches(target, p[k])
    ensures forall i :: k < i < |p| ==> !Matches(target, p[i])
  {
    if p == [] then -1
    else if Matches(target, p[|p| - 1]) then |p| - 1
    else LastIndexWhere(p[..|p| - 1], target)
  }

  /** Searching past a tail that holds no target character finds what the head alone gives. */
  lemma {:induction false} LastIndexSkipsTail(a: string, b: string, target: Target)
    requires forall i :: 0 <= i < |b| ==> !Matches(target, b[i])
    ensures LastIndexWhere(a + b, target) == LastIndexWhere(a, target)
  {
    if b != [] {
      var ab := a + b;
      assert ab[..|ab| - 1] == a + b[..|b| - 1];
      LastIndexSkipsTail(a, b[..|b| - 1], target);
    } else {
      assert a + b == a;
    }
  }

  /** A tail whose only target character is its first lands the search there. */
  lemma {:induction false} LastIndexAtTailStart(a: string, b: string, target: Target)
    requires b != [] && Matches(target, b[0])
    requires forall i :: 1 <= i < |b| ==> !Matches(target, b[i])
    ensures LastIndexWhere(a + b, target) == |a|
  {
    var ab := a + b;
    assert ab[|ab| - 1] == b[|b| - 1];
    if |b| > 1 {
      assert ab[..|ab| - 1] == a + b[..|b| - 1];
      LastIndexAtTailStart(a, b[..|b| - 1], target);
    }
  }

  predicate AllDots(t: string)
  {
    forall i :: 0 <= i < |t| ==> t[i] == '.'
  }

  /**
   * `genericpath._splitext`: the extension starts at the last dot, provided that dot
   * comes after the last separator and the file name has a character other than a
   * dot before it (so `.bashrc` and `..` have no extension).
   */
  function SplitExt(f: Flavor, p: string): (r: (string, string))
    ensures r.0 + r.1 == p
  {
    var s := LastIndexWhere(p, Sep(f));
    var d := LastIndexWhere(p, Dot);
    if d > s && !AllDots(p[s + 1..d]) then (p[..d], p[d..]) else (p, "")
  }

  /** A non-empty extension is one dot followed by characters that are neither dots nor separators. */
  lemma SplitExtExtension(f: Flavor, p: string)
    ensures var ext := SplitExt(f, p).1;
      ext != [] ==> ext[0] == '.' && forall i :: 1 <= i < |ext| ==> ext[i] != '.' && !IsSep(f, ext[i])
  {
    var s := LastIndexWhere(p, Sep(f));
    var d := LastIndexWhere(p, Dot);
    var ext := SplitExt(f, p).1;
    if ext != [] {
      assert d > s && ext == p[d..];
      forall i | 1 <= i < |ext| ensures ext[i] != '.' && !IsSep(f, ext[i]) {
        assert ext[i] == p[d + i];
        assert !Matches(Dot, p[d + i]) && !Matches(Sep(f), p[d + i]);
      }
    }
  }

  /** What goes between the base and the extension. */
  const Marker: string := "_obfuscated"

  lemma MarkerHasNoSepOrDot(f: Flavor)
    ensures forall i :: 0 <= i < |Marker| ==> !Matches(Sep(f), Marker[i]) && !Matches(Dot, Marker[i])
    ensures Marker[|Marker| - 1] != '.'
  {
  }

  /** `f"{base}_obfuscated{ext}"` */
  function OutputPath(f: Flavor, p: string): (o: string)
    ensures |o| == |p| + |Marker|
  {
    var (base, ext) := SplitExt(f, p);
    base + Marker + ext
  }

  /** Without an extension the marker is simply appended, and the result has none either. */
  lemma OutputPathNoExt(f: Flavor, p: string)
    requires SplitExt(f, p).1 == []
    ensures SplitExt(f, OutputPath(f, p)) == (p + Marker, [])
  {
    var o := OutputPath(f, p);
    assert o == p + Marker;
    MarkerHasNoSepOrDot(f);
    LastIndexSkipsTail(p, Marker, Sep(f));
    LastIndexSkipsTail(p, Marker, Dot);
    var s := LastIndexWhere(p, Sep(f));
    var d := LastIndexWhere(p, Dot);
    if d > s {
      assert o[s + 1..d] == p[s + 1..d];
    }
  }

  /** Where the two searches land in `base + Marker + ext`, for the split of a path with an extension. */
  lemma SearchesWithExt(f: Flavor, base: string, ext: string)
    requires ext != [] && ext[0] == '.'
    requires forall i :: 1 <= i < |ext| ==> ext[i] != '.' && !IsSep(f, ext[i])
    ensures LastIndexWhere(base + Marker + ext, Dot) == |base + Marker|
    ensures LastIndexWhere(base + Marker + ext, Sep(f)) == LastIndexWhere(base, Sep(f))
  {
    var head := base + Marker;
    MarkerHasNoSepOrDot(f);
    LastIndexAtTailStart(head, ext, Dot);
    LastIndexSkipsTail(head, ext, Sep(f));
    LastIndexSkipsTail(base, Marker, Sep(f));
  }

  /** Inserting the marker before an extension leaves that extension to be split off again. */
  lemma SplitWithMarker(f: Flavor, base: string, ext: string)
    requires ext != [] && ext[0] == '.'
    requires forall i :: 1 <= i < |ext| ==> ext[i] != '.' && !IsSep(f, ext[i])
    ensures SplitExt(f, base + Marker + ext) == (base + Marker, ext)
  {
    SearchesWithExt(f, base, ext);
    var head := base + Marker;
    var o := head + ext;
    var s := LastIndexWhere(base, Sep(f));
    var t := o[s + 1..|head|];
    assert t == base[s + 1..] + Marker;
    assert t[|t| - 1] == Marker[|Marker| - 1] != '.';
    assert !AllDots(t);
    assert o[..|head|] == head && o[|head|..] == ext;
  }

  /** With an extension the marker goes before it, and the extension is found again. */
  lemma OutputPathWithExt(f: Flavor, p: string)
    requires SplitExt(f, p).1 != []
    ensures SplitExt(f, OutputPath(f, p)) == (SplitExt(f, p).0 + Marker, SplitExt(f, p).1)
  {
    SplitExtExtension(f, p);
    SplitWithMarker(f, SplitExt(f, p).0, SplitExt(f, p).1);
  }

  /**
   * The output file keeps the input's extension, its base is the input's base with
   * "_obfuscated" appended, and so it never overwrites the input.
   */
  lemma OutputPathSplit(f: Flavor, p: string)
    ensures var (base, ext) := SplitExt(f, p);
      SplitExt(f, OutputPath(f, p)) == (base + Marker, ext)
    ensures OutputPath(f, p) != p
  {
    if SplitExt(f, p).1 == [] {
      OutputPathNoExt(f, p);
    } else {
      OutputPathWithExt(f, p);
    }
  }
}
