/**
 * String handling in the ttcr2ds driver: the model file's extension,
 * which decides how the grid is built, and the per-source output file
 * names derived from the source file paths.
 */
module FileNames {
  import opened Outcomes

  /** `std::string::npos`, the largest `size_t`. */
  const NPOS: nat := 0xFFFF_FFFF_FFFF_FFFF
  /** Arithmetic on `size_t` is modulo this. */
  const SizeModulus: nat := 0x1_0000_0000_0000_0000

  /** The last position of `c` in `s` (`rfind`), or `None` when `c` does not occur. */
  function LastIndexOf(s: string, c: char): (r: Option<nat>)
    ensures r.None? ==> forall k :: 0 <= k < |s| ==> s[k] != c
    ensures r.Some? ==> r.value < |s| && s[r.value] == c && forall k :: r.value < k < |s| ==> s[k] != c
  {
    if |s| == 0 then None
    else if s[|s| - 1] == c then Some(|s| - 1)
    else
      var r := LastIndexOf(s[..|s| - 1], c);
      assert s == s[..|s| - 1] + [s[|s| - 1]];
      r
  }

  /** `s` ends with `suffix`. */
  predicate EndsWith(s: string, suffix: string)
  {
    |suffix| <= |s| && s[|s| - |suffix|..] == suffix
  }

  /** The model file's extension: from its last '.' (included) to the end, or "" without a dot. */
  function Extension(modelfile: string): (ext: string)
    ensures ext == "" <==> '.' !in modelfile
    ensures ext != "" ==> ext[0] == '.' && '.' !in ext[1..] && EndsWith(modelfile, ext)
  {
    match LastIndexOf(modelfile, '.')
    case Some(idx) =>
      assert modelfile[idx..][1..] == modelfile[idx + 1..];
      modelfile[idx..]
    case None => ""
  }

  /** A suffix that starts with the only '.' it contains is the extension. */
  lemma {:induction false} ExtensionOfSuffix(modelfile: string, suffix: string)
    requires EndsWith(modelfile, suffix)
    requires |suffix| >= 1 && suffix[0] == '.' && '.' !in suffix[1..]
    ensures Extension(modelfile) == suffix
  {
    var at := |modelfile| - |suffix|;
    assert modelfile[at] == '.';
    var ext := Extension(modelfile);
    assert ext != "";
  }

  /** How the grid is built. */
  datatype MeshFormat = Vtu | Msh

  /** Why the driver gives up on the model file; it exits with status 1 in both cases. */
  datatype FormatError = NoVtkSupport | UnknownExtension(ext: string)

  /** The two extensions the dispatch knows are exactly the names' two suffixes. */
  lemma {:induction false} KnownExtensions(modelfile: string)
    ensures Extension(modelfile) == ".msh" <==> EndsWith(modelfile, ".msh")
    ensures Extension(modelfile) == ".vtu" <==> EndsWith(modelfile, ".vtu")
  {
    assert ".msh"[1..] == "msh" && ".vtu"[1..] == "vtu";
    if EndsWith(modelfile, ".msh") {
      ExtensionOfSuffix(modelfile, ".msh");
    }
    if EndsWith(modelfile, ".vtu") {
      ExtensionOfSuffix(modelfile, ".vtu");
    }
  }

  /**
   * The extension dispatch; `vtkSupport` is whether the program was built
   * with VTK. Only a name ending in ".vtu" (when VTK is built in) or in
   * ".msh" is accepted; anything else, including a name without a dot, is
   * refused.
   */
  function ModelFormat(modelfile: string, vtkSupport: bool): (r: Result<MeshFormat, FormatError>)
    ensures r == Success(Msh) <==> EndsWith(modelfile, ".msh")
    ensures r == Success(Vtu) <==> vtkSupport && EndsWith(modelfile, ".vtu")
    ensures r.Failure? <==> !EndsWith(modelfile, ".msh") && !(vtkSupport && EndsWith(modelfile, ".vtu"))
    ensures r == Failure(NoVtkSupport) <==> !vtkSupport && EndsWith(modelfile, ".vtu")
    ensures '.' !in modelfile ==> r == Failure(UnknownExtension(""))
  {
    KnownExtensions(modelfile);
    var ext := Extension(modelfile);
    if ext == ".vtu" then
      if vtkSupport then Success(Vtu) else Failure(NoVtkSupport)
    else if ext == ".msh" then Success(Msh)
    else Failure(UnknownExtension(ext))
  }

  /** The part of a path after its last '/', or the whole path without a slash. */
  function BaseName(path: string): string
  {
    match LastIndexOf(path, '/')
    case Some(i) => path[i + 1..]
    case None => path
  }

  /** The base name is a suffix of the path with no '/', preceded by a '/' unless it is the whole path. */
  lemma BaseNameShape(path: string)
    ensures '/' !in BaseName(path)
    ensures EndsWith(path, BaseName(path))
    ensures BaseName(path) == path || path[|path| - |BaseName(path)| - 1] == '/'
  {
  }

  /** Thrown by `erase` for a position past the end. */
  datatype StringError = OutOfRange

  /** A name with the text from its last '.' on removed; without a dot the erase throws. */
  function StripExtension(b: string): Result<string, StringError>
  {
    match LastIndexOf(b, '.')
    case Some(j) => Success(b[..j])
    case None => Failure(OutOfRange)
  }

  /** The name a source file contributes to its output files. */
  function SourceStem(path: string): Result<string, StringError>
  {
    StripExtension(BaseName(path))
  }

  /**
   * The stem exists exactly when the base name has a dot; it is the base
   * name up to its last dot, and so holds no '/'.
   */
  lemma SourceStemShape(path: string)
    ensures SourceStem(path).Success? <==> '.' in BaseName(path)
    ensures SourceStem(path).Success? ==>
      var b, r := BaseName(path), SourceStem(path).value;
      '/' !in r && |r| < |b| && b[..|r|] == r &&
      b[|r|] == '.' && '.' !in b[|r| + 1..]
  {
    var b := BaseName(path);
    BaseNameShape(path);
    match LastIndexOf(b, '.')
    case Some(j) =>
      assert forall k :: 0 <= k < j ==> b[..j][k] == b[k];
    case None =>
  }

  /** Reduction modulo `SizeModulus` of the values a `size_t` sum or difference can take here. */
  lemma SizeWrap(x: int)
    requires 0 <= x + NPOS && x <= NPOS + 1
    ensures x % SizeModulus == if x < 0 then x + SizeModulus else if x == NPOS + 1 then 0 else x
  {
  }

  /** A search result as `size_t`: the position, or `NPOS`. */
  function Position(found: Option<nat>): nat
  {
    match found
    case Some(i) => i
    case None => NPOS
  }

  /** `std::string::rfind` for one character, `NPOS` when it is absent. */
  method RFind(s: string, c: char) returns (pos: nat)
    requires |s| < NPOS
    ensures pos == Position(LastIndexOf(s, c))
  {
    var i := |s|;
    while i > 0
      invariant 0 <= i <= |s|
      invariant c !in s[i..]
    {
      if s[i - 1] == c {
        assert s[..i][..i - 1] == s[..i - 1];
        LastIndexOfSuffixFree(s, c, i);
        return i - 1;
      }
      i := i - 1;
    }
    LastIndexOfSuffixFree(s, c, 0);
    pos := NPOS;
  }

  /** If `c` does not occur in `s[i..]`, the last `c` of `s` is the last of `s[..i]`. */
  lemma {:induction false} LastIndexOfSuffixFree(s: string, c: char, i: nat)
    requires i <= |s|
    requires c !in s[i..]
    ensures LastIndexOf(s, c) == LastIndexOf(s[..i], c)
    decreases |s| - i
  {
    if i < |s| {
      assert s[i..] == s[..|s| - 1][i..] + [s[|s| - 1]];
      LastIndexOfSuffixFree(s[..|s| - 1], c, i);
      assert s[..|s| - 1][..i] == s[..i];
    }
  }

  /**
   * `std::string::erase(index, count)`: throws past the end, otherwise
   * removes `min(count, size - index)` characters from `index`.
   */
  function Erase(s: string, index: nat, count: nat): (r: Result<string, StringError>)
    ensures r.Failure? <==> index > |s|
    ensures r.Success? ==> |r.value| == |s| - Min(count, |s| - index) && index <= |r.value|
    ensures r.Success? ==> r.value[..index] == s[..index]
    ensures r.Success? ==> r.value[index..] == s[index + Min(count, |s| - index)..]
  {
    if index > |s| then Failure(OutOfRange)
    else
      var n := Min(count, |s| - index);
      var t := s[..index] + s[index + n..];
      assert t[..index] == s[..index];
      assert t[index..] == s[index + n..];
      Success(t)
  }

  /**
   * The driver's stripping of a source path (ttcr2ds.cpp lines 220-225),
   * with its `size_t` arithmetic: a missing '/' gives `npos`, and
   * `npos + 1` wraps to 0; a missing '.' makes the second erase throw.
   */
  method StripSourceName(path: string) returns (r: Result<string, StringError>)
    requires |path| < NPOS
    ensures r == SourceStem(path)
  {
    var srcname := path;
    var pos := RFind(srcname, '/');
    var first := Erase(srcname, 0, (pos + 1) % SizeModulus);
    EraseThroughSlash(srcname, pos);
    srcname := first.value;
    pos := RFind(srcname, '.');
    var second := Erase(srcname, pos, (|srcname| - pos) % SizeModulus);
    EraseFromDot(srcname, pos);
    r := second;
  }

  /** The first erase keeps what follows the last '/', whether or not there is one. */
  lemma EraseThroughSlash(path: string, pos: nat)
    requires |path| < NPOS
    requires pos == Position(LastIndexOf(path, '/'))
    ensures Erase(path, 0, (pos + 1) % SizeModulus) == Success(BaseName(path))
  {
    SizeWrap(pos + 1);
    match LastIndexOf(path, '/')
    case None => EraseNothing(path);
    case Some(i) => ErasePrefix(path, i + 1);
  }

  lemma EraseNothing(s: string)
    ensures Erase(s, 0, 0) == Success(s)
  {
    assert s[..0] + s[0..] == s;
  }

  lemma ErasePrefix(s: string, count: nat)
    requires count <= |s|
    ensures Erase(s, 0, count) == Success(s[count..])
  {
    assert s[..0] + s[count..] == s[count..];
  }

  /** The second erase cuts at the last '.', and throws when there is none. */
  lemma EraseFromDot(b: string, pos: nat)
    requires |b| < NPOS
    requires pos == Position(LastIndexOf(b, '.'))
    ensures Erase(b, pos, (|b| - pos) % SizeModulus) == StripExtension(b)
  {
    match LastIndexOf(b, '.')
    case None =>
      assert Erase(b, NPOS, 0).Failure?;
    case Some(j) =>
      SizeWrap(|b| - j);
      assert (|b| - j) % SizeModulus == |b| - j;
      assert Min(|b| - j, |b| - j) == |b| - j;
      assert b[..j] + b[|b|..] == b[..j];
      assert Erase(b, j, |b| - j) == Success(b[..j]);
  }

  /** The two kinds of per-source output file. */
  datatype OutputKind = TravelTimes | RayPaths

  function KindSuffix(kind: OutputKind): string
  {
    match kind
    case TravelTimes => "_tt.dat"
    case RayPaths => "_rp.vtp"
  }

  /**
   * The output file of source `ns`: `basename` plus the suffix when there
   * is one source, `basename + "_" + stem` plus the suffix otherwise.
   */
  function OutputFileName(basename: string, srcfiles: seq<string>, ns: nat, kind: OutputKind): (r: Result<string, StringError>)
    requires ns < |srcfiles|
    ensures |srcfiles| == 1 ==> r == Success(basename + KindSuffix(kind))
    ensures |srcfiles| != 1 ==> (r.Success? <==> SourceStem(srcfiles[ns]).Success?)
    ensures r.Success? ==> EndsWith(r.value, KindSuffix(kind))
    ensures r.Success? ==> |basename| <= |r.value| && r.value[..|basename|] == basename
  {
    if |srcfiles| == 1 then Success(basename + KindSuffix(kind))
    else
      match SourceStem(srcfiles[ns])
      case Success(stem) =>
        NameParts(basename, "_" + stem, KindSuffix(kind));
        Success(basename + "_" + stem + KindSuffix(kind))
      case Failure(e) => Failure(e)
  }

  lemma NameParts(basename: string, middle: string, suffix: string)
    ensures (basename + middle + suffix)[..|basename|] == basename
    ensures EndsWith(basename + middle + suffix, suffix)
    ensures (basename + middle + suffix)[|basename|..|basename| + |middle|] == middle
  {
    var name := basename + middle + suffix;
    assert name[|name| - |suffix|..] == suffix;
    assert basename + "" == basename;
  }

  /**
   * Between the base name and the suffix an output name holds nothing when
   * there is one source, and "_" followed by the source's stem otherwise.
   */
  lemma OutputFileNameMiddle(basename: string, srcfiles: seq<string>, ns: nat, kind: OutputKind)
    requires ns < |srcfiles|
    requires OutputFileName(basename, srcfiles, ns, kind).Success?
    ensures |basename| + |KindSuffix(kind)| <= |OutputFileName(basename, srcfiles, ns, kind).value|
    ensures |srcfiles| == 1 ==>
      var name := OutputFileName(basename, srcfiles, ns, kind).value;
      name[|basename|..|name| - |KindSuffix(kind)|] == ""
    ensures |srcfiles| != 1 ==>
      var name := OutputFileName(basename, srcfiles, ns, kind).value;
      name[|basename|..|name| - |KindSuffix(kind)|] == "_" + SourceStem(srcfiles[ns]).value
  {
    var suffix := KindSuffix(kind);
    if |srcfiles| == 1 {
      NameParts(basename, "", suffix);
      assert basename + "" + suffix == basename + suffix;
    } else {
      var st := SourceStem(srcfiles[ns]);
      var middle := "_" + st.value;
      assert basename + "_" + st.value == basename + middle;
      assert OutputFileName(basename, srcfiles, ns, kind) == Success(basename + middle + suffix);
      NameParts(basename, middle, suffix);
    }
  }

  /** With several sources, two output names of one kind coincide exactly when the stems do. */
  lemma {:induction false} OutputFileNameInjective(basename: string, srcfiles: seq<string>, a: nat, b: nat, kind: OutputKind)
    requires a < |srcfiles| && b < |srcfiles| && |srcfiles| != 1
    requires SourceStem(srcfiles[a]).Success? && SourceStem(srcfiles[b]).Success?
    ensures OutputFileName(basename, srcfiles, a, kind) == OutputFileName(basename, srcfiles, b, kind)
        <==> SourceStem(srcfiles[a]) == SourceStem(srcfiles[b])
  {
    var sa := SourceStem(srcfiles[a]).value;
    var sb := SourceStem(srcfiles[b]).value;
    var na := basename + "_" + sa + KindSuffix(kind);
    var nb := basename + "_" + sb + KindSuffix(kind);
    if na == nb {
      var lo := |basename| + 1;
      assert |sa| == |sb|;
      assert na[lo..lo + |sa|] == sa;
      assert nb[lo..lo + |sb|] == sb;
    }
  }
}
