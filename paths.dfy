/** Path algebra of the overlay: composing a child name with the parent's
    normalized path (GetNormalizedFName) and mapping a path under the target
    injection directory to the source injection directory (GetInjectionFName).
    Paths are CHAR16 strings without their terminating NUL; the separator is
    '\'. */
module Paths {
  import opened Efi

  type Path = string

  const Root: Path := "\\"

  predicate Absolute(p: Path) {
    |p| > 0 && p[0] == '\\'
  }

  /** A path as GetNormalizedFName produces it from the root: absolute, and
      ending in a separator only when it is the root itself. */
  predicate WellFormed(p: Path) {
    Absolute(p) && (|p| == 1 || p[|p| - 1] != '\\')
  }

  /** A single relative path segment other than "." and "..". */
  predicate Segment(c: Path) {
    |c| > 0 && c != "." && c != ".." && forall i :: 0 <= i < |c| ==> c[i] != '\\'
  }

  /** GetStrLastCharOccurence: the index of the last occurrence of ch. */
  function LastIndexOf(s: string, ch: char): (r: Option<nat>)
    ensures r.Some? ==> r.value < |s| && s[r.value] == ch
    ensures r.Some? ==> forall j :: r.value < j < |s| ==> s[j] != ch
    ensures r.None? ==> forall j :: 0 <= j < |s| ==> s[j] != ch
  {
    if s == [] then None
    else if s[|s| - 1] == ch then Some(|s| - 1)
    else LastIndexOf(s[..|s| - 1], ch)
  }

  /** GetNormalizedFName (Parent, FName): an absolute name is kept, "." is the
      parent, ".." is the parent cut at its last separator (the root when that
      separator is the first character or missing), anything else is appended
      to the parent with a separator unless the parent already ends in one. */
  function NormalizedFName(parent: Path, name: Path): Path {
    if |name| > 0 && name[0] == '\\' then name
    else if name == "." then parent
    else if name == ".." then
      match LastIndexOf(parent, '\\')
      case Some(k) => if k != 0 then parent[..k] else Root
      case None => Root
    else if |parent| > 0 && parent[|parent| - 1] == '\\' then parent + name
    else parent + Root + name
  }

  /** Normalizing against an absolute parent always gives an absolute path,
      which is why every name the overlay hands to a native volume is
      absolute. */
  lemma NormalizedIsAbsolute(parent: Path, name: Path)
    requires Absolute(parent)
    ensures Absolute(NormalizedFName(parent, name))
  {
    if !(|name| > 0 && name[0] == '\\') && name != "." && name == ".." {
      match LastIndexOf(parent, '\\')
      case Some(k) =>
        if k != 0 { assert NormalizedFName(parent, name) == parent[..k]; }
      case None =>
    }
  }

  /** "." is the identity on a normalized path (normalization idempotence). */
  lemma NormalizeDotIsIdentity(parent: Path)
    ensures NormalizedFName(parent, ".") == parent
  {
  }

  /** Appending a segment to a well-formed path keeps it well-formed. */
  lemma NormalizedChildWellFormed(parent: Path, c: Path)
    requires WellFormed(parent) && Segment(c)
    ensures WellFormed(NormalizedFName(parent, c))
    ensures NormalizedFName(parent, c) == if parent == Root then parent + c else parent + Root + c
  {
    assert c[0] != '\\';
  }

  /** Going down into a segment and back up with ".." returns to the parent. */
  lemma {:induction false} ChildThenParent(parent: Path, c: Path)
    requires WellFormed(parent) && Segment(c)
    ensures NormalizedFName(NormalizedFName(parent, c), "..") == parent
  {
    NormalizedChildWellFormed(parent, c);
    var child := NormalizedFName(parent, c);
    var sep := if parent == Root then 0 else |parent|;
    assert |child| == sep + 1 + |c| && child[sep] == '\\';
    forall j | sep < j < |child| ensures child[j] != '\\' {
      assert child[j] == c[j - sep - 1];
    }
    LastIndexIsUnique(child, '\\', sep);
    assert NormalizedFName(child, "..") == if sep != 0 then child[..sep] else Root;
    if parent != Root {
      assert child[..sep] == parent;
    }
  }

  lemma LastIndexIsUnique(s: string, ch: char, k: nat)
    requires k < |s| && s[k] == ch
    requires forall j :: k < j < |s| ==> s[j] != ch
    ensures LastIndexOf(s, ch) == Some(k)
  {
    if s[|s| - 1] != ch {
      LastIndexIsUnique(s[..|s| - 1], ch, k);
    }
  }

  // ---------------------------------------------------------------------
  // GetInjectionFName

  /** The index at which the walk of GetInjectionFName stops: it advances over
      TgtDir and FName together while TgtDir has characters left and the two
      current characters agree under TO_UPPER. */
  function WalkStop(tgtDir: Path, fname: Path, i: nat): (k: nat)
    requires i <= |tgtDir|
    ensures i <= k <= |tgtDir|
    decreases |tgtDir| - i
  {
    if i < |tgtDir| && i < |fname| && ToUpper(tgtDir[i]) == ToUpper(fname[i])
    then WalkStop(tgtDir, fname, i + 1)
    else i
  }

  /** GetInjectionFName (TgtDir, SrcDir, FName); None stands for NULL. */
  function InjectionFName(tgtDir: Option<Path>, srcDir: Option<Path>, fname: Option<Path>): Option<Path> {
    if tgtDir.None? || srcDir.None? || fname.None? then None
    else
      var t, f := tgtDir.value, fname.value;
      var k := WalkStop(t, f, 0);
      if k < |t| then None                      // TgtDir not exhausted
      else if !(k < |f| && f[k] == '\\') then None  // not a file inside TgtDir
      else Some(srcDir.value + f[k..])
  }

  /** The walk consumes all of TgtDir exactly when TgtDir is a case-insensitive
      prefix of FName. */
  lemma {:induction false} WalkStopIsPrefixTest(t: Path, f: Path, i: nat)
    requires i <= |t| && i <= |f| && UpperEq(t[..i], f[..i])
    ensures WalkStop(t, f, i) == |t| <==> StriStartsWith(f, t)
    decreases |t| - i
  {
    if i < |t| && i < |f| && ToUpper(t[i]) == ToUpper(f[i]) {
      assert t[..i + 1] == t[..i] + [t[i]] && f[..i + 1] == f[..i] + [f[i]];
      WalkStopIsPrefixTest(t, f, i + 1);
    } else if i < |t| && |t| <= |f| {
      assert f[..|t|][i] == f[i];
    }
  }

  /** The mapping as a whole: FName is mapped exactly when TgtDir is a
      case-insensitive prefix of it and the next character is a separator,
      and then the result is SrcDir followed by the rest of FName. */
  lemma InjectionFNameSpec(t: Path, s: Path, f: Path)
    ensures InjectionFName(Some(t), Some(s), Some(f)) ==
      if StriStartsWith(f, t) && |f| > |t| && f[|t|] == '\\' then Some(s + f[|t|..]) else None
  {
    WalkStopIsPrefixTest(t, f, 0);
  }

  /** FName equal to TgtDir, a missing argument, or a path outside TgtDir, is
      not mapped. */
  lemma InjectionFNameRejects(t: Path, s: Path, f: Path)
    ensures UpperEq(f, t) ==> InjectionFName(Some(t), Some(s), Some(f)).None?
    ensures !StriStartsWith(f, t) ==> InjectionFName(Some(t), Some(s), Some(f)).None?
    ensures InjectionFName(None, Some(s), Some(f)).None?
    ensures InjectionFName(Some(t), None, Some(f)).None?
    ensures InjectionFName(Some(t), Some(s), None).None?
  {
    InjectionFNameSpec(t, s, f);
  }

  /** Mapping ignores the ASCII case of the TgtDir part of FName. */
  lemma InjectionFNameCaseInsensitive(t: Path, s: Path, f: Path, g: Path)
    requires |f| == |g| && |t| <= |f|
    requires UpperEq(f[..|t|], g[..|t|]) && f[|t|..] == g[|t|..]
    ensures InjectionFName(Some(t), Some(s), Some(f)) == InjectionFName(Some(t), Some(s), Some(g))
  {
    InjectionFNameSpec(t, s, f);
    InjectionFNameSpec(t, s, g);
    if StriStartsWith(f, t) {
      assert forall i :: 0 <= i < |t| ==> ToUpper(g[..|t|][i]) == ToUpper(f[..|t|][i]);
    }
    if StriStartsWith(g, t) {
      assert forall i :: 0 <= i < |t| ==> ToUpper(g[..|t|][i]) == ToUpper(f[..|t|][i]);
    }
    if |f| > |t| {
      assert f[|t|] == f[|t|..][0] && g[|t|] == g[|t|..][0];
    }
  }

  /** The worked example of the source's doc comment. */
  lemma InjectionFNameExample()
    ensures InjectionFName(Some("\\S\\L\\E"), Some("\\efi\\10.7"), Some("\\S\\L\\E\\Xx.kext\\Contents\\Info.plist"))
         == Some("\\efi\\10.7\\Xx.kext\\Contents\\Info.plist")
  {
    var t, f := "\\S\\L\\E", "\\S\\L\\E\\Xx.kext\\Contents\\Info.plist";
    assert WalkStop(t, f, 6) == 6;
    assert WalkStop(t, f, 5) == 6;
    assert WalkStop(t, f, 4) == 6;
    assert WalkStop(t, f, 3) == 6;
    assert WalkStop(t, f, 2) == 6;
    assert WalkStop(t, f, 1) == 6;
    assert WalkStop(t, f, 0) == 6;
    assert f[6] == '\\';
    assert f[6..] == "\\Xx.kext\\Contents\\Info.plist";
    assert "\\efi\\10.7" + f[6..] == "\\efi\\10.7\\Xx.kext\\Contents\\Info.plist";
  }

  /** A path outside TgtDir is not mapped. */
  lemma InjectionFNameOutsideExample()
    ensures InjectionFName(Some("\\S\\L\\E"), Some("\\efi\\10.7"), Some("\\Other\\File")).None?
  {
    var t, f := "\\S\\L\\E", "\\Other\\File";
    InjectionFNameSpec(t, "\\efi\\10.7", f);
    assert f[..|t|][1] == 'O';
  }

  /** GetOpen calls the mapper with an empty TgtDir: every absolute name is
      then mapped to SrcDir followed by the whole name. */
  lemma EmptyTgtDirMapsEverything(s: Path, f: Path)
    requires Absolute(f)
    ensures InjectionFName(Some(""), Some(s), Some(f)) == Some(s + f)
  {
    InjectionFNameSpec("", s, f);
  }
}
