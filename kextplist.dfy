/** Which kexts a patch or a block list names, the generic patch loop of
    PatchKext, and the two Info.plist scanners: ExtractKextPropString, which
    reads the string value of a top-level key, and BlockListedKextCaches,
    which spoils the first CFBundleIdentifier key so that the kernel refuses
    the prelinked kext. */
module KextPlist {
  import opened Efi

  // ---------------------------------------------------------------------
  // IsPatchNameMatch

  /** A patch name with at least two dots is a full bundle identifier
      ("com.apple.driver.AppleHDA"); any other name is a short name. */
  predicate IsBundleName(name: string) {
    CountChar(name, '.') >= 2
  }

  datatype NameMatch = NameMatch(matches: bool, isBundle: bool)

  /** IsPatchNameMatch (BundleIdentifier, Name, InfoPlist, &IsBundle): a
      short name is looked for inside the Info.plist text when there is one;
      a bundle name, or any name when there is no Info.plist, must equal the
      kext's bundle identifier. */
  function IsPatchNameMatch(bundleId: string, name: string, infoPlist: Option<string>): (r: NameMatch)
    ensures r.isBundle <==> IsBundleName(name)
  {
    var isBundle := IsBundleName(name);
    NameMatch(
      if infoPlist.Some? && !isBundle then Contains(infoPlist.value, name) else bundleId == name,
      isBundle)
  }

  /** A bundle name matches exactly its own identifier, whatever the plist. */
  lemma BundleNameMatchesOnlyItself(bundleId: string, name: string, infoPlist: Option<string>)
    requires IsBundleName(name)
    ensures IsPatchNameMatch(bundleId, name, infoPlist).matches <==> bundleId == name
  {
  }

  /** A short name matches exactly the plists that contain it. */
  lemma ShortNameMatchesPlistText(bundleId: string, name: string, plist: string)
    requires !IsBundleName(name)
    ensures IsPatchNameMatch(bundleId, name, Some(plist)).matches
            <==> exists k :: OccursAt(plist, k, name)
  {
    if IndexOf(plist, name).Some? {
      assert OccursAt(plist, IndexOf(plist, name).value, name);
    }
  }

  /** A name always matches when it is passed as both identifier and plist. */
  lemma NameMatchesItself(name: string)
    ensures IsPatchNameMatch(name, name, Some(name)).matches
  {
    assert name[..|name|] == name;
  }

  // ---------------------------------------------------------------------
  // IsKextInBlockCachesList

  /** A block-list entry names the kext: the entry plays the part of the
      patch name, tested against the kext identifier. */
  predicate BlockEntryMatches(entry: string, kext: string) {
    IsPatchNameMatch(kext, entry, Some(kext)).matches
  }

  predicate InBlockCachesList(list: seq<string>, kext: string) {
    exists i :: 0 <= i < |list| && BlockEntryMatches(list[i], kext)
  }

  /** IsKextInBlockCachesList: the first entry that names the kext ends the
      search. The list is the BlockKextCaches setting, passed in. */
  method IsKextInBlockCachesList(list: seq<string>, kext: string) returns (found: bool)
    ensures found <==> InBlockCachesList(list, kext)
  {
    found := false;
    var i := 0;
    while i < |list|
      invariant 0 <= i <= |list|
      invariant forall j :: 0 <= j < i ==> !BlockEntryMatches(list[j], kext)
    {
      if IsPatchNameMatch(kext, list[i], Some(kext)).matches {
        found := true;
        return;
      }
      i := i + 1;
    }
  }

  /** A kext is blocked exactly when some entry is its full identifier or a
      short name occurring in its identifier. */
  lemma BlockListNamesKext(list: seq<string>, kext: string)
    ensures InBlockCachesList(list, kext) <==>
      exists i :: 0 <= i < |list| &&
        (if IsBundleName(list[i]) then list[i] == kext else exists k :: OccursAt(kext, k, list[i]))
  {
    forall i | 0 <= i < |list|
      ensures BlockEntryMatches(list[i], kext) <==>
        (if IsBundleName(list[i]) then list[i] == kext else exists k :: OccursAt(kext, k, list[i]))
    {
      if !IsBundleName(list[i]) {
        ShortNameMatchesPlistText(kext, list[i], kext);
      }
    }
  }

  /** The loop as written: the kext identifier is passed as both Name and
      InfoPlist, and the entry as BundleIdentifier. */
  predicate InBlockCachesListAsWritten(list: seq<string>, kext: string) {
    exists i :: 0 <= i < |list| && IsPatchNameMatch(list[i], kext, Some(kext)).matches
  }

  /** As written, an identifier with fewer than two dots is blocked by any
      non-empty list, whatever it holds. */
  lemma BlockListAsWrittenBlocksShortIds(list: seq<string>, kext: string)
    requires |list| > 0 && !IsBundleName(kext)
    ensures InBlockCachesListAsWritten(list, kext)
  {
    NameMatchesItself(kext);
    assert IsPatchNameMatch(list[0], kext, Some(kext)).matches;
  }

  /** The empty identifier left by a failed extraction is blocked by a list
      that only names AppleHDA; the intended test does not block it. */
  lemma BlockListEmptyIdBlocked()
    ensures InBlockCachesListAsWritten(["com.apple.driver.AppleHDA"], "")
    ensures !InBlockCachesList(["com.apple.driver.AppleHDA"], "")
  {
    BlockListAsWrittenBlocksShortIds(["com.apple.driver.AppleHDA"], "");
    var e := "com.apple.driver.AppleHDA";
    assert e[3] == '.' && e[9] == '.';
    DotsCounted(e, 3, 9);
  }

  /** Two dots at distinct places make a bundle name. */
  lemma {:induction false} DotsCounted(s: string, i: nat, j: nat)
    requires i < j < |s| && s[i] == '.' && s[j] == '.'
    ensures CountChar(s, '.') >= 2
  {
    if i == 0 {
      assert CountChar(s[1..], '.') > 0 by { assert s[1..][j - 1] == '.'; }
    } else {
      DotsCounted(s[1..], i - 1, j - 1);
    }
  }

  // ---------------------------------------------------------------------
  // The generic patch loop of PatchKext

  /** The flags PatchKext reads and writes in a KEXT_PATCH; the search and
      replace data go to AnyKextPatch, which is not part of this model. */
  datatype KextPatch = KextPatch(name: string, patched: bool, disabled: bool)

  /** A patch is handed to AnyKextPatch for this kext. */
  predicate Applies(p: KextPatch, bundleId: string, infoPlist: Option<string>) {
    !p.patched && !p.disabled && IsPatchNameMatch(bundleId, p.name, infoPlist).matches
  }

  /** The patch after the loop has looked at it: an applied bundle-named
      patch is marked patched. */
  function AfterPatch(p: KextPatch, bundleId: string, infoPlist: Option<string>): (r: KextPatch)
    ensures r.name == p.name && r.disabled == p.disabled
    ensures r.patched <==> p.patched || (Applies(p, bundleId, infoPlist) && IsBundleName(p.name))
  {
    if Applies(p, bundleId, infoPlist) && IsBundleName(p.name) then p.(patched := true) else p
  }

  /** The indices below n of the patches applied, in increasing order. */
  function AppliedBelow(ps: seq<KextPatch>, n: nat, bundleId: string, infoPlist: Option<string>): seq<nat>
    requires n <= |ps|
  {
    if n == 0 then []
    else AppliedBelow(ps, n - 1, bundleId, infoPlist)
         + (if Applies(ps[n - 1], bundleId, infoPlist) then [n - 1] else [])
  }

  /** The patches applied are exactly those below n that apply. */
  lemma {:induction false} AppliedMembers(ps: seq<KextPatch>, n: nat, bundleId: string, infoPlist: Option<string>)
    requires n <= |ps|
    ensures forall i :: i in AppliedBelow(ps, n, bundleId, infoPlist) <==> 0 <= i < n && Applies(ps[i], bundleId, infoPlist)
  {
    if n > 0 {
      AppliedMembers(ps, n - 1, bundleId, infoPlist);
    }
  }

  /** The applied indices are strictly increasing: each patch is applied at
      most once per kext, in list order. */
  lemma {:induction false} AppliedInOrder(ps: seq<KextPatch>, n: nat, bundleId: string, infoPlist: Option<string>)
    requires n <= |ps|
    ensures Increasing(AppliedBelow(ps, n, bundleId, infoPlist))
  {
    if n > 0 {
      AppliedInOrder(ps, n - 1, bundleId, infoPlist);
      AppliedMembers(ps, n - 1, bundleId, infoPlist);
      var r' := AppliedBelow(ps, n - 1, bundleId, infoPlist);
      var r := AppliedBelow(ps, n, bundleId, infoPlist);
      if Applies(ps[n - 1], bundleId, infoPlist) {
        assert r == r' + [n - 1];
        forall a, b | 0 <= a < b < |r| ensures r[a] < r[b] {
          assert r[a] == r'[a] && r'[a] in r';
          if b < |r'| {
            assert r[b] == r'[b];
          }
        }
      } else {
        assert r == r';
      }
    }
  }

  predicate Increasing(r: seq<nat>) {
    forall a, b :: 0 <= a < b < |r| ==> r[a] < r[b]
  }

  /** The loop over KextPatches for one kext: the indices handed to
      AnyKextPatch, in order, and the Patched flags raised. */
  method PatchKextGeneric(patches: array<KextPatch>, bundleId: string, infoPlist: Option<string>)
    returns (applied: seq<nat>)
    modifies patches
    ensures applied == AppliedBelow(old(patches[..]), patches.Length, bundleId, infoPlist)
    ensures patches[..] == AfterAll(old(patches[..]), bundleId, infoPlist)
  {
    ghost var ps := patches[..];
    applied := [];
    var i := 0;
    while i < patches.Length
      invariant 0 <= i <= patches.Length
      invariant applied == AppliedBelow(ps, i, bundleId, infoPlist)
      invariant forall j :: 0 <= j < i ==> patches[j] == AfterPatch(ps[j], bundleId, infoPlist)
      invariant forall j :: i <= j < patches.Length ==> patches[j] == ps[j]
    {
      var p := patches[i];
      if !Applies(p, bundleId, infoPlist) {
        i := i + 1;
        continue;
      }
      applied := applied + [i];
      if IsBundleName(p.name) {
        patches[i] := p.(patched := true);
      }
      i := i + 1;
    }
    assert patches[..] == AfterAll(ps, bundleId, infoPlist);
  }

  /** Every patch after one run of the loop. */
  function AfterAll(ps: seq<KextPatch>, bundleId: string, infoPlist: Option<string>): (r: seq<KextPatch>)
    ensures |r| == |ps|
    ensures forall i :: 0 <= i < |ps| ==> r[i] == AfterPatch(ps[i], bundleId, infoPlist)
  {
    if ps == [] then []
    else AfterAll(ps[..|ps| - 1], bundleId, infoPlist) + [AfterPatch(ps[|ps| - 1], bundleId, infoPlist)]
  }

  /** A bundle-named patch applied for one kext is applied to no kext
      afterwards; a short-named one stays as it was, so it applies again to
      every kext it matches. Disabled patches are never applied. */
  lemma PatchAppliesOnce(ps: seq<KextPatch>, i: nat, id: string, plist: Option<string>,
                         id': string, plist': Option<string>)
    requires i < |ps|
    ensures var after := AfterAll(ps, id, plist);
      && (i in AppliedBelow(ps, |ps|, id, plist) && IsBundleName(ps[i].name)
          ==> i !in AppliedBelow(after, |ps|, id', plist'))
      && (!IsBundleName(ps[i].name) ==> after[i] == ps[i])
      && (ps[i].disabled ==> i !in AppliedBelow(after, |ps|, id', plist'))
  {
    AppliedMembers(ps, |ps|, id, plist);
    AppliedMembers(AfterAll(ps, id, plist), |ps|, id', plist');
  }

  // ---------------------------------------------------------------------
  // Plist text: AsciiStrStr from a position

  /** AsciiStrStr (Plist + from, needle), as an index into the plist text. */
  function Find(p: string, from: nat, needle: string): (r: Option<nat>)
    requires from <= |p|
    ensures r.Some? ==> from <= r.value && OccursAt(p, r.value, needle)
    ensures r.Some? ==> forall j :: from <= j < r.value ==> !OccursAt(p, j, needle)
    ensures r.None? ==> forall j :: from <= j ==> !OccursAt(p, j, needle)
    decreases |p| - from
  {
    if from + |needle| > |p| then None
    else if p[from..from + |needle|] == needle then Some(from)
    else Find(p, from + 1, needle)
  }

  const DictOpen: string := "<dict>"
  const DictClose: string := "</dict>"
  const StringOpen: string := "<string>"
  const StringClose: string := "</string>"

  /** The next '<' at or after t, or the end of the text. */
  function NextTag(p: string, t: nat): (r: nat)
    requires t <= |p|
    ensures t <= r <= |p|
    decreases |p| - t
  {
    if t == |p| || p[t] == '<' then t else NextTag(p, t + 1)
  }

  // ---------------------------------------------------------------------
  // ExtractKextPropString

  /** The value read for a key found at t: the text between the next
      "<string>" and the "</string>" after it, when its length plus the NUL
      fits in len. */
  function ValueAt(p: string, t: nat, key: string, len: int): (r: Option<string>)
    requires OccursAt(p, t, key)
  {
    match Find(p, t + |key|, StringOpen)
    case None => None
    case Some(s) =>
      match Find(p, s + 8, StringClose)
      case None => None
      case Some(e) => if e - (s + 8) + 1 < len then Some(p[s + 8..e]) else None
  }

  /** The scan from tag position t at dictionary depth level. */
  function Scan(p: string, key: string, len: int, t: nat, level: int): Option<string>
    requires t <= |p|
    decreases |p| - t
  {
    if t == |p| then None
    else if OccursAt(p, t, DictOpen) then Scan(p, key, len, NextTag(p, t + 6), level + 1)
    else if OccursAt(p, t, DictClose) then Scan(p, key, len, NextTag(p, t + 7), level - 1)
    else if level == 1 && OccursAt(p, t, key) && ValueAt(p, t, key, len).Some? then ValueAt(p, t, key, len)
    else Scan(p, key, len, NextTag(p, t + 1), level)
  }

  /** The value ExtractKextPropString (Res, Len, Key, Plist) leaves in Res,
      p being the plist text before its NUL; None leaves Res empty. */
  function ExtractSpec(p: string, key: string, len: int): Option<string> {
    match Find(p, 0, DictOpen)
    case None => None
    case Some(d) => Scan(p, key, len, d + 6, 1)
  }

  /** ExtractKextPropString over a Res buffer of res.Length characters, of
      which len are declared usable. */
  method ExtractKextPropString(res: array<char>, len: int, key: string, plist: string)
    requires 1 <= res.Length && len <= res.Length
    modifies res
    ensures match ExtractSpec(plist, key, len)
      case None => res[0] == '\0' && res[1..] == old(res[1..])
      case Some(v) => |v| < res.Length && res[..|v|] == v && res[|v|] == '\0'
                      && res[|v| + 1..] == old(res[|v| + 1..])
  {
    res[0] := '\0';
    ghost var r0 := res[..];
    var d := Find(plist, 0, DictOpen);
    if d.None? {
      return;
    }
    var tag := d.value + 6;
    var level := 1;
    while tag < |plist|
      invariant tag <= |plist|
      invariant Scan(plist, key, len, tag, level) == ExtractSpec(plist, key, len)
      invariant res[..] == r0
      decreases |plist| - tag
    {
      var span;
      tag, level, span := ScanTag(plist, key, len, tag, level);
      if span.Some? {
        CopyValue(res, plist[span.value.0..span.value.1]);
        return;
      }
    }
  }

  /** One pass of the tag loop at tag position t and depth level: either the
      span of the value to copy, or the next tag position and its depth. */
  method ScanTag(plist: string, key: string, len: int, t: nat, level: int)
    returns (t': nat, level': int, span: Option<(nat, nat)>)
    requires t < |plist|
    ensures span.Some? ==> span.value.0 <= span.value.1 <= |plist| && span.value.1 - span.value.0 + 1 < len
                           && Scan(plist, key, len, t, level) == Some(plist[span.value.0..span.value.1])
    ensures span.None? ==> t < t' <= |plist| && Scan(plist, key, len, t, level) == Scan(plist, key, len, t', level')
  {
    span := None;
    t', level' := t, level;
    if OccursAt(plist, t, DictOpen) {
      level' := level + 1;
      t' := t + 6;
    } else if OccursAt(plist, t, DictClose) {
      level' := level - 1;
      t' := t + 7;
    } else if level == 1 && OccursAt(plist, t, key) {
      span := ReadValue(plist, t, key, len);
      if span.Some? {
        return;
      }
      t' := t + 1;
    } else {
      t' := t + 1;
    }
    ghost var t1 := t';
    while t' < |plist| && plist[t'] != '<'
      invariant t1 <= t' <= |plist|
      invariant NextTag(plist, t1) == NextTag(plist, t')
      decreases |plist| - t'
    {
      t' := t' + 1;
    }
  }

  /** BIStart and BIEnd for a key found at t: the span of the value text,
      when it fits. */
  method ReadValue(plist: string, t: nat, key: string, len: int) returns (span: Option<(nat, nat)>)
    requires OccursAt(plist, t, key)
    ensures span.None? <==> ValueAt(plist, t, key, len).None?
    ensures span.Some? ==> span.value.0 <= span.value.1 <= |plist| && span.value.1 - span.value.0 + 1 < len
                           && ValueAt(plist, t, key, len) == Some(plist[span.value.0..span.value.1])
  {
    span := None;
    var s := Find(plist, t + |key|, StringOpen);
    if s.Some? {
      var a := s.value + 8;
      var e := Find(plist, a, StringClose);
      if e.Some? && e.value - a + 1 < len {
        span := Some((a, e.value));
      }
    }
  }

  /** CopyMem (Res, BIStart, n); Res[n] = '\0'. */
  method CopyValue(res: array<char>, v: string)
    requires |v| < res.Length
    modifies res
    ensures res[..|v|] == v && res[|v|] == '\0' && res[|v| + 1..] == old(res[|v| + 1..])
  {
    var i := 0;
    while i < |v|
      invariant 0 <= i <= |v|
      invariant res[..i] == v[..i]
      invariant res[i..] == old(res[i..])
    {
      res[i] := v[i];
      i := i + 1;
    }
    res[|v|] := '\0';
  }

  // ---------------------------------------------------------------------
  // What ExtractKextPropString reads

  /** An occurrence makes the text contain the needle. */
  lemma OccursContains<T>(p: seq<T>, s: nat, n: seq<T>)
    requires OccursAt(p, s, n)
    ensures Contains(p, n)
  {
  }

  /** The text between an occurrence of o at s and the first occurrence of
      a non-empty c after it is an element o + v + c with no c inside v. */
  lemma Element<T>(p: seq<T>, s: nat, o: seq<T>, c: seq<T>, e: nat)
    requires OccursAt(p, s, o) && OccursAt(p, e, c) && s + |o| <= e && |c| > 0
    requires forall j :: s + |o| <= j < e ==> !OccursAt(p, j, c)
    ensures OccursAt(p, s, o + p[s + |o|..e] + c) && !Contains(p[s + |o|..e], c)
  {
    var a := s + |o|;
    var v := p[a..e];
    assert OccursAt(p, s, o + v + c) by {
      assert p[s..e + |c|] == p[s..a] + v + p[e..e + |c|];
    }
    assert !Contains(v, c) by {
      if IndexOf(v, c).Some? {
        var j := IndexOf(v, c).value;
        SliceWithin(p, a, v, a + j, |c|);
        assert OccursAt(p, a + j, c);
      }
    }
  }

  /** A value read at a key is the whole text of a "<string>...</string>"
      element of the plist that fits with its NUL: it holds no "</string>". */
  lemma ValueAtIsElement(p: string, t: nat, key: string, len: int)
    requires OccursAt(p, t, key)
    ensures var r := ValueAt(p, t, key, len);
      r.Some? ==> |r.value| + 1 < len && Contains(p, StringOpen + r.value + StringClose)
                  && !Contains(r.value, StringClose)
  {
    var r := ValueAt(p, t, key, len);
    if r.Some? {
      var s := Find(p, t + |key|, StringOpen).value;
      var e := Find(p, s + 8, StringClose).value;
      assert r.value == p[s + |StringOpen|..e];
      Element(p, s, StringOpen, StringClose, e);
      OccursContains(p, s, StringOpen + r.value + StringClose);
    }
  }

  /** Whatever the scan reads is such an element, and the key occurs. */
  lemma {:induction false} ScanReadsElement(p: string, key: string, len: int, t: nat, level: int)
    requires t <= |p|
    ensures var r := Scan(p, key, len, t, level);
      r.Some? ==> |r.value| + 1 < len && Contains(p, StringOpen + r.value + StringClose)
                  && !Contains(r.value, StringClose) && Contains(p, key)
    decreases |p| - t
  {
    if t == |p| {
    } else if OccursAt(p, t, DictOpen) {
      ScanReadsElement(p, key, len, NextTag(p, t + 6), level + 1);
    } else if OccursAt(p, t, DictClose) {
      ScanReadsElement(p, key, len, NextTag(p, t + 7), level - 1);
    } else if level == 1 && OccursAt(p, t, key) && ValueAt(p, t, key, len).Some? {
      ValueAtIsElement(p, t, key, len);
    } else {
      ScanReadsElement(p, key, len, NextTag(p, t + 1), level);
    }
  }

  /** ExtractKextPropString leaves Res empty unless the plist has a
      "<dict>" and the key, and then Res holds the text of a
      "<string>...</string>" element, shorter than len - 1 characters. */
  lemma ExtractReadsElement(p: string, key: string, len: int)
    ensures var r := ExtractSpec(p, key, len);
      r.Some? ==> Contains(p, DictOpen) && Contains(p, key) && |r.value| + 1 < len
                  && Contains(p, StringOpen + r.value + StringClose) && !Contains(r.value, StringClose)
  {
    var d := Find(p, 0, DictOpen);
    if d.Some? {
      ScanReadsElement(p, key, len, d.value + 6, 1);
    }
  }

  /** A slice of a text that reads w from a on is the matching slice of w. */
  lemma SliceWithin<T>(p: seq<T>, a: nat, w: seq<T>, x: nat, m: nat)
    requires a + |w| <= |p| && p[a..a + |w|] == w && a <= x && x + m <= a + |w|
    ensures p[x..x + m] == w[x - a..x - a + m]
  {
    forall i | x <= i < x + m ensures p[i] == w[i - a] {
      assert w[i - a] == p[a..a + |w|][i - a];
    }
  }

  /** One differing character rules an occurrence out. */
  lemma Mismatch<T>(p: seq<T>, t: nat, n: seq<T>, i: nat)
    requires t + i < |p| && i < |n| && p[t + i] != n[i]
    ensures !OccursAt(p, t, n)
  {
    if t + |n| <= |p| {
      assert p[t..t + |n|][i] == p[t + i];
    }
  }

  /** Find stops at the first occurrence from its start. */
  lemma {:induction false} FindFirst(p: string, from: nat, n: string, e: nat)
    requires from <= e && OccursAt(p, e, n) && forall j :: from <= j < e ==> !OccursAt(p, j, n)
    ensures Find(p, from, n) == Some(e)
    decreases e - from
  {
    if from < e {
      assert !OccursAt(p, from, n);
      FindFirst(p, from + 1, n, e);
    }
  }

  /** A plist that opens with "<dict>", then the key (a "<key>" element),
      then "<string>", reads the text up to the first "</string>" after it,
      when that fits. */
  lemma ExtractReadsFirstKey(p: string, key: string, len: int, e: nat)
    requires OccursAt(key, 0, "<key>")
    requires OccursAt(p, 0, DictOpen) && OccursAt(p, 6, key) && OccursAt(p, 6 + |key|, StringOpen)
    requires 14 + |key| <= e && OccursAt(p, e, StringClose)
    requires forall j :: 14 + |key| <= j < e ==> !OccursAt(p, j, StringClose)
    requires e - (14 + |key|) + 1 < len
    ensures ExtractSpec(p, key, len) == Some(p[14 + |key|..e])
  {
    FindFirst(p, 0, DictOpen, 0);
    assert p[7] == p[6..6 + |key|][1] == key[1] == key[..5][1] == 'k';
    Mismatch(p, 6, DictOpen, 1);
    Mismatch(p, 6, DictClose, 1);
    FindFirst(p, 6 + |key|, StringOpen, 6 + |key|);
    FindFirst(p, 14 + |key|, StringClose, e);
  }

  /** The next '<' comes no later than any '<' after t. */
  lemma {:induction false} NextTagAtMost(p: string, t: nat, u: nat)
    requires t <= u <= |p| && (u == |p| || p[u] == '<')
    ensures NextTag(p, t) <= u
    decreases u - t
  {
    if t < u && p[t] != '<' {
      NextTagAtMost(p, t + 1, u);
    }
  }

  /** Inside a nested dictionary (depth other than 1) keys are passed over:
      the scan goes on unchanged to the next "<dict>" or "</dict>". */
  lemma {:induction false} ScanSkipsNested(p: string, key: string, len: int, t: nat, u: nat, level: int)
    requires level != 1 && t <= u <= |p| && (u == |p| || p[u] == '<')
    requires forall i :: t <= i < u ==> !OccursAt(p, i, DictOpen) && !OccursAt(p, i, DictClose)
    ensures Scan(p, key, len, t, level) == Scan(p, key, len, u, level)
    decreases u - t
  {
    if t < u {
      NextTagAtMost(p, t + 1, u);
      ScanSkipsNested(p, key, len, NextTag(p, t + 1), u, level);
    }
  }

  /** The dictionary depth at t of a scan that starts at from at depth 1:
      one more for every "<dict>", one less for every "</dict>" that starts
      in between. */
  function Depth(p: string, from: nat, t: nat): int
    requires from <= t <= |p|
    decreases t - from
  {
    if t == from then 1
    else Depth(p, from, t - 1)
         + (if OccursAt(p, t - 1, DictOpen) then 1 else if OccursAt(p, t - 1, DictClose) then -1 else 0)
  }

  /** A tag the scan from from stops at, at dictionary depth 1, that is the
      key and has a value that fits. */
  predicate KeyHit(p: string, from: nat, t: nat, key: string, len: int) {
    && from <= t < |p| && (t == from || p[t] == '<') && Depth(p, from, t) == 1
    && !OccursAt(p, t, DictOpen) && !OccursAt(p, t, DictClose)
    && OccursAt(p, t, key) && ValueAt(p, t, key, len).Some?
  }

  /** NextTag passes over no '<' and stops at one, unless at the end. */
  lemma {:induction false} NextTagSkips(p: string, t: nat)
    requires t <= |p|
    ensures forall i :: t <= i < NextTag(p, t) ==> p[i] != '<'
    ensures NextTag(p, t) < |p| ==> p[NextTag(p, t)] == '<'
    decreases |p| - t
  {
    if t < |p| && p[t] != '<' {
      NextTagSkips(p, t + 1);
    }
  }

  /** Text without a '<' opens and closes no dictionary. */
  lemma {:induction false} DepthFlat(p: string, from: nat, a: nat, b: nat)
    requires from <= a <= b <= |p|
    requires forall i :: a <= i < b ==> p[i] != '<'
    ensures Depth(p, from, b) == Depth(p, from, a)
    decreases b - a
  {
    if a < b {
      DepthFlat(p, from, a, b - 1);
      Mismatch(p, b - 1, DictOpen, 0);
      Mismatch(p, b - 1, DictClose, 0);
    }
  }

  /** Past a tag of n that starts with its only '<', the scan's next stop
      keeps the depth the tag leaves. */
  lemma TagPassed(p: string, from: nat, t: nat, n: string)
    requires from <= t && OccursAt(p, t, n) && |n| > 0
    requires forall i :: 1 <= i < |n| ==> n[i] != '<'
    ensures Depth(p, from, NextTag(p, t + |n|)) == Depth(p, from, t + 1)
    ensures forall i :: t < i < NextTag(p, t + |n|) ==> p[i] != '<'
    ensures NextTag(p, t + |n|) < |p| ==> p[NextTag(p, t + |n|)] == '<'
  {
    forall i | t + 1 <= i < t + |n| ensures p[i] != '<' {
      assert p[i] == p[t..t + |n|][i - t];
    }
    NextTagSkips(p, t + |n|);
    DepthFlat(p, from, t + 1, NextTag(p, t + |n|));
  }

  /** r is the value of the first key hit at or after t, or None when there
      is no hit there. */
  predicate FirstHit(p: string, key: string, len: int, from: nat, t: nat, r: Option<string>) {
    && (r.None? <==> forall u :: t <= u < |p| ==> !KeyHit(p, from, u, key, len))
    && (r.Some? ==> exists u :: t <= u < |p| && KeyHit(p, from, u, key, len) && r == ValueAt(p, u, key, len)
                                && forall w :: t <= w < u ==> !KeyHit(p, from, w, key, len))
  }

  /** Hits looked for from t' are looked for from t when there is none in
      between. */
  lemma HitsLater(p: string, key: string, len: int, from: nat, t: nat, t': nat, r: Option<string>)
    requires t <= t' && FirstHit(p, key, len, from, t', r)
    requires forall u :: t <= u < t' ==> !KeyHit(p, from, u, key, len)
    ensures FirstHit(p, key, len, from, t, r)
  {
  }

  /** No hit lies between a stop that is no hit and the next '<'. */
  lemma NoHitBetween(p: string, key: string, len: int, from: nat, t: nat, t': nat)
    requires from <= t <= t' <= |p| && !KeyHit(p, from, t, key, len)
    requires forall i :: t < i < t' ==> p[i] != '<'
    ensures forall u :: t <= u < t' ==> !KeyHit(p, from, u, key, len)
  {
  }

  /** The scan's next stop after a stop t that is no hit. */
  function NextStop(p: string, t: nat): (r: nat)
    requires t < |p|
    ensures t < r <= |p|
  {
    if OccursAt(p, t, DictOpen) then NextTag(p, t + 6)
    else if OccursAt(p, t, DictClose) then NextTag(p, t + 7)
    else NextTag(p, t + 1)
  }

  /** From a stop that is no hit the scan goes on at the next stop, at that
      stop's depth, and passes no hit on the way. */
  lemma StepAside(p: string, key: string, len: int, from: nat, t: nat)
    requires from <= t < |p| && (t == from || p[t] == '<') && !KeyHit(p, from, t, key, len)
    ensures var t' := NextStop(p, t);
      && (t' == |p| || p[t'] == '<')
      && Scan(p, key, len, t, Depth(p, from, t)) == Scan(p, key, len, t', Depth(p, from, t'))
      && forall u :: t <= u < t' ==> !KeyHit(p, from, u, key, len)
  {
    var t' := NextStop(p, t);
    if OccursAt(p, t, DictOpen) {
      TagPassed(p, from, t, DictOpen);
    } else if OccursAt(p, t, DictClose) {
      TagPassed(p, from, t, DictClose);
    } else {
      NextTagSkips(p, t + 1);
      DepthFlat(p, from, t + 1, t');
    }
    NoHitBetween(p, key, len, from, t, t');
  }

  /** Scanning from a stop t at its depth finds the value of the first key
      hit at or after t, and nothing when there is none. */
  lemma {:induction false} ScanFindsFirstHit(p: string, key: string, len: int, from: nat, t: nat)
    requires from <= t <= |p| && (t == from || t == |p| || p[t] == '<')
    ensures FirstHit(p, key, len, from, t, Scan(p, key, len, t, Depth(p, from, t)))
    decreases |p| - t
  {
    if t == |p| {
    } else if KeyHit(p, from, t, key, len) {
      assert Scan(p, key, len, t, Depth(p, from, t)) == ValueAt(p, t, key, len);
    } else {
      var t' := NextStop(p, t);
      StepAside(p, key, len, from, t);
      ScanFindsFirstHit(p, key, len, from, t');
      HitsLater(p, key, len, from, t, t', Scan(p, key, len, t', Depth(p, from, t')));
    }
  }

  /** Where the scan starts: just past the first "<dict>" of the text. */
  function DictBody(p: string): (r: Option<nat>)
    ensures r.None? <==> !Contains(p, DictOpen)
    ensures r.Some? ==> 6 <= r.value <= |p| && OccursAt(p, r.value - 6, DictOpen)
                        && forall j :: 0 <= j < r.value - 6 ==> !OccursAt(p, j, DictOpen)
  {
    match Find(p, 0, DictOpen)
    case None => None
    case Some(d) => OccursContains(p, d, DictOpen); Some(d + 6)
  }

  /** ExtractKextPropString reads the value of the first key at depth 1 of
      the first dictionary whose value fits, and leaves Res empty when the
      plist has no "<dict>" or no such key. */
  lemma ExtractTakesFirstKey(p: string, key: string, len: int)
    ensures var r := ExtractSpec(p, key, len);
      && (DictBody(p).None? ==> r.None?)
      && (DictBody(p).Some? ==>
            var from := DictBody(p).value;
            && (r.None? <==> forall u :: from <= u < |p| ==> !KeyHit(p, from, u, key, len))
            && (r.Some? ==> exists u :: from <= u < |p| && KeyHit(p, from, u, key, len)
                                        && r == ValueAt(p, u, key, len)
                                        && forall w :: from <= w < u ==> !KeyHit(p, from, w, key, len)))
  {
    if DictBody(p).Some? {
      var from := DictBody(p).value;
      ScanFindsFirstHit(p, key, len, from, from);
    }
  }

  // ---------------------------------------------------------------------
  // BlockListedKextCaches

  /** PropCFBundleIdentifierKey. */
  const BundleIdKey: string := "<key>CFBundleIdentifier</key>"

  /** b with character i of the first n in its text overwritten by c. */
  function Spoil(b: seq<char>, n: string, i: nat, c: char): (r: seq<char>)
    requires i < |n|
    ensures |r| == |b|
  {
    match IndexOf(b[..TextEnd(b)], n)
    case None => b
    case Some(k) => b[k + i := c]
  }

  /** The plist after BlockListedKextCaches: the "C" of the first
      CFBundleIdentifier key in the text becomes "_". */
  function Blocked(b: seq<char>): (r: seq<char>)
    ensures |r| == |b|
  {
    Spoil(b, BundleIdKey, 5, '_')
  }

  /** BlockListedKextCaches over the plist buffer. */
  method BlockListedKextCaches(plist: array<char>)
    modifies plist
    ensures plist[..] == Blocked(old(plist[..]))
  {
    var value := IndexOf(plist[..TextEnd(plist[..])], BundleIdKey);
    if value.None? {
      return;
    }
    plist[value.value + 5] := '_';
  }

  /** Overwriting a character of the first occurrence of n with one that n
      does not contain leaves no occurrence at or before it. */
  lemma FirstOccurrenceMoves(T: string, n: string, k: nat, i: nat, c: char)
    requires IndexOf(T, n) == Some(k) && i < |n| && forall x :: 0 <= x < |n| ==> n[x] != c
    ensures var T' := T[k + i := c]; IndexOf(T', n).None? || IndexOf(T', n).value > k
  {
    assert OccursAt(T, k, n);
    var T' := T[k + i := c];
    forall j | 0 <= j <= k ensures !OccursAt(T', j, n) {
      if j + |n| <= k + i {
        assert T'[j..j + |n|] == T[j..j + |n|];
        assert !OccursAt(T, j, n);
      } else {
        Mismatch(T', j, n, k + i - j);
      }
    }
  }

  /** The key is 29 characters; the sixth is the 'C' of CFBundleIdentifier
      and none is '_'. */
  lemma BundleIdKeyChars()
    ensures |BundleIdKey| == 29 && BundleIdKey[5] == 'C'
    ensures forall x :: 0 <= x < |BundleIdKey| ==> BundleIdKey[x] != '_'
  {
  }

  /** Spoiling the first n in the text, with a character other than NUL
      that n does not contain, changes that one character only; the text
      keeps its length and its first n, if any, comes later. */
  lemma SpoilFirst(b: seq<char>, n: string, i: nat, c: char)
    requires i < |n| && c != '\0' && forall x :: 0 <= x < |n| ==> n[x] != c
    ensures IndexOf(b[..TextEnd(b)], n).None? ==> Spoil(b, n, i, c) == b
    ensures IndexOf(b[..TextEnd(b)], n).Some? ==>
      var k := IndexOf(b[..TextEnd(b)], n).value;
      var b' := Spoil(b, n, i, c);
      && b'[k + i] == c
      && (forall j :: 0 <= j < |b| && j != k + i ==> b'[j] == b[j])
      && TextEnd(b') == TextEnd(b)
      && (IndexOf(b'[..TextEnd(b')], n).None? || IndexOf(b'[..TextEnd(b')], n).value > k)
  {
    var T := b[..TextEnd(b)];
    if IndexOf(T, n).Some? {
      var k := IndexOf(T, n).value;
      var b' := b[k + i := c];
      TextEndSame(b, b', k + i, c);
      assert b'[..TextEnd(b')] == T[k + i := c];
      FirstOccurrenceMoves(T, n, k, i, c);
    }
  }

  /** Blocking spoils exactly the first key of the text: one character
      changes, from 'C' to '_', the text keeps its length, and the first key
      left in it, if any, comes later. A plist without the key is left
      alone. */
  lemma BlockSpoilsFirstKey(b: seq<char>)
    ensures IndexOf(b[..TextEnd(b)], BundleIdKey).None? ==> Blocked(b) == b
    ensures IndexOf(b[..TextEnd(b)], BundleIdKey).Some? ==>
      var k := IndexOf(b[..TextEnd(b)], BundleIdKey).value;
      var b' := Blocked(b);
      && b'[k + 5] == '_' && b[k + 5] == 'C'
      && (forall j :: 0 <= j < |b| && j != k + 5 ==> b'[j] == b[j])
      && TextEnd(b') == TextEnd(b)
      && (IndexOf(b'[..TextEnd(b')], BundleIdKey).None? || IndexOf(b'[..TextEnd(b')], BundleIdKey).value > k)
  {
    BundleIdKeyChars();
    SpoilFirst(b, BundleIdKey, 5, '_');
    var T := b[..TextEnd(b)];
    if IndexOf(T, BundleIdKey).Some? {
      var k := IndexOf(T, BundleIdKey).value;
      assert b[k + 5] == 'C' by {
        assert OccursAt(T, k, BundleIdKey);
        assert b[k + 5] == T[k..k + 29][5];
      }
    }
  }

  /** Writing a non-NUL character inside the text keeps the text's length. */
  lemma {:induction false} TextEndSame(b: seq<char>, b': seq<char>, i: nat, c: char)
    requires i < TextEnd(b) && c != '\0' && b' == b[i := c]
    ensures TextEnd(b') == TextEnd(b)
  {
    if i > 0 {
      assert b'[1..] == b[1..][i - 1 := c];
      TextEndSame(b[1..], b'[1..], i - 1, c);
    }
  }
}
