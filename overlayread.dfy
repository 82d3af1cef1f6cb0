/** What FSI_FP_Read produces: the merged read of an injection point (source
    entries first, then target entries), the one-shot retry with a fresh
    buffer after the driver refuses the caller's one, and the force-load
    rewrite of a kext's Info.plist. */
module OverlayRead {
  import opened Efi
  import opened Native

  // ---------------------------------------------------------------------
  // Merged read at the injection point

  datatype DualResult = DualResult(status: Status, size: nat, bytes: seq<byte>, srcPos: nat, tgtPos: nat)

  /** Read the source; when it yields 0 bytes, whatever its status, read the
      target with the original size. */
  function DualReadSpec(sNode: Option<Node>, sPos: nat, tNode: Option<Node>, tPos: nat, size: nat,
                        sRefused: bool, tRefused: bool): (r: DualResult)
    ensures |r.bytes| <= size
  {
    var r1 := ReadSpec(sNode, sPos, size, sRefused);
    if r1.size == 0 then
      var r2 := ReadSpec(tNode, tPos, size, tRefused);
      DualResult(r2.status, r2.size, r2.bytes, r1.pos, r2.pos)
    else DualResult(r1.status, r1.size, r1.bytes, r1.pos, tPos)
  }

  /** Every entry is non-empty and fits a buffer of the given size. */
  predicate AllFit(es: seq<seq<byte>>, size: nat) {
    forall i :: 0 <= i < |es| ==> 0 < |es[i]| <= size
  }

  /** The entries a caller collects by reading a merged directory until a read
      yields 0 bytes. */
  function Listing(s: seq<seq<byte>>, sp: nat, t: seq<seq<byte>>, tp: nat, size: nat): seq<seq<byte>>
    requires sp <= |s| && tp <= |t| && AllFit(s, size) && AllFit(t, size)
    decreases |s| - sp + |t| - tp
  {
    var r := DualReadSpec(Some(DirNode(s)), sp, Some(DirNode(t)), tp, size, false, false);
    if r.size == 0 then []
    else
      assert sp < |s| ==> r.srcPos == sp + 1 && r.tgtPos == tp;
      assert sp >= |s| ==> r.srcPos == sp && tp < |t| && r.tgtPos == tp + 1;
      [r.bytes] + Listing(s, r.srcPos, t, r.tgtPos, size)
  }

  /** Reading an injection point to the end lists every source entry, then
      every target entry, each once and in order; names present on both sides
      are listed twice. */
  lemma {:induction false} ListingIsSourceThenTarget(s: seq<seq<byte>>, sp: nat, t: seq<seq<byte>>, tp: nat, size: nat)
    requires sp <= |s| && tp <= |t| && AllFit(s, size) && AllFit(t, size)
    ensures Listing(s, sp, t, tp, size) == s[sp..] + t[tp..]
    decreases |s| - sp + |t| - tp
  {
    var r := DualReadSpec(Some(DirNode(s)), sp, Some(DirNode(t)), tp, size, false, false);
    if sp < |s| {
      ListingIsSourceThenTarget(s, sp + 1, t, tp, size);
      assert s[sp..] == [s[sp]] + s[sp + 1..];
    } else if tp < |t| {
      ListingIsSourceThenTarget(s, sp, t, tp + 1, size);
      assert t[tp..] == [t[tp]] + t[tp + 1..];
    }
  }

  // ---------------------------------------------------------------------
  // One-shot retry

  /** A single-backed read: when the driver answers EFI_INVALID_PARAMETER with
      size 0, the read is repeated once into a freshly allocated buffer, which
      the driver never refuses. */
  function RetryReadSpec(node: Option<Node>, pos: nat, size: nat, refused: bool): ReadResult {
    var r1 := ReadSpec(node, pos, size, refused);
    if r1.status == InvalidParameter && r1.size == 0 then ReadSpec(node, r1.pos, size, false)
    else r1
  }

  /** The retry makes a refused buffer indistinguishable from an accepted one. */
  lemma RetryHidesRefusal(node: Option<Node>, pos: nat, size: nat, refused: bool)
    ensures RetryReadSpec(node, pos, size, refused) == ReadSpec(node, pos, size, false)
  {
  }

  // ---------------------------------------------------------------------
  // Force-load rewrite

  const SafeBoot: seq<byte> := AsciiBytes("<string>Safe Boot</string>")
  const SafeBootRoot: seq<byte> := AsciiBytes("<string>Root</string>     ")
  const NetworkRoot: seq<byte> := AsciiBytes("<string>Network-Root</string>")
  const NetworkRootRoot: seq<byte> := AsciiBytes("<string>Root</string>        ")

  /** Overwriting inside the first n bytes is overwriting the prefix. */
  lemma SplicePrefix(b: seq<byte>, n: nat, k: nat, w: seq<byte>)
    requires k + |w| <= n <= |b|
    ensures Splice(b, k, w)[..n] == Splice(b[..n], k, w)
    ensures Splice(b, k, w)[n..] == b[n..]
  {
    assert Splice(b, k, w)[..n] == b[..k] + w + b[k + |w|..n];
  }

  /** One rewrite: the first "<string>Safe Boot</string>" becomes the padded
      "<string>Root</string>"; failing that, the first
      "<string>Network-Root</string>" does. */
  function Rewrite(b: seq<byte>): seq<byte> {
    match IndexOf(b, SafeBoot)
    case Some(k) => Splice(b, k, SafeBootRoot)
    case None =>
      match IndexOf(b, NetworkRoot)
      case Some(k) => Splice(b, k, NetworkRootRoot)
      case None => b
  }

  /** The rewrite never changes the size and changes only the one window. */
  lemma RewriteIsInPlace(b: seq<byte>)
    ensures |Rewrite(b)| == |b|
    ensures IndexOf(b, SafeBoot).Some? ==> var k := IndexOf(b, SafeBoot).value;
      Rewrite(b)[k..k + 26] == SafeBootRoot
      && forall i :: 0 <= i < |b| && !(k <= i < k + 26) ==> Rewrite(b)[i] == b[i]
    ensures IndexOf(b, SafeBoot).None? && IndexOf(b, NetworkRoot).Some? ==> var k := IndexOf(b, NetworkRoot).value;
      Rewrite(b)[k..k + 29] == NetworkRootRoot
      && forall i :: 0 <= i < |b| && !(k <= i < k + 29) ==> Rewrite(b)[i] == b[i]
  {
  }

  /** The rewrite changes the text exactly when one of the two properties is
      present. */
  lemma RewriteChangesIffPresent(b: seq<byte>)
    ensures Rewrite(b) != b <==> Contains(b, SafeBoot) || Contains(b, NetworkRoot)
  {
    MarkerBytes();
    match IndexOf(b, SafeBoot)
    case Some(k) => SpliceChanges(b, k, SafeBoot, SafeBootRoot);
    case None =>
      match IndexOf(b, NetworkRoot)
      case Some(k) => SpliceChanges(b, k, NetworkRoot, NetworkRootRoot);
      case None =>
  }

  /** The byte at offset 8 ("S" of Safe Boot, "N" of Network-Root) is the one
      the replacement ("R" of Root) changes. */
  lemma MarkerBytes()
    ensures |SafeBoot| == |SafeBootRoot| == 26 && |NetworkRoot| == |NetworkRootRoot| == 29
    ensures SafeBoot[8] == 83 && NetworkRoot[8] == 78 && SafeBootRoot[8] == 82 && NetworkRootRoot[8] == 82
  {
  }

  /** Overwriting an occurrence of n with a w that differs from it changes
      the text. */
  lemma SpliceChanges(b: seq<byte>, k: nat, n: seq<byte>, w: seq<byte>)
    requires OccursAt(b, k, n) && |w| == |n| && 8 < |n| && w[8] != n[8]
    ensures Splice(b, k, w) != b
  {
    var r := Splice(b, k, w);
    assert r[k + 8] == r[k..k + |w|][8] == w[8];
    assert b[k + 8] == b[k..k + |n|][8] == n[8];
  }

  /** The loop over ForceLoadKexts: once per entry that occurs in the file
      name (StrStr, case-sensitive). */
  function ForceLoadAll(b: seq<byte>, entries: seq<string>, fname: string): (r: seq<byte>)
    ensures |r| == |b|
    decreases |entries|
  {
    if entries == [] then b
    else
      RewriteIsInPlace(b);
      var b' := if Contains(fname, entries[0]) then Rewrite(b) else b;
      ForceLoadAll(b', entries[1..], fname)
  }

  /** A file whose name contains no entry is returned untouched. */
  lemma {:induction false} ForceLoadOnlyListedFiles(b: seq<byte>, entries: seq<string>, fname: string)
    requires forall i :: 0 <= i < |entries| ==> !Contains(fname, entries[i])
    ensures ForceLoadAll(b, entries, fname) == b
  {
    if entries != [] {
      ForceLoadOnlyListedFiles(b, entries[1..], fname);
    }
  }

  /** The text the rewrite searches, as the source computes it: AsciiStrStr
      runs up to the first NUL in the caller's buffer, which need not be among
      the bytes just read. It is the whole buffer exactly when the buffer
      holds no NUL; AsciiStrStr then goes on reading past its end. */
  function AsciiZ(b: seq<byte>): (r: nat)
    ensures r <= |b|
    ensures forall i :: 0 <= i < r ==> b[i] != 0
    ensures r < |b| ==> b[r] == 0
    ensures r == |b| <==> forall i :: 0 <= i < |b| ==> b[i] != 0
  {
    if b == [] || b[0] == 0 then 0 else 1 + AsciiZ(b[1..])
  }

  /** The rewrite as written, and whether its searches run off the end of a
      buffer that holds no NUL. */
  datatype Searched = Searched(bytes: seq<byte>, overrun: bool)

  /** Over a buffer with no NUL, the first AsciiStrStr of a matching entry
      reads past the end exactly when "<string>Safe Boot</string>" does not
      occur in it: a search that finds its pattern stops at it, one that
      does not runs on until it meets a NUL. */
  function SearchesPastEnd(b: seq<byte>, entries: seq<string>, fname: string): bool
    decreases |entries|
  {
    if entries == [] then false
    else if Contains(fname, entries[0]) then IndexOf(b, SafeBoot).None? || SearchesPastEnd(Rewrite(b), entries[1..], fname)
    else SearchesPastEnd(b, entries[1..], fname)
  }

  /** The force-load effect on the whole caller buffer as written: the text up
      to the first NUL is rewritten, whatever the read produced; with no NUL
      in the buffer a search that fails reads past it, which is flagged. What
      it would find there is not modelled. */
  function ForceLoadBufferAsWritten(buf: seq<byte>, n: nat, entries: seq<string>, fname: string): (r: Searched)
    ensures |r.bytes| == |buf|
    ensures r.overrun <==> (forall i :: 0 <= i < |buf| ==> buf[i] != 0) && SearchesPastEnd(buf, entries, fname)
  {
    var z := AsciiZ(buf);
    Searched(ForceLoadAll(buf[..z], entries, fname) + buf[z..], z == |buf| && SearchesPastEnd(buf, entries, fname))
  }

  /** The corrected effect: only the n bytes the read produced are searched. */
  function ForceLoadBuffer(buf: seq<byte>, n: nat, entries: seq<string>, fname: string): (r: seq<byte>)
    requires n <= |buf|
    ensures |r| == |buf| && r[n..] == buf[n..]
  {
    ForceLoadAll(buf[..n], entries, fname) + buf[n..]
  }

  /** The source's search can rewrite bytes that the read did not produce: a
      successful read of 0 bytes (end of file) into a buffer that still holds
      an earlier plist. */
  lemma ForceLoadAsWrittenReachesPastRead()
    ensures var buf := SafeBoot + [0];
      ForceLoadBufferAsWritten(buf, 0, ["Kext"], "Kext").bytes != buf
      && ForceLoadBuffer(buf, 0, ["Kext"], "Kext") == buf
  {
    StalePlistRewritten(SafeBoot + [0], ["Kext"]);
  }

  lemma StalePlistRewritten(buf: seq<byte>, entries: seq<string>)
    requires buf == SafeBoot + [0] && entries == ["Kext"]
    ensures ForceLoadBufferAsWritten(buf, 0, entries, "Kext").bytes != buf
    ensures ForceLoadBuffer(buf, 0, entries, "Kext") == buf
  {
    assert AsciiZ(buf) == 26 by {
      forall i | 0 <= i < 26 ensures buf[i] != 0 {
        assert buf[i] == SafeBoot[i];
      }
      AsciiZStops(buf, 26);
    }
    var pre := buf[..26];
    assert pre == SafeBoot;
    assert Contains("Kext", "Kext") by { assert OccursAt("Kext", 0, "Kext"); }
    assert IndexOf(pre, SafeBoot) == Some(0) by { assert pre[..26] == SafeBoot; }
    assert entries[1..] == [];
    assert ForceLoadAll(pre, entries, "Kext") == Rewrite(pre);
    RewriteIsInPlace(pre);
    var w := ForceLoadBufferAsWritten(buf, 0, entries, "Kext").bytes;
    assert w == Rewrite(pre) + buf[26..];
    assert w[8] == SafeBootRoot[8];
    assert buf[8] == SafeBoot[8];
  }

  /** A full read of a file that fills the buffer leaves no NUL in it: as
      written the search for "<string>Safe Boot</string>" in "abc" runs past
      the three bytes read; the corrected search looks at those three only
      and leaves them as they are. */
  lemma ForceLoadAsWrittenOverreads()
    ensures var buf: seq<byte> := [97, 98, 99];
      ForceLoadBufferAsWritten(buf, 3, ["Kext"], "Kext").overrun
      && ForceLoadBuffer(buf, 3, ["Kext"], "Kext") == buf
  {
    var buf: seq<byte> := [97, 98, 99];
    assert Contains("Kext", "Kext") by { assert OccursAt("Kext", 0, "Kext"); }
    assert IndexOf(buf, SafeBoot).None?;
    assert ["Kext"][1..] == [];
    assert buf[..3] == buf;
    assert Rewrite(buf) == buf;
  }

  lemma AsciiZStops(b: seq<byte>, z: nat)
    requires z < |b| && b[z] == 0 && forall i :: 0 <= i < z ==> b[i] != 0
    ensures AsciiZ(b) == z
  {
    if z > 0 {
      AsciiZStops(b[1..], z - 1);
    }
  }
}
