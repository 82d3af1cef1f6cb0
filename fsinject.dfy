/** The FSInject overlay: FSI_SIMPLE_FILE_SYSTEM_PROTOCOL (OverlayVolume),
    FSI_FILE_PROTOCOL (OverlayFile), the string lists of FSINJECTION_PROTOCOL,
    and the memory pool their allocations come from. */
module FSInject {
  import opened Efi
  import opened Paths
  import opened Native
  import opened OpenSpec
  import opened OverlayRead

  /** AllocatePool/FreePool. budget is the number of further checked
      allocations that succeed; blocks counts allocated blocks not yet freed,
      so a path that returns with more blocks than it holds leaks. */
  class Pool {
    var budget: nat
    ghost var blocks: int

    constructor (budget: nat)
      ensures this.budget == budget && blocks == 0
    {
      this.budget := budget;
      blocks := 0;
    }

    /** A checked allocation (AllocateZeroPool whose NULL result is tested). */
    method Allocate() returns (ok: bool)
      modifies this
      ensures ok == (old(budget) > 0)
      ensures budget == old(budget) - (if ok then 1 else 0)
      ensures blocks == old(blocks) + (if ok then 1 else 0)
    {
      ok := budget > 0;
      if ok {
        budget := budget - 1;
        blocks := blocks + 1;
      }
    }

    /** A copy the caller does not check (name copies), taken as succeeding. */
    method AllocateCopy()
      modifies this
      ensures budget == old(budget) && blocks == old(blocks) + 1
    {
      blocks := blocks + 1;
    }

    method Free()
      modifies this
      ensures budget == old(budget) && blocks == old(blocks) - 1
    {
      blocks := blocks - 1;
    }

    /** Several FreePool calls in a row. */
    method FreeSeveral(n: nat)
      modifies this`blocks
      ensures budget == old(budget) && blocks == old(blocks) - n
    {
      blocks := blocks - n;
    }
  }

  // ---------------------------------------------------------------------
  // String lists (FSI_STRING_LIST)

  class StringList {
    var entries: seq<Path>

    constructor ()
      ensures entries == []
    {
      entries := [];
    }
  }

  /** FSInjectionCreateStringList: an empty list, or NULL when the allocation
      fails. */
  method CreateStringList(pool: Pool) returns (l: StringList?)
    modifies pool
    ensures l == null <==> old(pool.budget) == 0
    ensures l != null ==> fresh(l) && l.entries == []
    ensures pool.blocks == old(pool.blocks) + (if l != null then 1 else 0)
  {
    var ok := pool.Allocate();
    if !ok {
      return null;
    }
    l := new StringList();
  }

  /** FSInjectionAddStringToList: appends a copy of s at the tail. A NULL list
      or string gives NULL and allocates nothing; so does a failed entry
      allocation. */
  method AddStringToList(list: StringList?, s: Option<Path>, pool: Pool) returns (r: StringList?)
    modifies pool, list
    ensures list == null || s.None? ==> r == null && pool.blocks == old(pool.blocks) && pool.budget == old(pool.budget)
    ensures list != null && s.Some? ==> (r != null <==> old(pool.budget) > 0)
    ensures r != null ==> r == list && list.entries == old(list.entries) + [s.value]
    ensures r == null && list != null ==> list.entries == old(list.entries)
    ensures pool.blocks == old(pool.blocks) + (if r != null then 2 else 0)
  {
    if list == null || s.None? {
      return null;
    }
    var ok := pool.Allocate();
    if !ok {
      return null;
    }
    pool.AllocateCopy();
    list.entries := list.entries + [s.value];
    r := list;
  }

  function Entries(l: StringList?): seq<Path>
    reads l
  {
    if l == null then [] else l.entries
  }

  // ---------------------------------------------------------------------
  // The file handle

  /** The backing handles t and s are exactly those the plan names. */
  ghost predicate Backs(t: Handle?, s: Handle?, p: Plan) {
    (t == null <==> p.tgtPath.None?) && (t != null ==> t.path == p.tgtPath.value)
    && (s == null <==> p.srcPath.None?) && (s != null ==> s.path == p.srcPath.value)
  }

  class OverlayFile {
    var fs: OverlayVolume?
    var fName: Option<Path>
    var isDir: bool
    var tgtFP: Handle?
    var srcFP: Handle?
    var fromTgt: bool

    constructor ()
      ensures fs == null && fName == None && !isDir && tgtFP == null && srcFP == null && !fromTgt
    {
      fs, fName, isDir, tgtFP, srcFP, fromTgt := null, None, false, null, null, false;
    }

    function ParentTgt(): Option<Path>
      reads this
    {
      if tgtFP != null then Some(tgtFP.path) else None
    }

    /** The new handle is named name and carries what the plan names. */
    ghost predicate Realizes(p: Plan, name: Path)
      reads this
    {
      fName == Some(name) && fromTgt == p.fromTgt && !isDir && Backs(tgtFP, srcFP, p)
    }

    /** FSI_FP_Open. */
    method Open(fileName: Path, mode: Mode) returns (st: Status, nh: OverlayFile?)
      requires fs != null && fs.Inv() && this in fs.handles && fs.tgt.Valid() && fs.src.Valid()
      modifies fs`kextsInjected, fs`handles, fs`owner, fs.tgt`live, fs.src`live, fs.pool
      ensures var name := NormalizedFName(old(fName.value), fileName);
        var plan := ResolveOpen(old(fs.Configuration()), old(fs.tgt.View()), old(fs.src.View()), old(ParentTgt()),
                                name, mode, old(fs.pool.budget) > 0);
        st == plan.status && (nh != null <==> st == Success)
        && (nh != null ==>
              fresh(nh) && nh.fs == fs && nh.Realizes(plan, name)
              && (nh.tgtFP != null ==> fresh(nh.tgtFP)) && (nh.srcFP != null ==> fresh(nh.srcFP)))
        && fs.kextsInjected == (old(fs.kextsInjected) || plan.injected)
        && fs.pool.budget == old(fs.pool.budget) - (if Blacklisted(name, old(fs.Configuration()).blacklist) || old(fs.pool.budget) == 0 then 0 else 1)
      ensures fs.handles == old(fs.handles) + (if nh != null then {nh} else {})
      ensures fs.tgt.live == old(fs.tgt.live) + (if nh != null && nh.tgtFP != null then {nh.tgtFP} else {})
      ensures fs.src.live == old(fs.src.live) + (if nh != null && nh.srcFP != null then {nh.srcFP} else {})
      ensures fs.pool.blocks == old(fs.pool.blocks) + (if nh != null then 2 else 0)
      ensures fs.Inv()
    {
      st, nh := OpenPrologue(fileName);
      if nh == null {
        return;
      }
      var newName := NormalizedFName(fName.value, fileName);
      NormalizedIsAbsolute(fName.value, fileName);
      // 2. - 6.
      st := fs.Populate(nh, tgtFP, newName, mode);
      if IsError(st) {
        nh := null;
      }
    }

    /** FSI_FP_Open up to the allocation of the new handle: the normalized
        name, the blacklist (EFI_NOT_FOUND) and the allocation of the handle
        (EFI_OUT_OF_RESOURCES); both error returns free the name. */
    method OpenPrologue(fileName: Path) returns (st: Status, nw: OverlayFile?)
      requires fs != null && fs.Inv() && this in fs.handles
      modifies fs.pool
      ensures var name := NormalizedFName(fName.value, fileName);
        st == if Blacklisted(name, fs.Configuration().blacklist) then NotFound
              else if old(fs.pool.budget) == 0 then OutOfResources else Success
      ensures nw != null <==> st == Success
      ensures nw != null ==> fresh(nw) && nw.fs == fs && nw.fName == Some(NormalizedFName(fName.value, fileName))
      ensures nw != null ==> !nw.isDir && nw.tgtFP == null && nw.srcFP == null
      ensures fs.pool.budget == old(fs.pool.budget) - (if nw != null then 1 else 0)
      ensures fs.pool.blocks == old(fs.pool.blocks) + (if nw != null then 2 else 0)
    {
      var newName := NormalizedFName(fName.value, fileName);
      fs.pool.AllocateCopy();   // GetNormalizedFName's result
      var black := fs.IsBlacklisted(newName);
      if black {
        fs.pool.Free();
        return NotFound, null;
      }
      nw := CreateFSInjectFP(fs.pool);
      if nw == null {
        fs.pool.Free();
        return OutOfResources, null;
      }
      nw.fs, nw.fName := fs, Some(newName);
      st := Success;
    }

    /** FSI_FP_Open up to the allocation of the new handle, as written: the
        blacklist and allocation-failure returns keep the normalized name
        allocated. */
    method OpenPrologueAsWritten(fileName: Path) returns (st: Status, nw: OverlayFile?)
      requires fs != null && fs.Inv() && this in fs.handles
      modifies fs.pool
      ensures var name := NormalizedFName(old(fName.value), fileName);
        Blacklisted(name, old(fs.Configuration()).blacklist) ==> st == NotFound && nw == null
      ensures st == NotFound || st == OutOfResources ==> nw == null && fs.pool.blocks == old(fs.pool.blocks) + 1
      ensures nw != null ==> st == Success && fresh(nw) && fs.pool.blocks == old(fs.pool.blocks) + 2
    {
      st := Success;
      var newName := NormalizedFName(fName.value, fileName);
      fs.pool.AllocateCopy();
      var black := fs.IsBlacklisted(newName);
      if black {
        return NotFound, null;
      }
      nw := CreateFSInjectFP(fs.pool);
      if nw == null {
        return OutOfResources, null;
      }
    }

    /** FSI_FP_Close: closes both backing handles, reports the target's Close
        status (the source's is ignored), frees the name and the handle. */
    method Close() returns (st: Status)
      requires fs != null && fs.Inv() && this in fs.handles
      modifies this`tgtFP, this`srcFP, this`fName, fs`handles, fs`owner, fs.tgt`live, fs.src`live, fs.pool`blocks
      ensures st == (if old(tgtFP) != null then old(fs.tgt.closeStatus) else Success)
      ensures fs.handles == old(fs.handles) - {this}
      ensures fs.tgt.live == old(fs.tgt.live) - (if old(tgtFP) != null then {old(tgtFP)} else {})
      ensures fs.src.live == old(fs.src.live) - (if old(srcFP) != null then {old(srcFP)} else {})
      ensures tgtFP == null && srcFP == null && fName.None?
      ensures fs.pool.blocks == old(fs.pool.blocks) - 2
      ensures fs.Inv()
    {
      var t, s := Detach();
      st := Success;
      if t != null {
        st := fs.CloseNative(t);
      }
      if s != null {
        var _ := fs.CloseNative(s);
      }
      fs.pool.FreeSeveral(2);   // the name, then the handle
    }

    /** FSI_FP_Delete: deletes through the target handle only, closes the
        source handle; EFI_WARN_DELETE_FAILURE for a source-only handle. */
    method Delete() returns (st: Status)
      requires fs != null && fs.Inv() && this in fs.handles
      modifies this`tgtFP, this`srcFP, this`fName, fs`handles, fs`owner, fs.tgt`live, fs.tgt`nodes, fs.src`live, fs.pool`blocks
      ensures st == (if old(tgtFP) != null && !old(fs.tgt.readOnly) then Success else WarnDeleteFailure)
      ensures fs.tgt.nodes == (if old(tgtFP) != null && !old(fs.tgt.readOnly) then old(fs.tgt.nodes) - {old(tgtFP).path} else old(fs.tgt.nodes))
      ensures fs.handles == old(fs.handles) - {this}
      ensures fs.tgt.live == old(fs.tgt.live) - (if old(tgtFP) != null then {old(tgtFP)} else {})
      ensures fs.src.live == old(fs.src.live) - (if old(srcFP) != null then {old(srcFP)} else {})
      ensures tgtFP == null && srcFP == null && fName.None?
      ensures fs.pool.blocks == old(fs.pool.blocks) - 2
      ensures fs.Inv()
    {
      var t, s := Detach();
      st := WarnDeleteFailure;
      if t != null {
        st := fs.DeleteNative(t);
      }
      if s != null {
        var _ := fs.CloseNative(s);
      }
      fs.pool.FreeSeveral(2);   // the name, then the handle
    }

    /** The first step of Close and Delete: this handle leaves the volume's
        bookkeeping and gives up its backing handles, which are returned so
        that they can be closed. */
    method Detach() returns (t: Handle?, s: Handle?)
      requires fs != null && fs.Inv() && this in fs.handles
      modifies this`tgtFP, this`srcFP, this`fName, fs`handles, fs`owner
      ensures t == old(tgtFP) && s == old(srcFP) && tgtFP == null && srcFP == null && fName.None?
      ensures fs.handles == old(fs.handles) - {this}
      ensures t != null ==> t.vol == fs.tgt && t in fs.tgt.live && t !in fs.owner
      ensures s != null ==> s.vol == fs.src && s in fs.src.live && s !in fs.owner
      ensures fs.Inv()
    {
      t, s := tgtFP, srcFP;
      fs.Unregister(this);
      tgtFP, srcFP, fName := null, null, None;
    }

    /** FSI_FP_Read. */
    method Read(size: nat, buf: array<byte>) returns (st: Status, n: nat)
      requires fs != null && fs.Inv() && this in fs.handles && size <= buf.Length
      modifies buf, tgtFP, srcFP
      ensures tgtFP == old(tgtFP) && srcFP == old(srcFP)
      ensures tgtFP != null && srcFP != null ==>
        var r := DualReadSpec(old(srcFP.Node()), old(srcFP.pos), old(tgtFP.Node()), old(tgtFP.pos), size,
                              buf in fs.src.refused, buf in fs.tgt.refused);
        st == r.status && n == r.size && srcFP.pos == r.srcPos && tgtFP.pos == r.tgtPos
        && buf[..] == r.bytes + old(buf[..])[|r.bytes|..]
      ensures tgtFP != null && srcFP == null ==>
        var r := RetryReadSpec(old(tgtFP.Node()), old(tgtFP.pos), size, buf in fs.tgt.refused);
        var read := r.bytes + old(buf[..])[|r.bytes|..];
        st == r.status && n == r.size && tgtFP.pos == r.pos
        && buf[..] == if r.status == Success && fs.forceLoad != null
                      then ForceLoadBuffer(read, n, fs.forceLoad.entries, fName.value) else read
      ensures tgtFP == null && srcFP != null ==>
        var r := RetryReadSpec(old(srcFP.Node()), old(srcFP.pos), size, buf in fs.src.refused);
        st == r.status && n == r.size && srcFP.pos == r.pos
        && buf[..] == r.bytes + old(buf[..])[|r.bytes|..]
    {
      st, n := DeviceError, size;
      if tgtFP != null && srcFP != null {
        // injection point: source entries first, then target entries
        var s1, n1 := srcFP.Read(size, buf);
        st, n := s1, n1;
        if n1 == 0 {
          st, n := tgtFP.Read(size, buf);
        }
      } else if tgtFP != null {
        st, n := ReadRetrying(tgtFP, size, buf);
        if st == Success && fs.forceLoad != null {
          ForceLoad(buf, n, fs.forceLoad.entries, fName.value);
        }
      } else if srcFP != null {
        st, n := ReadRetrying(srcFP, size, buf);
      }
    }

    /** FSI_FP_Write: through the target handle, else the source handle. */
    method Write(data: seq<byte>) returns (st: Status, n: nat)
      requires fs != null && fs.Inv() && this in fs.handles
      modifies fs.tgt`nodes, fs.src`nodes, tgtFP, srcFP
      ensures old(tgtFP) != null ==>
        var r := WriteSpec(old(fs.tgt.readOnly), old(tgtFP.Node()), old(tgtFP.pos), data);
        st == r.status && n == r.size && tgtFP.pos == r.pos
        && fs.tgt.nodes == (if r.status == Success then old(fs.tgt.nodes)[tgtFP.path := r.node.value] else old(fs.tgt.nodes))
        && fs.src.nodes == old(fs.src.nodes)
      ensures old(tgtFP) == null ==>
        var r := WriteSpec(old(fs.src.readOnly), old(srcFP.Node()), old(srcFP.pos), data);
        st == r.status && n == r.size && srcFP.pos == r.pos
        && fs.src.nodes == (if r.status == Success then old(fs.src.nodes)[srcFP.path := r.node.value] else old(fs.src.nodes))
        && fs.tgt.nodes == old(fs.tgt.nodes)
      ensures fs.tgt.live == old(fs.tgt.live) && fs.src.live == old(fs.src.live)
      ensures fs.Inv()
    {
      st, n := DeviceError, |data|;
      if tgtFP != null {
        st, n := tgtFP.Write(data);
      } else if srcFP != null {
        st, n := srcFP.Write(data);
      }
    }

    /** FSI_FP_SetPosition: applied to both handles; the status reported is
        the source's when there is a source handle. */
    method SetPosition(to: nat) returns (st: Status)
      requires fs != null && fs.Inv() && this in fs.handles
      modifies tgtFP, srcFP
      ensures tgtFP != null ==> tgtFP.pos == SetPositionSpec(old(tgtFP.Node()), old(tgtFP.pos), to).pos
      ensures srcFP != null ==> srcFP.pos == SetPositionSpec(old(srcFP.Node()), old(srcFP.pos), to).pos
      ensures st == if srcFP != null then SetPositionSpec(old(srcFP.Node()), old(srcFP.pos), to).status
                    else SetPositionSpec(old(tgtFP.Node()), old(tgtFP.pos), to).status
    {
      st := DeviceError;
      if tgtFP != null {
        st := tgtFP.SetPosition(to);
      }
      if srcFP != null {
        st := srcFP.SetPosition(to);
      }
    }

    /** FSI_FP_GetPosition: the target handle's, else the source handle's. */
    method GetPosition() returns (st: Status, p: nat)
      requires fs != null && fs.Inv() && this in fs.handles
      ensures var r := if tgtFP != null then GetPositionSpec(tgtFP.Node(), tgtFP.pos) else GetPositionSpec(srcFP.Node(), srcFP.pos);
        st == r.status && p == r.pos
    {
      st, p := DeviceError, 0;
      if tgtFP != null {
        st, p := tgtFP.GetPosition();
      } else if srcFP != null {
        st, p := srcFP.GetPosition();
      }
    }

    /** FSI_FP_GetInfo: the target handle's, else the source handle's; a
        successful EFI_FILE_INFO answer records whether this is a directory. */
    method GetInfo(kind: InfoKind) returns (st: Status, info: Option<Info>)
      requires fs != null && fs.Inv() && this in fs.handles
      modifies this
      ensures tgtFP == old(tgtFP) && srcFP == old(srcFP) && fName == old(fName) && fs == old(fs) && fromTgt == old(fromTgt)
      ensures var node := if tgtFP != null then tgtFP.Node() else srcFP.Node();
        (st == Success <==> kind == FileInfo && node.Some?)
        && (st == Success ==> info == Some(InfoOf(node.value)))
      ensures isDir == if st == Success && kind == FileInfo then info.value.isDir else old(isDir)
      ensures fs.Inv()
    {
      st, info := DeviceError, None;
      if tgtFP != null {
        st, info := tgtFP.GetInfo(kind);
        if st == Success && kind == FileInfo {
          isDir := info.value.isDir;
        }
      } else if srcFP != null {
        st, info := srcFP.GetInfo(kind);
        if st == Success && kind == FileInfo {
          isDir := info.value.isDir;
        }
      }
    }

    /** FSI_FP_SetInfo: the target handle, else the source handle. */
    method SetInfo(kind: InfoKind, info: Info) returns (st: Status)
      requires fs != null && fs.Inv() && this in fs.handles
      ensures var h := if tgtFP != null then tgtFP else srcFP;
        st == (if h.Node().None? then DeviceError else if h.vol.readOnly then WriteProtected else Success)
    {
      st := DeviceError;
      if tgtFP != null {
        st := tgtFP.SetInfo(kind, info);
      } else if srcFP != null {
        st := srcFP.SetInfo(kind, info);
      }
    }

    /** FSI_FP_Flush: the target handle, else the source handle. */
    method Flush() returns (st: Status)
      requires fs != null && fs.Inv() && this in fs.handles
      ensures st == if tgtFP != null then (if fs.tgt.readOnly then WriteProtected else Success)
                    else (if fs.src.readOnly then WriteProtected else Success)
    {
      st := DeviceError;
      if tgtFP != null {
        st := tgtFP.Flush();
      } else if srcFP != null {
        st := srcFP.Flush();
      }
    }
  }

  /** CreateFSInjectFP: a zeroed handle, or NULL when the allocation fails. */
  method CreateFSInjectFP(pool: Pool) returns (f: OverlayFile?)
    modifies pool
    ensures f == null <==> old(pool.budget) == 0
    ensures f != null ==> fresh(f) && f.fs == null && f.fName.None? && !f.isDir && f.tgtFP == null && f.srcFP == null && !f.fromTgt
    ensures pool.budget == old(pool.budget) - (if f != null then 1 else 0)
    ensures pool.blocks == old(pool.blocks) + (if f != null then 1 else 0)
  {
    var ok := pool.Allocate();
    if !ok {
      return null;
    }
    f := new OverlayFile();
  }

  /** OpenFileProtocol: opens the volume, opens name from its root, closes
      the root; NULL on any error. */
  method OpenFileProtocol(v: Volume, name: Path, mode: Mode) returns (fp: Handle?)
    requires v.Valid()
    modifies v`live
    ensures fp != null <==> ProtocolOpens(old(v.View()), name, mode)
    ensures fp != null ==> fresh(fp) && fp.vol == v && fp.path == ProtocolPath(name) && fp.pos == 0
    ensures v.live == old(v.live) + (if fp != null then {fp} else {})
  {
    var st, root := v.OpenVolume();
    if IsError(st) {
      return null;
    }
    var st2, h := root.Open(name, mode);
    fp := if IsError(st2) then null else h;
    var _ := root.Close();
  }

  /** The native read with the one-shot retry into a fresh buffer, whose
      bytes are copied back when the retry produced some. */
  method ReadRetrying(h: Handle, size: nat, buf: array<byte>) returns (st: Status, n: nat)
    requires h in h.vol.live && size <= buf.Length
    modifies h, buf
    ensures var r := RetryReadSpec(old(h.Node()), old(h.pos), size, buf in h.vol.refused);
      st == r.status && n == r.size && h.pos == r.pos && buf[..] == r.bytes + old(buf[..])[|r.bytes|..]
  {
    st, n := h.Read(size, buf);
    if st == InvalidParameter && n == 0 {
      var tmp := new byte[size];
      st, n := h.Read(size, tmp);
      if st == Success && n > 0 {
        CopyMem(buf, tmp, n);
      }
    }
  }

  method CopyMem(dst: array<byte>, src: array<byte>, n: nat)
    requires n <= dst.Length && n <= src.Length && dst != src
    modifies dst
    ensures dst[..] == src[..n] + old(dst[..])[n..]
  {
    var i := 0;
    while i < n
      invariant 0 <= i <= n
      invariant forall j :: 0 <= j < i ==> dst[j] == src[j]
      invariant forall j :: i <= j < dst.Length ==> dst[j] == old(dst[j])
    {
      dst[i] := src[i];
      i := i + 1;
    }
    assert dst[..] == src[..n] + old(dst[..])[n..];
  }

  /** The force-load loop over the first n bytes of buf. */
  method ForceLoad(buf: array<byte>, n: nat, entries: seq<Path>, fname: Path)
    requires n <= buf.Length
    modifies buf
    ensures buf[..] == ForceLoadBuffer(old(buf[..]), n, entries, fname)
  {
    var i := 0;
    while i < |entries|
      invariant 0 <= i <= |entries|
      invariant buf[n..] == old(buf[n..])
      invariant ForceLoadAll(buf[..n], entries[i..], fname) == ForceLoadAll(old(buf[..n]), entries, fname)
    {
      assert entries[i..][1..] == entries[i + 1..];
      if Contains(fname, entries[i]) {
        RewriteInPlace(buf, n);
      }
      i := i + 1;
    }
    assert buf[..] == buf[..n] + buf[n..];
  }

  /** One rewrite of the first n bytes of buf in place (CopyMem of 26 or 29
      bytes). */
  method RewriteInPlace(buf: array<byte>, n: nat)
    requires n <= buf.Length
    modifies buf
    ensures buf[..n] == Rewrite(old(buf[..n])) && buf[n..] == old(buf[n..])
  {
    ghost var b := buf[..];
    var k := IndexOf(buf[..n], SafeBoot);
    if k.Some? {
      CopyAt(buf, k.value, SafeBootRoot);
      SplicePrefix(b, n, k.value, SafeBootRoot);
    } else {
      var k2 := IndexOf(buf[..n], NetworkRoot);
      if k2.Some? {
        CopyAt(buf, k2.value, NetworkRootRoot);
        SplicePrefix(b, n, k2.value, NetworkRootRoot);
      }
    }
  }

  // ---------------------------------------------------------------------
  // The volume

  class OverlayVolume {
    const tgt: Volume
    const src: Volume
    const pool: Pool
    const tgtDir: Path
    const srcDir: Option<Path>
    const blacklist: StringList?
    const forceLoad: StringList?
    /** The FSInject.KextsInjected firmware variable. */
    var kextsInjected: bool
    ghost var handles: set<OverlayFile>
    /** The overlay handle holding each backing handle. */
    ghost var owner: map<Handle, OverlayFile>

    constructor (tgt: Volume, src: Volume, pool: Pool, tgtDir: Path, srcDir: Option<Path>,
                 blacklist: StringList?, forceLoad: StringList?)
      ensures this.tgt == tgt && this.src == src && this.pool == pool
      ensures this.tgtDir == tgtDir && this.srcDir == srcDir
      ensures this.blacklist == blacklist && this.forceLoad == forceLoad
      ensures !kextsInjected && handles == {} && owner == map[]
    {
      this.tgt, this.src, this.pool := tgt, src, pool;
      this.tgtDir, this.srcDir := tgtDir, srcDir;
      this.blacklist, this.forceLoad := blacklist, forceLoad;
      kextsInjected := false;
      handles := {};
      owner := map[];
    }

    function Configuration(): Config
      reads blacklist
    {
      Config(tgtDir, srcDir, Entries(blacklist))
    }

    /** Every overlay handle is named by an absolute path and holds at least
        one live backing handle of the right volume; both only at TgtDir; no
        backing handle is held twice. */
    ghost predicate HandleOk(h: OverlayFile)
      reads this`owner, h, tgt`live, src`live
    {
      h.fs == this && h.fName.Some? && Absolute(h.fName.value)
      && (h.tgtFP != null || h.srcFP != null) && h.fromTgt == (h.tgtFP != null)
      && (h.tgtFP != null ==> h.tgtFP.vol == tgt && h.tgtFP in tgt.live && h.tgtFP in owner && owner[h.tgtFP] == h)
      && (h.srcFP != null ==> h.srcFP.vol == src && h.srcFP in src.live && h.srcFP in owner && owner[h.srcFP] == h)
      && (h.tgtFP != null && h.srcFP != null ==> StriEq(tgtDir, h.fName.value))
    }

    ghost predicate Inv()
      reads this`handles, this`owner, handles, tgt`live, src`live
    {
      tgt != src
      && (forall h :: h in handles ==> HandleOk(h))
      && (forall b :: b in owner ==> owner[b] in handles && (owner[b].tgtFP == b || owner[b].srcFP == b))
    }

    /** What Close and Delete rely on: no other handle shares f's backing
        handles, and only f's backing handles map to f. */
    lemma Exclusive(f: OverlayFile)
      requires Inv() && f in handles
      ensures forall h :: h in handles && h != f && h.tgtFP != null ==> h.tgtFP != f.tgtFP
      ensures forall h :: h in handles && h != f && h.srcFP != null ==> h.srcFP != f.srcFP
      ensures forall b :: b in owner && owner[b] == f ==> b == f.tgtFP || b == f.srcFP
    {
    }

    /** The blacklist loop of FSI_FP_Open. */
    method IsBlacklisted(name: Path) returns (b: bool)
      ensures b == Blacklisted(name, Configuration().blacklist)
    {
      if blacklist == null {
        return false;
      }
      var i := 0;
      while i < |blacklist.entries|
        invariant 0 <= i <= |blacklist.entries|
        invariant forall j :: 0 <= j < i ==> !StriStartsWith(name, blacklist.entries[j])
      {
        if StriStartsWith(name, blacklist.entries[i]) {
          return true;
        }
        i := i + 1;
      }
      return false;
    }

    /** GetOpen: looks the name up under SrcDir on the source volume; the
        source handle it yields, if any. */
    method GetOpen(name: Path, mode: Mode, ghost sv: VolumeView) returns (s: Handle?)
      requires sv == src.View() && src.Valid()
      modifies src`live
      ensures var g := GetOpenSpec(srcDir, sv, name, mode);
        (s != null <==> g.Some?) && (s != null ==> fresh(s) && s.vol == src && s.path == g.value)
      ensures src.live == old(src.live) + (if s != null then {s} else {})
    {
      s := null;
      if srcDir.Some? {
        var inj := InjectionFName(Some(""), srcDir, Some(name));
        if inj.Some? {
          s := OpenFileProtocol(src, inj.value, mode);
        }
      }
    }

    /** Steps 2 to 6 of FSI_FP_Open on the freshly allocated handle nw, named
        name: on success nw is recorded with the backing handles found; on
        failure the name and the handle are freed (ErrorExit). */
    method Populate(nw: OverlayFile, parent: Handle?, name: Path, mode: Mode) returns (st: Status)
      requires Inv() && tgt.Valid() && src.Valid()
      requires nw !in handles && nw.fs == this && nw.fName == Some(name) && Absolute(name) && !nw.isDir
      requires nw.tgtFP == null && nw.srcFP == null
      requires parent != null ==> parent.vol == tgt && parent in tgt.live
      modifies this`kextsInjected, this`handles, this`owner, tgt`live, src`live, pool`blocks, nw`tgtFP, nw`srcFP, nw`fromTgt
      ensures var p := Resolved(Configuration(), old(tgt.View()), old(src.View()),
                                if parent != null then Some(parent.path) else None, name, mode);
        st == p.status && kextsInjected == (old(kextsInjected) || p.injected) && Backs(nw.tgtFP, nw.srcFP, p)
        && (!IsError(st) ==> st == Success && nw.fromTgt == p.fromTgt)
      ensures IsError(st) ==> nw.tgtFP == null && nw.srcFP == null
      ensures nw.tgtFP != null ==> fresh(nw.tgtFP)
      ensures nw.srcFP != null ==> fresh(nw.srcFP)
      ensures handles == old(handles) + (if !IsError(st) then {nw} else {})
      ensures tgt.live == old(tgt.live) + (if nw.tgtFP != null then {nw.tgtFP} else {})
      ensures src.live == old(src.live) + (if nw.srcFP != null then {nw.srcFP} else {})
      ensures pool.blocks == old(pool.blocks) - (if IsError(st) then 2 else 0)
      ensures Inv()
    {
      ghost var c, tv, sv := Configuration(), tgt.View(), src.View();
      ghost var pt := if parent != null then Some(parent.path) else None;
      var t, s;
      ghost var p;
      ResolvedShape(c, tv, sv, pt, name, mode);
      st, t, s, p := OpenBacking(parent, name, mode, c, tv, sv);
      GrowKeepsInv();
      if IsError(st) {
        pool.FreeSeveral(2);   // the name, then the handle
        return;
      }
      Adopt(nw, t, s);
    }

    /** Gives the new overlay handle its backing handles and records it. */
    method Adopt(nw: OverlayFile, t: Handle?, s: Handle?)
      requires Inv() && nw !in handles && nw.fs == this && nw.fName.Some? && Absolute(nw.fName.value)
      requires t != null || s != null
      requires t != null ==> t.vol == tgt && t in tgt.live && t !in owner
      requires s != null ==> s.vol == src && s in src.live && s !in owner
      requires t != null && s != null ==> StriEq(tgtDir, nw.fName.value)
      modifies this`handles, this`owner, nw`tgtFP, nw`srcFP, nw`fromTgt
      ensures nw.tgtFP == t && nw.srcFP == s && nw.fromTgt == (t != null)
      ensures handles == old(handles) + {nw}
      ensures Inv()
    {
      nw.tgtFP, nw.srcFP, nw.fromTgt := t, s, t != null;
      Register(nw);
    }

    /** Step 2 of FSI_FP_Open: the kernel names are looked up on the source
        volume first (\System\Library\Kernels\kernel as \kernel, then as
        \mach_kernel). */
    method KernelOpen(name: Path, mode: Mode, ghost c: Config, ghost sv: VolumeView) returns (s: Handle?)
      requires c.srcDir == srcDir && sv == src.View() && src.Valid()
      modifies src`live
      ensures var k := KernelStep(c, sv, name, mode);
        (s != null <==> k.Some?) && (s != null ==> fresh(s) && s.vol == src && s.path == k.value)
      ensures src.live == old(src.live) + (if s != null then {s} else {})
    {
      s := null;
      if StriEq(name, MachKernel) {
        s := GetOpen(name, mode, sv);
      } else if StriEq(name, KernelsKernel) {
        s := GetOpen(Kernel, mode, sv);
        if s == null {
          s := GetOpen(MachKernel, mode, sv);
        }
      }
    }

    /** Step 3 of FSI_FP_Open: the parent's target handle opens the name. */
    method ParentOpen(parent: Handle?, name: Path, mode: Mode, ghost tv: VolumeView) returns (st: Status, t: Handle?)
      requires tv == tgt.View() && tgt.Valid()
      requires parent != null ==> parent.vol == tgt && parent in tgt.live
      modifies tgt`live
      ensures st == TargetStatus(tv, if parent != null then Some(parent.path) else None, name, mode)
      ensures t != null <==> parent != null && !IsError(st)
      ensures t != null ==> fresh(t) && t.vol == tgt && t.path == NormalizedFName(parent.path, name)
      ensures tgt.live == old(tgt.live) + (if t != null then {t} else {})
    {
      st, t := DeviceError, null;
      if parent != null {
        st, t := parent.Open(name, mode);
      }
    }

    /** Step 4 of FSI_FP_Open: a name inside TgtDir is opened at its mapped
        path under SrcDir, raising the kexts-injected flag. */
    method InjectOpen(name: Path, mode: Mode, ghost c: Config, ghost sv: VolumeView, st3: Status)
      returns (st: Status, s: Handle?, ghost p: Plan)
      requires c.tgtDir == tgtDir && c.srcDir == srcDir && sv == src.View() && src.Valid()
      modifies this`kextsInjected, src`live
      ensures p == InjectStep(c, sv, name, mode, st3) && st == p.status && Backs(null, s, p)
      ensures kextsInjected == (old(kextsInjected) || p.injected)
      ensures s != null ==> fresh(s) && s.vol == src
      ensures src.live == old(src.live) + (if s != null then {s} else {})
    {
      st, s, p := st3, null, Fail(st3);
      var inj := InjectionFName(Some(tgtDir), srcDir, Some(name));
      if inj.Some? {
        s := OpenFileProtocol(src, inj.value, mode);
        if s == null {
          st, p := DeviceError, Fail(DeviceError);
        } else {
          kextsInjected := true;
          st, p := Success, Plan(Success, None, Some(s.path), false, true);
        }
      }
    }

    /** Step 5 of FSI_FP_Open: for a parent without a target handle, the name
        is opened from the target root. */
    method ReverseOpen(name: Path, mode: Mode, ghost tv: VolumeView) returns (st: Status, t: Handle?, ghost p: Plan)
      requires tv == tgt.View() && tgt.Valid()
      modifies tgt`live
      ensures p == ReverseStep(tv, name, mode) && st == p.status && Backs(t, null, p)
      ensures t != null ==> fresh(t) && t.vol == tgt
      ensures tgt.live == old(tgt.live) + (if t != null then {t} else {})
    {
      t := OpenFileProtocol(tgt, name, mode);
      if t != null {
        st, p := Success, Plan(Success, Some(t.path), None, true, false);
      } else {
        st, p := DeviceError, Fail(DeviceError);
      }
    }

    /** Steps 3 to 5 of FSI_FP_Open: the parent's target handle, then the
        injected path, then the target root when the parent has no target
        handle. */
    method TargetSteps(parent: Handle?, name: Path, mode: Mode, ghost c: Config, ghost tv: VolumeView, ghost sv: VolumeView)
      returns (st: Status, t: Handle?, s: Handle?, ghost p: Plan)
      requires c.tgtDir == tgtDir && c.srcDir == srcDir && tv == tgt.View() && sv == src.View()
      requires tgt.Valid() && src.Valid() && tgt != src
      requires parent != null ==> parent.vol == tgt && parent in tgt.live
      modifies this`kextsInjected, tgt`live, src`live
      ensures p == TargetStep(c, tv, sv, if parent != null then Some(parent.path) else None, name, mode)
      ensures st == p.status && Backs(t, s, p)
      ensures kextsInjected == (old(kextsInjected) || p.injected)
      ensures t != null ==> fresh(t) && t.vol == tgt
      ensures s != null ==> fresh(s) && s.vol == src
      ensures tgt.live == old(tgt.live) + (if t != null then {t} else {})
      ensures src.live == old(src.live) + (if s != null then {s} else {})
    {
      st, t := ParentOpen(parent, name, mode, tv);
      s := null;
      if t != null {
        return st, t, s, Plan(Success, Some(t.path), None, true, false);
      }
      if st == WriteProtected || srcDir.None? {
        return st, t, s, Fail(st);
      }
      st, s, p := InjectOpen(name, mode, c, sv, st);
      if IsError(st) && parent == null {
        st, t, p := ReverseOpen(name, mode, tv);
      }
    }

    /** Steps 2 to 6 of FSI_FP_Open for the new handle: the kernel names,
        then the target, injection and merge steps. */
    method OpenBacking(parent: Handle?, name: Path, mode: Mode, ghost c: Config, ghost tv: VolumeView, ghost sv: VolumeView)
      returns (st: Status, t: Handle?, s: Handle?, ghost p: Plan)
      requires c.tgtDir == tgtDir && c.srcDir == srcDir && tv == tgt.View() && sv == src.View()
      requires tgt.Valid() && src.Valid() && tgt != src
      requires parent != null ==> parent.vol == tgt && parent in tgt.live
      modifies this`kextsInjected, tgt`live, src`live
      ensures p == Resolved(c, tv, sv, if parent != null then Some(parent.path) else None, name, mode)
      ensures st == p.status && Backs(t, s, p)
      ensures kextsInjected == (old(kextsInjected) || p.injected)
      ensures t != null ==> fresh(t) && t.vol == tgt
      ensures s != null ==> fresh(s) && s.vol == src
      ensures tgt.live == old(tgt.live) + (if t != null then {t} else {})
      ensures src.live == old(src.live) + (if s != null then {s} else {})
    {
      s := KernelOpen(name, mode, c, sv);
      if s != null {
        return Success, null, s, Plan(Success, None, Some(s.path), false, false);
      }
      st, t, s, p := TargetAndMerge(parent, name, mode, c, tv, sv);
    }

    /** Steps 3 to 6 of FSI_FP_Open: the target and injection steps, then the
        merge at TgtDir. */
    method TargetAndMerge(parent: Handle?, name: Path, mode: Mode, ghost c: Config, ghost tv: VolumeView, ghost sv: VolumeView)
      returns (st: Status, t: Handle?, s: Handle?, ghost p: Plan)
      requires c.tgtDir == tgtDir && c.srcDir == srcDir && tv == tgt.View() && sv == src.View()
      requires tgt.Valid() && src.Valid() && tgt != src
      requires parent != null ==> parent.vol == tgt && parent in tgt.live
      modifies this`kextsInjected, tgt`live, src`live
      ensures p == TargetThenMerge(c, tv, sv, if parent != null then Some(parent.path) else None, name, mode)
      ensures st == p.status && Backs(t, s, p)
      ensures kextsInjected == (old(kextsInjected) || p.injected)
      ensures t != null ==> fresh(t) && t.vol == tgt
      ensures s != null ==> fresh(s) && s.vol == src
      ensures tgt.live == old(tgt.live) + (if t != null then {t} else {})
      ensures src.live == old(src.live) + (if s != null then {s} else {})
    {
      st, t, s, p := TargetSteps(parent, name, mode, c, tv, sv);
      if !IsError(st) && t != null {
        s, p := MergeStep(name, p, c, sv);
      }
    }

    /** Step 6 of FSI_FP_Open: a target handle for TgtDir itself also gets
        SrcDir as its source handle; failing to open it is not an error. */
    method MergeStep(name: Path, ghost p: Plan, ghost c: Config, ghost sv: VolumeView) returns (s: Handle?, ghost m: Plan)
      requires c.tgtDir == tgtDir && c.srcDir == srcDir && sv == src.View() && src.Valid()
      requires p.tgtPath.Some? && p.srcPath.None?
      modifies src`live
      ensures m == Merge(c, sv, name, p) && m.tgtPath == p.tgtPath
      ensures s == null <==> m.srcPath.None?
      ensures s != null ==> fresh(s) && s.vol == src && s.path == m.srcPath.value
      ensures src.live == old(src.live) + (if s != null then {s} else {})
    {
      s, m := null, p;
      if srcDir.Some? && StriEq(tgtDir, name) {
        s := OpenFileProtocol(src, srcDir.value, ReadMode);
        m := p.(srcPath := if s != null then Some(s.path) else None);
      }
    }

    /** Records a new overlay handle and its backing handles. */
    ghost method Register(f: OverlayFile)
      requires Inv() && f !in handles && f.fs == this
      requires f.fName.Some? && Absolute(f.fName.value)
      requires (f.tgtFP != null || f.srcFP != null) && f.fromTgt == (f.tgtFP != null)
      requires f.tgtFP != null ==> f.tgtFP.vol == tgt && f.tgtFP in tgt.live && f.tgtFP !in owner
      requires f.srcFP != null ==> f.srcFP.vol == src && f.srcFP in src.live && f.srcFP !in owner
      requires f.tgtFP != null && f.srcFP != null ==> StriEq(tgtDir, f.fName.value)
      modifies this`handles, this`owner
      ensures handles == old(handles) + {f}
      ensures Inv()
    {
      handles := handles + {f};
      if f.tgtFP != null {
        owner := owner[f.tgtFP := f];
      }
      if f.srcFP != null {
        owner := owner[f.srcFP := f];
      }
      forall h | h in handles
        ensures HandleOk(h)
      {
        if h != f {
          assert old(HandleOk(h));
        }
      }
    }

    /** Opening more native handles, without touching any overlay handle,
        keeps the invariant. */
    twostate lemma GrowKeepsInv()
      requires old(Inv())
      requires handles == old(handles) && owner == old(owner)
      requires old(tgt.live) <= tgt.live && old(src.live) <= src.live
      requires unchanged(handles)
      ensures Inv()
    {
      forall h | h in handles
        ensures HandleOk(h)
      {
        assert old(HandleOk(h));
      }
    }

    /** Forgets an overlay handle that is about to be closed: it and its
        backing handles leave the bookkeeping, which no longer refers to
        them. */
    ghost method Unregister(f: OverlayFile)
      requires Inv() && f in handles
      modifies this`handles, this`owner
      ensures handles == old(handles) - {f}
      ensures owner == old(owner) - {f.tgtFP, f.srcFP}
      ensures f.tgtFP !in owner && f.srcFP !in owner
      ensures f.tgtFP != null ==> f.tgtFP.vol == tgt && f.tgtFP in tgt.live
      ensures f.srcFP != null ==> f.srcFP.vol == src && f.srcFP in src.live
      ensures tgt != src && Inv()
    {
      Exclusive(f);
      handles := handles - {f};
      owner := owner - {f.tgtFP, f.srcFP};
      forall h | h in handles
        ensures HandleOk(h)
      {
        assert old(HandleOk(h));
      }
    }

    /** Closes a native handle that no overlay handle holds any more. */
    method CloseNative(h: Handle) returns (st: Status)
      requires Inv() && (h.vol == tgt || h.vol == src) && h in h.vol.live && h !in owner
      modifies h.vol`live
      ensures st == h.vol.closeStatus
      ensures h.vol.live == old(h.vol.live) - {h}
      ensures Inv()
    {
      label Before:
      st := h.Close();
      ShrinkKeepsInv@Before();
    }

    /** Deletes through a native target handle that no overlay handle holds
        any more. */
    method DeleteNative(h: Handle) returns (st: Status)
      requires Inv() && h.vol == tgt && h in tgt.live && h !in owner
      modifies tgt`live, tgt`nodes
      ensures st == (if old(tgt.readOnly) then WarnDeleteFailure else Success)
      ensures tgt.nodes == if old(tgt.readOnly) then old(tgt.nodes) else old(tgt.nodes) - {h.path}
      ensures tgt.live == old(tgt.live) - {h}
      ensures Inv()
    {
      label Before:
      st := h.Delete();
      ShrinkKeepsInv@Before();
    }

    /** Closing native handles that no overlay handle holds keeps the
        invariant. */
    twostate lemma ShrinkKeepsInv()
      requires old(Inv())
      requires handles == old(handles) && owner == old(owner) && unchanged(handles)
      requires forall b :: b in old(tgt.live) && b !in tgt.live ==> b !in owner
      requires forall b :: b in old(src.live) && b !in src.live ==> b !in owner
      ensures Inv()
    {
      forall h | h in handles
        ensures HandleOk(h)
      {
        assert old(HandleOk(h));
      }
    }

    /** FSI_SFS_OpenVolume: wraps the target's root directory in an overlay
        handle named "\"; when the wrapper cannot be allocated the native root
        is closed again. */
    method OpenVolume() returns (st: Status, root: OverlayFile?)
      requires Inv() && tgt.Valid()
      modifies this`handles, this`owner, tgt`live, pool
      ensures st == (if IsError(old(tgt.volumeStatus)) then old(tgt.volumeStatus)
                     else if old(pool.budget) == 0 then OutOfResources else Success)
      ensures root != null <==> st == Success
      ensures root != null ==>
        fresh(root) && root.fs == this && root.fName == Some(Root) && !root.isDir
        && root.tgtFP != null && fresh(root.tgtFP) && root.tgtFP.path == Root && root.srcFP == null && root.fromTgt
      ensures handles == old(handles) + (if root != null then {root} else {})
      ensures tgt.live == old(tgt.live) + (if root != null then {root.tgtFP} else {})
      ensures pool.blocks == old(pool.blocks) + (if root != null then 2 else 0)
      ensures Inv()
    {
      var h;
      st, h := tgt.OpenVolume();
      GrowKeepsInv();
      if IsError(st) {
        return st, null;
      }
      root := CreateFSInjectFP(pool);
      if root == null {
        var _ := CloseNative(h);
        return OutOfResources, null;
      }
      pool.AllocateCopy();
      root.fs, root.fName, root.tgtFP, root.srcFP, root.fromTgt := this, Some(Root), h, null, true;
      Register(root);
    }

    /** FSI_SFS_OpenVolume as written: a failed wrapper allocation returns
        EFI_OUT_OF_RESOURCES with the native root still open and held by no
        overlay handle. */
    method OpenVolumeAsWritten() returns (st: Status, root: OverlayFile?, ghost leaked: Handle?)
      requires Inv() && tgt.Valid()
      modifies this`handles, this`owner, tgt`live, pool
      ensures st == OutOfResources && !IsError(old(tgt.volumeStatus)) ==>
        root == null && leaked != null && fresh(leaked) && tgt.live == old(tgt.live) + {leaked}
        && handles == old(handles) && leaked !in owner
    {
      leaked := null;
      var h;
      st, h := tgt.OpenVolume();
      if IsError(st) {
        return st, null, null;
      }
      root := CreateFSInjectFP(pool);
      if root == null {
        return OutOfResources, null, h;
      }
      root.fs := this;
      pool.AllocateCopy();
      root.fName := Some(Root);
      root.tgtFP := h;
      root.srcFP := null;
      root.fromTgt := true;
      handles := handles + {root};
      owner := owner[h := root];
    }
  }

  // ---------------------------------------------------------------------
  // FSInjectionInstall

  /** Status of FSInjectionInstall: the two OpenProtocol results, then the
      allocations of the volume, of the TgtDir copy and of the SrcDir copy,
      then ReinstallProtocolInterface. */
  function InstallStatus(tgtOpen: Status, srcOpen: Status, budget: nat, hasSrcDir: bool, reinstall: Status): Status {
    if IsError(tgtOpen) then tgtOpen
    else if IsError(srcOpen) then srcOpen
    else if budget < 2 + (if hasSrcDir then 1 else 0) then OutOfResources
    else if IsError(reinstall) then reinstall
    else Success
  }

  /** The allocation and field setup of FSInjectionInstall. A list is kept
      only when it is present and not empty. */
  method SetupVolume(tgt: Volume, src: Volume, tgtDir: Path, srcDir: Option<Path>,
                     blacklist: StringList?, forceLoad: StringList?, pool: Pool) returns (st: Status, fs: OverlayVolume?)
    requires tgt != src
    modifies pool
    ensures var need := 2 + (if srcDir.Some? then 1 else 0);
      (fs != null <==> old(pool.budget) >= need) && (st == if fs != null then Success else OutOfResources)
      && pool.blocks == old(pool.blocks) + (if fs != null then need else 0)
    ensures fs != null ==>
      fresh(fs) && fs.tgt == tgt && fs.src == src && fs.pool == pool
      && fs.tgtDir == tgtDir && fs.srcDir == srcDir && !fs.kextsInjected && fs.handles == {} && fs.Inv()
      && fs.blacklist == (if blacklist != null && blacklist.entries != [] then blacklist else null)
      && fs.forceLoad == (if forceLoad != null && forceLoad.entries != [] then forceLoad else null)
  {
    fs := null;
    var ok := pool.Allocate();   // OurFS
    if !ok {
      return OutOfResources, null;
    }
    ok := pool.Allocate();       // TgtDir copy
    if !ok {
      pool.Free();
      return OutOfResources, null;
    }
    if srcDir.Some? {
      ok := pool.Allocate();     // SrcDir copy
      if !ok {
        pool.Free();
        pool.Free();
        return OutOfResources, null;
      }
    }
    var bl := if blacklist != null && blacklist.entries != [] then blacklist else null;
    var fl := if forceLoad != null && forceLoad.entries != [] then forceLoad else null;
    fs := new OverlayVolume(tgt, src, pool, tgtDir, srcDir, bl, fl);
    st := Success;
  }

  /** FSInjectionInstall; on a failed ReinstallProtocolInterface everything
      allocated is freed. */
  method Install(tgt: Volume, tgtOpen: Status, src: Volume, srcOpen: Status, tgtDir: Path, srcDir: Option<Path>,
                 blacklist: StringList?, forceLoad: StringList?, reinstall: Status, pool: Pool)
    returns (st: Status, fs: OverlayVolume?)
    requires tgt != src
    modifies pool
    ensures st == InstallStatus(tgtOpen, srcOpen, old(pool.budget), srcDir.Some?, reinstall)
    ensures fs != null <==> st == Success
    ensures pool.blocks == old(pool.blocks) + (if fs != null then 2 + (if srcDir.Some? then 1 else 0) else 0)
    ensures fs != null ==>
      fresh(fs) && fs.tgt == tgt && fs.src == src && fs.tgtDir == tgtDir && fs.srcDir == srcDir
      && !fs.kextsInjected && fs.handles == {} && fs.Inv()
      && fs.blacklist == (if blacklist != null && blacklist.entries != [] then blacklist else null)
      && fs.forceLoad == (if forceLoad != null && forceLoad.entries != [] then forceLoad else null)
  {
    if IsError(tgtOpen) {
      return tgtOpen, null;
    }
    if IsError(srcOpen) {
      return srcOpen, null;
    }
    st, fs := SetupVolume(tgt, src, tgtDir, srcDir, blacklist, forceLoad, pool);
    if fs == null {
      return;
    }
    if IsError(reinstall) {
      if srcDir.Some? {
        pool.Free();
      }
      pool.Free();
      pool.Free();
      return reinstall, null;
    }
  }

  /** FSInjectionInstall as written: a failed ReinstallProtocolInterface
      returns with the volume and the directory copies still allocated. */
  method InstallAsWritten(tgt: Volume, tgtOpen: Status, src: Volume, srcOpen: Status, tgtDir: Path, srcDir: Option<Path>,
                          blacklist: StringList?, forceLoad: StringList?, reinstall: Status, pool: Pool)
    returns (st: Status, fs: OverlayVolume?)
    requires tgt != src
    modifies pool
    ensures st == InstallStatus(tgtOpen, srcOpen, old(pool.budget), srcDir.Some?, reinstall)
    ensures !IsError(tgtOpen) && !IsError(srcOpen) && old(pool.budget) >= 2 + (if srcDir.Some? then 1 else 0) && IsError(reinstall) ==>
      st == reinstall && fs == null && pool.blocks == old(pool.blocks) + 2 + (if srcDir.Some? then 1 else 0)
  {
    if IsError(tgtOpen) {
      return tgtOpen, null;
    }
    if IsError(srcOpen) {
      return srcOpen, null;
    }
    st, fs := SetupVolume(tgt, src, tgtDir, srcDir, blacklist, forceLoad, pool);
    if fs == null {
      return;
    }
    if IsError(reinstall) {
      return reinstall, null;
    }
  }
}
