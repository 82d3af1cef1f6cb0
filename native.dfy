/** The file-system drivers behind the overlay: the target volume the overlay
    replaces and the source volume it injects from. A volume is a map from
    absolute path to node; a handle is an object with a cursor. Their
    behaviour is fixed per volume by plain data so that every outcome the
    overlay reacts to can be produced: per-path open faults, a failing
    OpenVolume, a read-only medium, the Close status, and the caller buffers
    the driver refuses with EFI_INVALID_PARAMETER and size 0 (the alignment
    restriction the overlay works around). A ghost set of live handles records
    which handles are open. */
module Native {
  import opened Efi
  import opened Paths

  /** A file holds bytes; a directory holds its encoded EFI_FILE_INFO entries,
      each of positive size. */
  datatype Node = FileNode(data: seq<byte>) | DirNode(entries: seq<seq<byte>>)

  /** EFI_FILE_MODE_READ, READ|WRITE and READ|WRITE|CREATE. */
  datatype Mode = ReadMode | ReadWriteMode | CreateMode

  /** The information types of GetInfo/SetInfo; only EFI_FILE_INFO is
      interpreted. */
  datatype InfoKind = FileInfo | FileSystemInfo | VolumeLabel

  /** The part of EFI_FILE_INFO the overlay looks at. */
  datatype Info = Info(isDir: bool, size: nat)

  predicate WellFormedNode(n: Node) {
    n.DirNode? ==> forall i :: 0 <= i < |n.entries| ==> |n.entries[i]| > 0
  }

  /** What a volume does, as data. */
  datatype VolumeView = VolumeView(nodes: map<Path, Node>, readOnly: bool, faults: map<Path, Status>, volumeStatus: Status)

  predicate ViewValid(v: VolumeView) {
    (forall p :: p in v.faults ==> IsError(v.faults[p]))
    && (forall p :: p in v.nodes ==> WellFormedNode(v.nodes[p]))
    && (v.volumeStatus == Success || IsError(v.volumeStatus))
  }

  /** Status of Open for the absolute path full. Creating files is not
      modelled: a missing path is EFI_NOT_FOUND in every mode. */
  function OpenStatus(v: VolumeView, full: Path, mode: Mode): (st: Status)
    ensures ViewValid(v) ==> st == Success || IsError(st)
    ensures ViewValid(v) && st == Success ==> full in v.nodes && full !in v.faults
    ensures ViewValid(v) && st == Success && mode != ReadMode ==> !v.readOnly
  {
    if full in v.faults then v.faults[full]
    else if mode != ReadMode && v.readOnly then WriteProtected
    else if full in v.nodes then Success
    else NotFound
  }

  datatype ReadResult = ReadResult(status: Status, size: nat, bytes: seq<byte>, pos: nat)

  function Min(a: nat, b: nat): nat { if a <= b then a else b }

  /** Read of size bytes at cursor pos. A file yields the next bytes up to
      its end; a directory yields one whole entry per call, EFI_BUFFER_TOO_SMALL
      with the needed size when the entry does not fit, and size 0 at the end. */
  function ReadSpec(node: Option<Node>, pos: nat, size: nat, refused: bool): (r: ReadResult)
    ensures |r.bytes| <= size
    ensures r.status == Success ==> |r.bytes| == r.size
    ensures r.status != Success ==> r.bytes == [] && r.pos == pos
    ensures refused ==> r == ReadResult(InvalidParameter, 0, [], pos)
  {
    if refused then ReadResult(InvalidParameter, 0, [], pos)
    else match node
      case None => ReadResult(DeviceError, 0, [], pos)
      case Some(FileNode(data)) =>
        if pos > |data| then ReadResult(DeviceError, 0, [], pos)
        else
          var n := Min(size, |data| - pos);
          ReadResult(Success, n, data[pos..pos + n], pos + n)
      case Some(DirNode(es)) =>
        if pos >= |es| then ReadResult(Success, 0, [], pos)
        else if |es[pos]| > size then ReadResult(BufferTooSmall, |es[pos]|, [], pos)
        else ReadResult(Success, |es[pos]|, es[pos], pos + 1)
  }

  datatype WriteResult = WriteResult(status: Status, size: nat, node: Option<Node>, pos: nat)

  /** Write of data at cursor pos: overwrites and extends a file. */
  function WriteSpec(readOnly: bool, node: Option<Node>, pos: nat, data: seq<byte>): (r: WriteResult)
    ensures r.status != Success ==> r.size == 0 && r.node == node && r.pos == pos
    ensures r.status == Success ==> r.size == |data| && r.pos == pos + |data|
    ensures r.status == Success ==>
      r.node.Some? && r.node.value.FileNode? && pos + |data| <= |r.node.value.data|
      && r.node.value.data[pos..pos + |data|] == data
  {
    if readOnly then WriteResult(WriteProtected, 0, node, pos)
    else match node
      case None => WriteResult(DeviceError, 0, node, pos)
      case Some(DirNode(_)) => WriteResult(Unsupported, 0, node, pos)
      case Some(FileNode(d)) =>
        if pos > |d| then WriteResult(DeviceError, 0, node, pos)
        else
          var rest := if pos + |data| < |d| then d[pos + |data|..] else [];
          var d' := d[..pos] + data + rest;
          assert |d'| == pos + |data| + |rest|;
          assert d'[pos..pos + |data|] == data;
          WriteResult(Success, |data|, Some(FileNode(d')), pos + |data|)
  }

  datatype PosResult = PosResult(status: Status, pos: nat)

  /** SetPosition: any position on a file, only 0 (restart) on a directory. */
  function SetPositionSpec(node: Option<Node>, pos: nat, to: nat): (r: PosResult)
    ensures r.status == Success ==> r.pos == to
    ensures r.status != Success ==> r.pos == pos
  {
    match node
    case None => PosResult(DeviceError, pos)
    case Some(FileNode(_)) => PosResult(Success, to)
    case Some(DirNode(_)) => if to == 0 then PosResult(Success, 0) else PosResult(Unsupported, pos)
  }

  function GetPositionSpec(node: Option<Node>, pos: nat): (r: PosResult)
    ensures r.status == Success ==> r.pos == pos && node.Some? && node.value.FileNode?
  {
    match node
    case None => PosResult(DeviceError, 0)
    case Some(FileNode(_)) => PosResult(Success, pos)
    case Some(DirNode(_)) => PosResult(Unsupported, 0)
  }

  function Lookup(v: map<Path, Node>, p: Path): Option<Node> {
    if p in v then Some(v[p]) else None
  }

  function InfoOf(n: Node): Info {
    match n
    case FileNode(d) => Info(false, |d|)
    case DirNode(es) => Info(true, |es|)
  }

  class Volume {
    var nodes: map<Path, Node>
    var readOnly: bool
    var faults: map<Path, Status>
    var volumeStatus: Status
    /** The status the driver's Close reports; the handle is closed anyway. */
    var closeStatus: Status
    /** Caller buffers the driver refuses (alignment restriction). */
    var refused: set<array<byte>>
    ghost var live: set<Handle>

    ghost predicate Valid()
      reads this`nodes, this`readOnly, this`faults, this`volumeStatus
    {
      ViewValid(View())
    }

    function View(): VolumeView
      reads this`nodes, this`readOnly, this`faults, this`volumeStatus
    {
      VolumeView(nodes, readOnly, faults, volumeStatus)
    }

    constructor (nodes: map<Path, Node>, readOnly: bool, faults: map<Path, Status>,
                 volumeStatus: Status, closeStatus: Status, refused: set<array<byte>>)
      ensures this.nodes == nodes && this.readOnly == readOnly && this.faults == faults
      ensures this.volumeStatus == volumeStatus && this.closeStatus == closeStatus
      ensures this.refused == refused && live == {}
    {
      this.nodes, this.readOnly, this.faults := nodes, readOnly, faults;
      this.volumeStatus, this.closeStatus, this.refused := volumeStatus, closeStatus, refused;
      live := {};
    }

    /** EFI_SIMPLE_FILE_SYSTEM_PROTOCOL.OpenVolume. */
    method OpenVolume() returns (st: Status, root: Handle?)
      requires Valid()
      modifies this`live
      ensures st == old(volumeStatus)
      ensures root != null <==> st == Success
      ensures root != null ==> fresh(root) && root.vol == this && root.path == Root && root.pos == 0
      ensures live == old(live) + (if root != null then {root} else {})
    {
      st := volumeStatus;
      root := null;
      if st == Success {
        root := new Handle(this, Root);
        live := live + {root};
      }
    }
  }

  class Handle {
    const vol: Volume
    const path: Path
    var pos: nat

    constructor (v: Volume, p: Path)
      ensures vol == v && path == p && pos == 0
    {
      vol, path, pos := v, p, 0;
    }

    function Node(): Option<Node>
      reads vol`nodes
    {
      Lookup(vol.nodes, path)
    }

    /** EFI_FILE_PROTOCOL.Open: name is resolved against this handle's path. */
    method Open(name: Path, mode: Mode) returns (st: Status, nh: Handle?)
      requires this in vol.live && vol.Valid()
      modifies vol`live
      ensures st == OpenStatus(old(vol.View()), NormalizedFName(path, name), mode)
      ensures st == Success || IsError(st)
      ensures nh != null <==> st == Success
      ensures nh != null ==> fresh(nh) && nh.vol == vol && nh.path == NormalizedFName(path, name) && nh.pos == 0
      ensures vol.live == old(vol.live) + (if nh != null then {nh} else {})
    {
      var full := NormalizedFName(path, name);
      st := OpenStatus(vol.View(), full, mode);
      nh := null;
      if st == Success {
        nh := new Handle(vol, full);
        vol.live := vol.live + {nh};
      }
    }

    /** EFI_FILE_PROTOCOL.Close. */
    method Close() returns (st: Status)
      requires this in vol.live
      modifies vol`live
      ensures st == old(vol.closeStatus)
      ensures vol.live == old(vol.live) - {this}
    {
      st := vol.closeStatus;
      vol.live := vol.live - {this};
    }

    /** EFI_FILE_PROTOCOL.Delete: removes the node unless the medium is
        read-only; closes the handle in both cases. */
    method Delete() returns (st: Status)
      requires this in vol.live
      modifies vol`nodes, vol`live
      ensures st == (if old(vol.readOnly) then WarnDeleteFailure else Success)
      ensures vol.nodes == if old(vol.readOnly) then old(vol.nodes) else old(vol.nodes) - {path}
      ensures vol.live == old(vol.live) - {this}
    {
      if vol.readOnly {
        st := WarnDeleteFailure;
      } else {
        st := Success;
        vol.nodes := vol.nodes - {path};
      }
      vol.live := vol.live - {this};
    }

    /** EFI_FILE_PROTOCOL.Read into the first size bytes of buf. */
    method Read(size: nat, buf: array<byte>) returns (st: Status, n: nat)
      requires this in vol.live && size <= buf.Length
      modifies this, buf
      ensures var r := ReadSpec(old(Node()), old(pos), size, buf in vol.refused);
        st == r.status && n == r.size && pos == r.pos
        && buf[..] == r.bytes + old(buf[..])[|r.bytes|..]
    {
      var r := ReadSpec(Node(), pos, size, buf in vol.refused);
      var i := 0;
      while i < |r.bytes|
        invariant 0 <= i <= |r.bytes|
        invariant forall j :: 0 <= j < i ==> buf[j] == r.bytes[j]
        invariant forall j :: i <= j < buf.Length ==> buf[j] == old(buf[j])
      {
        buf[i] := r.bytes[i];
        i := i + 1;
      }
      assert buf[..] == r.bytes + old(buf[..])[|r.bytes|..];
      st, n, pos := r.status, r.size, r.pos;
    }

    /** EFI_FILE_PROTOCOL.Write. */
    method Write(data: seq<byte>) returns (st: Status, n: nat)
      requires this in vol.live
      modifies this, vol`nodes
      ensures var r := WriteSpec(old(vol.readOnly), old(Node()), old(pos), data);
        st == r.status && n == r.size && pos == r.pos
        && vol.nodes == (if r.status == Success then old(vol.nodes)[path := r.node.value] else old(vol.nodes))
    {
      var r := WriteSpec(vol.readOnly, Node(), pos, data);
      st, n, pos := r.status, r.size, r.pos;
      if r.status == Success {
        vol.nodes := vol.nodes[path := r.node.value];
      }
    }

    /** EFI_FILE_PROTOCOL.SetPosition. */
    method SetPosition(to: nat) returns (st: Status)
      requires this in vol.live
      modifies this
      ensures var r := SetPositionSpec(Node(), old(pos), to); st == r.status && pos == r.pos
    {
      var r := SetPositionSpec(Node(), pos, to);
      st, pos := r.status, r.pos;
    }

    /** EFI_FILE_PROTOCOL.GetPosition. */
    method GetPosition() returns (st: Status, p: nat)
      requires this in vol.live
      ensures var r := GetPositionSpec(Node(), pos); st == r.status && p == r.pos
    {
      var r := GetPositionSpec(Node(), pos);
      st, p := r.status, r.pos;
    }

    /** EFI_FILE_PROTOCOL.GetInfo; buffer sizes are not modelled. */
    method GetInfo(kind: InfoKind) returns (st: Status, info: Option<Info>)
      requires this in vol.live
      ensures st == (if Node().None? then DeviceError else if kind == FileInfo then Success else Unsupported)
      ensures info == (if st == Success then Some(InfoOf(Node().value)) else None)
    {
      match Node()
      case None => st, info := DeviceError, None;
      case Some(n) =>
        if kind == FileInfo {
          st, info := Success, Some(InfoOf(n));
        } else {
          st, info := Unsupported, None;
        }
    }

    /** EFI_FILE_PROTOCOL.SetInfo; the information itself is not stored. */
    method SetInfo(kind: InfoKind, info: Info) returns (st: Status)
      requires this in vol.live
      ensures st == (if Node().None? then DeviceError else if vol.readOnly then WriteProtected else Success)
    {
      if Node().None? {
        st := DeviceError;
      } else if vol.readOnly {
        st := WriteProtected;
      } else {
        st := Success;
      }
    }

    /** EFI_FILE_PROTOCOL.Flush. */
    method Flush() returns (st: Status)
      requires this in vol.live
      ensures st == (if vol.readOnly then WriteProtected else Success)
    {
      st := if vol.readOnly then WriteProtected else Success;
    }
  }
}
