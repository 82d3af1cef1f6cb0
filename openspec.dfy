/** The decision FSI_FP_Open makes, as a function of the volume configuration,
    the two backing volumes, the parent handle and the requested name:
    1. blacklist, 2. kernel special names, 3. target, 4. injected path,
    5. reverse open on the target root, 6. injection-point merge.
    The overlay's Open method is proved to follow it. */
module OpenSpec {
  import opened Efi
  import opened Paths
  import opened Native

  /** The parts of FSI_SIMPLE_FILE_SYSTEM_PROTOCOL that Open consults; the
      source volume is always present (Install requires it). */
  datatype Config = Config(tgtDir: Path, srcDir: Option<Path>, blacklist: seq<Path>)

  /** The outcome of an Open: the status, the paths of the backing handles the
      new overlay handle holds, FromTgt, and whether the kexts-injected flag is
      raised. */
  datatype Plan = Plan(status: Status, tgtPath: Option<Path>, srcPath: Option<Path>, fromTgt: bool, injected: bool)

  function Fail(st: Status): Plan {
    Plan(st, None, None, false, false)
  }

  const MachKernel: Path := "\\mach_kernel"
  const Kernel: Path := "\\kernel"
  const KernelsKernel: Path := "\\System\\Library\\Kernels\\kernel"

  /** The blacklist loop: some entry is a case-insensitive prefix of name. */
  function Blacklisted(name: Path, list: seq<Path>): (b: bool)
    ensures b <==> exists i :: 0 <= i < |list| && StriStartsWith(name, list[i])
  {
    if list == [] then false
    else if StriStartsWith(name, list[0]) then true
    else
      assert forall i :: 1 <= i < |list| ==> list[i] == list[1..][i - 1];
      Blacklisted(name, list[1..])
  }

  /** OpenFileProtocol succeeds: the volume opens and the root handle opens
      the name. */
  predicate ProtocolOpens(v: VolumeView, name: Path, mode: Mode) {
    v.volumeStatus == Success && OpenStatus(v, ProtocolPath(name), mode) == Success
  }

  /** The path of a handle OpenFileProtocol returns. */
  function ProtocolPath(name: Path): Path {
    NormalizedFName(Root, name)
  }

  /** GetOpen: the name mapped into SrcDir (with an empty TgtDir), opened on
      the source volume; the path of the source handle it yields. */
  function GetOpenSpec(srcDir: Option<Path>, sv: VolumeView, name: Path, mode: Mode): Option<Path> {
    if srcDir.None? then None
    else match InjectionFName(Some(""), srcDir, Some(name))
      case None => None
      case Some(inj) => if ProtocolOpens(sv, inj, mode) then Some(ProtocolPath(inj)) else None
  }

  /** Step 2: kernel names are looked up in the source first. */
  function KernelStep(c: Config, sv: VolumeView, name: Path, mode: Mode): Option<Path> {
    if StriEq(name, MachKernel) then GetOpenSpec(c.srcDir, sv, name, mode)
    else if StriEq(name, KernelsKernel) then
      var k := GetOpenSpec(c.srcDir, sv, Kernel, mode);
      if k.Some? then k else GetOpenSpec(c.srcDir, sv, MachKernel, mode)
    else None
  }

  /** Step 3: the parent's target handle opens the name (EFI_DEVICE_ERROR
      when the parent has none). */
  function TargetStatus(tv: VolumeView, parentTgt: Option<Path>, name: Path, mode: Mode): Status {
    if parentTgt.Some? then OpenStatus(tv, NormalizedFName(parentTgt.value, name), mode) else DeviceError
  }

  /** Step 4: the name mapped from TgtDir into SrcDir, opened on the source
      (EFI_DEVICE_ERROR when it does not open); a name outside TgtDir keeps
      the status of step 3. */
  function InjectStep(c: Config, sv: VolumeView, name: Path, mode: Mode, st3: Status): Plan {
    match InjectionFName(Some(c.tgtDir), c.srcDir, Some(name))
    case Some(inj) =>
      if ProtocolOpens(sv, inj, mode) then Plan(Success, None, Some(ProtocolPath(inj)), false, true)
      else Fail(DeviceError)
    case None => Fail(st3)
  }

  /** Step 5: the name opened from the target root. */
  function ReverseStep(tv: VolumeView, name: Path, mode: Mode): Plan {
    if ProtocolOpens(tv, name, mode) then Plan(Success, Some(ProtocolPath(name)), None, true, false)
    else Fail(DeviceError)
  }

  /** Steps 3 to 5, before the merge. */
  function TargetStep(c: Config, tv: VolumeView, sv: VolumeView, parentTgt: Option<Path>, name: Path, mode: Mode): Plan {
    var st3 := TargetStatus(tv, parentTgt, name, mode);
    if parentTgt.Some? && !IsError(st3) then
      Plan(Success, Some(NormalizedFName(parentTgt.value, name)), None, true, false)
    else if st3 == WriteProtected then Fail(WriteProtected)
    else if c.srcDir.None? then Fail(st3)
    else
      var p4 := InjectStep(c, sv, name, mode, st3);
      if !IsError(p4.status) || parentTgt.Some? then p4
      else ReverseStep(tv, name, mode)
  }

  /** Step 6: a target-backed handle named TgtDir also opens SrcDir; a failed
      source open leaves it target-only. */
  function Merge(c: Config, sv: VolumeView, name: Path, p: Plan): Plan {
    if p.tgtPath.Some? && c.srcDir.Some? && StriEq(c.tgtDir, name) then
      p.(srcPath := if ProtocolOpens(sv, c.srcDir.value, ReadMode) then Some(ProtocolPath(c.srcDir.value)) else None)
    else p
  }

  /** FSI_FP_Open for the normalized name; allocOk says whether the
      allocation of the new handle succeeds. */
  function ResolveOpen(c: Config, tv: VolumeView, sv: VolumeView, parentTgt: Option<Path>,
                       name: Path, mode: Mode, allocOk: bool): Plan {
    if Blacklisted(name, c.blacklist) then Fail(NotFound)
    else if !allocOk then Fail(OutOfResources)
    else Resolved(c, tv, sv, parentTgt, name, mode)
  }

  /** The steps after the new handle is allocated: kernel names, then the
      target and injection steps, then the merge at TgtDir. */
  function Resolved(c: Config, tv: VolumeView, sv: VolumeView, parentTgt: Option<Path>,
                    name: Path, mode: Mode): Plan {
    match KernelStep(c, sv, name, mode)
    case Some(p) => Plan(Success, None, Some(p), false, false)
    case None => TargetThenMerge(c, tv, sv, parentTgt, name, mode)
  }

  /** Steps 3 to 6: the merge applies to a successful target step only. */
  function TargetThenMerge(c: Config, tv: VolumeView, sv: VolumeView, parentTgt: Option<Path>,
                           name: Path, mode: Mode): Plan {
    var p := TargetStep(c, tv, sv, parentTgt, name, mode);
    if IsError(p.status) then p else Merge(c, sv, name, p)
  }

  // ---------------------------------------------------------------------
  // Properties of the resolution

  /** A blacklisted name is EFI_NOT_FOUND before anything is allocated or
      opened. */
  lemma BlacklistedIsNotFound(c: Config, tv: VolumeView, sv: VolumeView, parentTgt: Option<Path>,
                              name: Path, mode: Mode, allocOk: bool, i: nat)
    requires i < |c.blacklist| && StriStartsWith(name, c.blacklist[i])
    ensures ResolveOpen(c, tv, sv, parentTgt, name, mode, allocOk) == Fail(NotFound)
  {
  }

  /** Every outcome is EFI_SUCCESS with at least one backing handle, or an
      error with none, without the kexts-injected flag. */
  lemma {:induction false} OutcomeShape(c: Config, tv: VolumeView, sv: VolumeView, parentTgt: Option<Path>,
                                         name: Path, mode: Mode, allocOk: bool)
    requires ViewValid(tv)
    ensures var p := ResolveOpen(c, tv, sv, parentTgt, name, mode, allocOk);
      (p.status == Success && (p.tgtPath.Some? || p.srcPath.Some?) && p.fromTgt == p.tgtPath.Some?)
      || (IsError(p.status) && p == Fail(p.status))
  {
    if !Blacklisted(name, c.blacklist) && allocOk {
      ResolvedShape(c, tv, sv, parentTgt, name, mode);
    }
  }

  lemma ResolvedShape(c: Config, tv: VolumeView, sv: VolumeView, parentTgt: Option<Path>, name: Path, mode: Mode)
    requires ViewValid(tv)
    ensures WellShaped(Resolved(c, tv, sv, parentTgt, name, mode))
  {
    if KernelStep(c, sv, name, mode).None? {
      TargetStepShape(c, tv, sv, parentTgt, name, mode);
    }
  }

  predicate WellShaped(p: Plan) {
    (p.status == Success && (p.tgtPath.Some? || p.srcPath.Some?) && p.fromTgt == p.tgtPath.Some?)
    || (IsError(p.status) && p == Fail(p.status))
  }

  lemma TargetStepShape(c: Config, tv: VolumeView, sv: VolumeView, parentTgt: Option<Path>, name: Path, mode: Mode)
    requires ViewValid(tv)
    ensures WellShaped(TargetStep(c, tv, sv, parentTgt, name, mode))
    ensures WellShaped(Merge(c, sv, name, TargetStep(c, tv, sv, parentTgt, name, mode)))
  {
    var st3 := TargetStatus(tv, parentTgt, name, mode);
    assert st3 == Success || IsError(st3);
  }

  /** The new handle holds both backing handles only when its name is TgtDir
      (case-insensitively); the source handle is then SrcDir itself. */
  lemma BothOnlyAtInjectionPoint(c: Config, tv: VolumeView, sv: VolumeView, parentTgt: Option<Path>,
                                 name: Path, mode: Mode, allocOk: bool)
    ensures var p := ResolveOpen(c, tv, sv, parentTgt, name, mode, allocOk);
      p.tgtPath.Some? && p.srcPath.Some? ==>
        c.srcDir.Some? && StriEq(c.tgtDir, name) && p.srcPath == Some(ProtocolPath(c.srcDir.value))
  {
  }

  /** At the injection point a target-backed handle picks up SrcDir when it
      opens, and stays target-only (still EFI_SUCCESS) when it does not. */
  lemma MergeAtInjectionPoint(c: Config, tv: VolumeView, sv: VolumeView, parentTgt: Option<Path>,
                              name: Path, mode: Mode)
    requires !Blacklisted(name, c.blacklist) && KernelStep(c, sv, name, mode).None?
    requires parentTgt.Some? && TargetStatus(tv, parentTgt, name, mode) == Success
    requires c.srcDir.Some? && StriEq(c.tgtDir, name)
    ensures var p := ResolveOpen(c, tv, sv, parentTgt, name, mode, true);
      p.status == Success && p.tgtPath == Some(NormalizedFName(parentTgt.value, name))
      && (p.srcPath.Some? <==> ProtocolOpens(sv, c.srcDir.value, ReadMode))
  {
  }

  /** The target's EFI_WRITE_PROTECTED is returned as is: no injection, no
      reverse open. */
  lemma WriteProtectedIsTerminal(c: Config, tv: VolumeView, sv: VolumeView, parentTgt: Option<Path>,
                                 name: Path, mode: Mode)
    requires !Blacklisted(name, c.blacklist) && KernelStep(c, sv, name, mode).None?
    requires TargetStatus(tv, parentTgt, name, mode) == WriteProtected
    ensures ResolveOpen(c, tv, sv, parentTgt, name, mode, true) == Fail(WriteProtected)
  {
  }

  /** A name the target opens is served by the target, except for the kernel
      names, which the source shadows. */
  lemma TargetServesOrdinaryNames(c: Config, tv: VolumeView, sv: VolumeView, parentTgt: Option<Path>,
                                  name: Path, mode: Mode)
    requires !Blacklisted(name, c.blacklist) && !StriEq(name, MachKernel) && !StriEq(name, KernelsKernel)
    requires parentTgt.Some? && TargetStatus(tv, parentTgt, name, mode) == Success
    ensures var p := ResolveOpen(c, tv, sv, parentTgt, name, mode, true);
      p.status == Success && p.tgtPath == Some(NormalizedFName(parentTgt.value, name)) && p.fromTgt && !p.injected
  {
  }

  /** "\mach_kernel" present in SrcDir is opened from the source even when the
      target has it too. */
  lemma SourceShadowsMachKernel(c: Config, tv: VolumeView, sv: VolumeView, parentTgt: Option<Path>,
                                name: Path, mode: Mode)
    requires !Blacklisted(name, c.blacklist) && StriEq(name, MachKernel)
    requires c.srcDir.Some? && ProtocolOpens(sv, c.srcDir.value + name, mode)
    ensures ResolveOpen(c, tv, sv, parentTgt, name, mode, true)
         == Plan(Success, None, Some(ProtocolPath(c.srcDir.value + name)), false, false)
  {
    assert name[0] == '\\' by { assert ToUpper(name[0]) == ToUpper(MachKernel[0]); }
    EmptyTgtDirMapsEverything(c.srcDir.value, name);
  }

  /** "\System\Library\Kernels\kernel" is looked up in the source as
      "\kernel" first, then as "\mach_kernel". */
  lemma KernelsKernelOrder(c: Config, tv: VolumeView, sv: VolumeView, parentTgt: Option<Path>,
                           name: Path, mode: Mode)
    requires !Blacklisted(name, c.blacklist) && StriEq(name, KernelsKernel) && c.srcDir.Some?
    ensures var s := c.srcDir.value;
      var p := ResolveOpen(c, tv, sv, parentTgt, name, mode, true);
      (ProtocolOpens(sv, s + Kernel, mode) ==> p == Plan(Success, None, Some(ProtocolPath(s + Kernel)), false, false))
      && (!ProtocolOpens(sv, s + Kernel, mode) && ProtocolOpens(sv, s + MachKernel, mode) ==>
            p == Plan(Success, None, Some(ProtocolPath(s + MachKernel)), false, false))
  {
    assert !StriEq(name, MachKernel) by { assert |name| != |MachKernel|; }
    EmptyTgtDirMapsEverything(c.srcDir.value, Kernel);
    EmptyTgtDirMapsEverything(c.srcDir.value, MachKernel);
  }

  /** When the target does not open a name inside TgtDir (and did not refuse
      it as write-protected), it is opened from the mapped path in SrcDir, and
      the kexts-injected flag is raised. */
  lemma InjectionServesMissingNames(c: Config, tv: VolumeView, sv: VolumeView, parentTgt: Option<Path>,
                                    name: Path, mode: Mode)
    requires !Blacklisted(name, c.blacklist) && KernelStep(c, sv, name, mode).None?
    requires IsError(TargetStatus(tv, parentTgt, name, mode)) && TargetStatus(tv, parentTgt, name, mode) != WriteProtected
    requires c.srcDir.Some? && InjectionFName(Some(c.tgtDir), c.srcDir, Some(name)).Some?
    requires ProtocolOpens(sv, InjectionFName(Some(c.tgtDir), c.srcDir, Some(name)).value, mode)
    ensures var inj := InjectionFName(Some(c.tgtDir), c.srcDir, Some(name)).value;
      ResolveOpen(c, tv, sv, parentTgt, name, mode, true) == Plan(Success, None, Some(ProtocolPath(inj)), false, true)
  {
  }

  /** The reverse open on the target root happens only for a parent without a
      target handle: a target path with a parent that has one is always the
      parent-relative open of step 3. */
  lemma ReverseOpenOnlyWithoutParentTarget(c: Config, tv: VolumeView, sv: VolumeView, parentTgt: Option<Path>,
                                           name: Path, mode: Mode, allocOk: bool)
    ensures var p := ResolveOpen(c, tv, sv, parentTgt, name, mode, allocOk);
      p.tgtPath.Some? ==>
        (parentTgt.Some? ==> p.tgtPath == Some(NormalizedFName(parentTgt.value, name)))
        && (parentTgt.None? ==> p.tgtPath == Some(ProtocolPath(name)) && ProtocolOpens(tv, name, mode) && c.srcDir.Some?)
  {
  }

  /** The flag is raised exactly by a successful open of a mapped path. */
  lemma InjectedMeansMapped(c: Config, tv: VolumeView, sv: VolumeView, parentTgt: Option<Path>,
                            name: Path, mode: Mode, allocOk: bool)
    ensures var p := ResolveOpen(c, tv, sv, parentTgt, name, mode, allocOk);
      p.injected ==>
        p.status == Success && p.tgtPath.None? && c.srcDir.Some?
        && InjectionFName(Some(c.tgtDir), c.srcDir, Some(name)).Some?
        && p.srcPath == Some(ProtocolPath(InjectionFName(Some(c.tgtDir), c.srcDir, Some(name)).value))
  {
    if !Blacklisted(name, c.blacklist) && allocOk && KernelStep(c, sv, name, mode).None? {
      var p := TargetStep(c, tv, sv, parentTgt, name, mode);
      assert p.injected ==> Merge(c, sv, name, p) == p;
    }
  }
}
