# FSInject, the kext patcher and the menu scroll state of CloverPkg, in Dafny

This project models three parts of the Clover boot loader and proves properties of them.

**The FSInject overlay file system** (`Module/FSInject/FSInject.c`). FSInject replaces the
`EFI_SIMPLE_FILE_SYSTEM_PROTOCOL` of a target volume with an overlay.
- Names inside a target directory (TgtDir) that the target does not have are served from a
  source directory (SrcDir) on a source volume. These are the injected kexts.
- `\mach_kernel` and `\System\Library\Kernels\kernel` are looked up in the source first.
- Names with a blacklisted prefix are hidden.
- Reading TgtDir itself lists the source entries, then the target entries.
- Reads of some kexts' `Info.plist` rewrite `Safe Boot` / `Network-Root` to `Root`
  ("force load").

The model is in these modules:
- `Paths`: path composition and the TgtDir to SrcDir mapping.
- `OpenSpec`: the decision `FSI_FP_Open` makes, as a pure function.
- `OverlayRead`: what a read returns.
- `FSInject`: the overlay volume and file handle as classes whose methods are proved against
  those functions.
- `Native`: the firmware's own file system drivers that FSInject wraps. They are not part of the
  source. It models them as a deterministic volume of paths, with configurable faults.

**The kext patch engine** (`Library/Platform/KextPatcher.c`).
- Byte search-and-replace with wildcards (`KextPatcher`).
- The same over `Info.plist` text, stepping over whitespace inside a match (`KextTxt`).
- The patch-name match, the generic patch loop, and the two plist scanners that read a
  kext's bundle identifier and hide it from the kernel (`KextPlist`).

**The menu** (`Library/UI/Menu.c`).
- The scroll state `SCROLL_STATE` under `InitScroll` and `UpdateScroll` (`Menu`).
- The shortcut search `FindMenuShortcutEntry` (`Menu`).
- The text-field edits of `InputDialog` (`LineEdit`).

`Efi` holds the shared vocabulary: `EFI_STATUS` values, bytes, ASCII case folding,
`StrStr`-style search and NUL-terminated text.

Each class method is specified by a pure function of the old state. The properties are proved
about those functions, so they hold for the methods too. Where the code does something its
authors evidently did not intend, the model has two versions: one as written, with a lemma that
exhibits the problem, and one corrected, which the rest of the model uses (see "## Findings").

## Model

| member | source | states |
|---|---|---|
| Paths.LastIndexOf | Module/FSInject/FSInject.c:61-63 | the index returned holds the character and no later index does; None when the character is absent |
| Paths.NormalizedFName | Module/FSInject/FSInject.c:38-93 | GetNormalizedFName: an absolute name is kept, "." is the parent, ".." cuts the parent at its last backslash, any other name is appended after one backslash; the lemmas below state its properties |
| Paths.NormalizedIsAbsolute | Module/FSInject/FSInject.c:48-88 | normalizing any name against an absolute parent gives an absolute path |
| Paths.NormalizeDotIsIdentity | Module/FSInject/FSInject.c:54-56 | "." names the parent itself |
| Paths.NormalizedChildWellFormed | Module/FSInject/FSInject.c:75-88 | parent + "\" + segment is well formed, and no second backslash is added after the root |
| Paths.ChildThenParent | Module/FSInject/FSInject.c:60-71 | going into a segment and back with ".." returns to the parent |
| Paths.LastIndexIsUnique | Module/FSInject/FSInject.c:61 | the last occurrence is the only index with the character and none after it |
| Paths.WalkStopIsPrefixTest | Module/FSInject/FSInject.c:117-134 | the upper-casing walk consumes all of TgtDir exactly when TgtDir is a case-insensitive prefix of FName |
| Paths.WalkStop | Module/FSInject/FSInject.c:117-128 | the index at which the walk over TgtDir and FName stops under TO_UPPER; WalkStopIsPrefixTest ties it to the prefix test |
| Paths.InjectionFName | Module/FSInject/FSInject.c:102-155 | GetInjectionFName, with None for NULL; InjectionFNameSpec and InjectionFNameRejects state what it maps and what it refuses |
| Paths.InjectionFNameSpec | Module/FSInject/FSInject.c:112-155 | FName is mapped exactly when TgtDir is a case-insensitive prefix followed by "\", and the result is SrcDir + the rest |
| Paths.InjectionFNameRejects | Module/FSInject/FSInject.c:112-140 | a NULL argument, FName equal to TgtDir, or a path outside TgtDir gives NULL |
| Paths.InjectionFNameCaseInsensitive | Module/FSInject/FSInject.c:117-128 | names differing only in the ASCII case of their TgtDir part map alike |
| Paths.InjectionFNameExample | Module/FSInject/FSInject.c:95-99 | the worked example of the doc comment maps to "\efi\10.7\Xx.kext\Contents\Info.plist" |
| Paths.InjectionFNameOutsideExample | Module/FSInject/FSInject.c:130-133 | a path outside TgtDir is not mapped |
| Paths.EmptyTgtDirMapsEverything | Module/FSInject/FSInject.c:206 | with the empty TgtDir GetOpen passes, every absolute name maps to SrcDir + name |
| OpenSpec.Blacklisted | Module/FSInject/FSInject.c:246-259 | true exactly when some list entry is a case-insensitive prefix of the name |
| OpenSpec.BlacklistedIsNotFound | Module/FSInject/FSInject.c:246-259 | a blacklisted name is EFI_NOT_FOUND before any allocation or open |
| OpenSpec.ProtocolOpens | Module/FSInject/FSInject.c:160-187 | OpenFileProtocol yields a handle exactly when the volume opens and its root opens the name |
| OpenSpec.GetOpenSpec | Module/FSInject/FSInject.c:194-221 | GetOpen: the name placed under SrcDir and opened on the source volume; KernelsKernelOrder uses it |
| OpenSpec.KernelStep | Module/FSInject/FSInject.c:275-294 | step 2, kernel names from the source first; SourceShadowsMachKernel and KernelsKernelOrder state it |
| OpenSpec.TargetStatus | Module/FSInject/FSInject.c:296-309 | step 3, the parent's target handle opens the name, EFI_DEVICE_ERROR without one; TargetServesOrdinaryNames and WriteProtectedIsTerminal state it |
| OpenSpec.InjectStep | Module/FSInject/FSInject.c:315-356 | step 4, the mapped name opened in SrcDir; InjectionServesMissingNames and InjectedMeansMapped state it |
| OpenSpec.ReverseStep | Module/FSInject/FSInject.c:358-373 | step 5, the name opened from the target root; ReverseOpenOnlyWithoutParentTarget states when |
| OpenSpec.TargetStep | Module/FSInject/FSInject.c:296-373 | steps 3 to 5 in the source's order; TargetStepShape states its plans are well shaped |
| OpenSpec.Merge | Module/FSInject/FSInject.c:382-399 | step 6, SrcDir added to a target-backed TgtDir handle; MergeAtInjectionPoint and BothOnlyAtInjectionPoint state it |
| OpenSpec.TargetThenMerge | Module/FSInject/FSInject.c:296-399 | steps 3 to 6, the merge only after a successful target step; TargetStepShape covers it |
| OpenSpec.Resolved | Module/FSInject/FSInject.c:274-399 | steps 2 to 6 after the allocation; ResolvedShape states its plans are well shaped |
| OpenSpec.ResolveOpen | Module/FSInject/FSInject.c:226-423 | the whole FSI_FP_Open decision: blacklist, allocation, then the six steps; OutcomeShape and BlacklistedIsNotFound state it, and FSInject.OverlayFile.Open is proved against it |
| OpenSpec.OutcomeShape | Module/FSInject/FSInject.c:375-422 | every Open is EFI_SUCCESS with at least one backing handle and FromTgt set exactly when there is a target handle, or an error with no handle and no injection flag |
| OpenSpec.ResolvedShape | Module/FSInject/FSInject.c:274-400 | every plan the six steps produce is well shaped: a success names a handle, an error names none |
| OpenSpec.TargetStepShape | Module/FSInject/FSInject.c:296-399 | the target steps and the merge produce well-shaped plans |
| OpenSpec.BothOnlyAtInjectionPoint | Module/FSInject/FSInject.c:382-399 | a handle holds both backing handles only when its name equals TgtDir, and then its source handle is SrcDir |
| OpenSpec.MergeAtInjectionPoint | Module/FSInject/FSInject.c:382-399 | a target-backed TgtDir handle also gets SrcDir exactly when SrcDir opens, and succeeds either way |
| OpenSpec.WriteProtectedIsTerminal | Module/FSInject/FSInject.c:310-313 | the target's EFI_WRITE_PROTECTED is returned as is, with no injection or reverse open |
| OpenSpec.TargetServesOrdinaryNames | Module/FSInject/FSInject.c:296-309 | a non-kernel name the parent's target handle opens is served by the target, without injection |
| OpenSpec.SourceShadowsMachKernel | Module/FSInject/FSInject.c:275-282 | "\mach_kernel" present under SrcDir is opened from the source even when the target has it |
| OpenSpec.KernelsKernelOrder | Module/FSInject/FSInject.c:284-294 | "\System\Library\Kernels\kernel" is tried in the source as "\kernel" first, then as "\mach_kernel" |
| OpenSpec.InjectionServesMissingNames | Module/FSInject/FSInject.c:315-356 | a name under TgtDir that the target fails (other than write-protected) is opened at its mapped path in SrcDir and raises the kexts-injected flag |
| OpenSpec.ReverseOpenOnlyWithoutParentTarget | Module/FSInject/FSInject.c:358-373 | a target path comes from the parent's target handle, or from the target root only when the parent has none |
| OpenSpec.InjectedMeansMapped | Module/FSInject/FSInject.c:331-353 | the kexts-injected flag is raised only by a successful open of a mapped path, with no target handle |
| OverlayRead.DualReadSpec | Module/FSInject/FSInject.c:524-534 | the merged read never returns more than the buffer size |
| OverlayRead.Listing | Module/FSInject/FSInject.c:524-534 | the entries a caller collects from a merged directory; ListingIsSourceThenTarget states their order |
| OverlayRead.RetryReadSpec | Module/FSInject/FSInject.c:536-553 | a target-only read, retried once into a fresh buffer after EFI_INVALID_PARAMETER with size 0; RetryHidesRefusal states it |
| OverlayRead.Rewrite | Module/FSInject/FSInject.c:562-582 | one force-load rewrite; RewriteIsInPlace and RewriteChangesIffPresent state it |
| OverlayRead.ListingIsSourceThenTarget | Module/FSInject/FSInject.c:524-534 | reading an injection point until 0 bytes lists every source entry, then every target entry, in order |
| OverlayRead.RetryHidesRefusal | Module/FSInject/FSInject.c:541-553 | the one-shot retry with a fresh buffer makes a refused caller buffer give the same result as an accepted one |
| OverlayRead.RewriteIsInPlace | Module/FSInject/FSInject.c:562-582 | the force-load rewrite keeps the size and changes only the first Safe Boot window (26 bytes) or else the first Network-Root window (29 bytes) |
| OverlayRead.RewriteChangesIffPresent | Module/FSInject/FSInject.c:562-582 | the rewrite changes the text exactly when one of the two properties occurs in it |
| OverlayRead.ForceLoadAll | Module/FSInject/FSInject.c:555-585 | rewriting once per matching ForceLoadKexts entry keeps the length |
| OverlayRead.ForceLoadOnlyListedFiles | Module/FSInject/FSInject.c:559-561 | a file whose name contains no entry is returned untouched |
| OverlayRead.AsciiZ | Module/FSInject/FSInject.c:562 | the length AsciiStrStr sees inside the buffer: no NUL before it, a NUL at it, and the whole buffer exactly when it holds no NUL |
| OverlayRead.ForceLoadBufferAsWritten | Module/FSInject/FSInject.c:562-582 | as written, the search covers the caller buffer up to its first NUL, and is flagged as reading past the buffer exactly when the buffer holds no NUL and a listed file is searched |
| OverlayRead.SearchesPastEnd | Module/FSInject/FSInject.c:559-582 | a search runs over a text with no NUL for some ForceLoadKexts entry the file name contains |
| OverlayRead.ForceLoadAsWrittenOverreads | Module/FSInject/FSInject.c:562-574 | as written, a full read of "abc" for a listed kext runs AsciiStrStr past the buffer; corrected, the buffer is searched and kept |
| OverlayRead.ForceLoadBuffer | Module/FSInject/FSInject.c:555-585 | corrected: only the bytes read are searched; the rest of the buffer is kept |
| OverlayRead.ForceLoadAsWrittenReachesPastRead | Module/FSInject/FSInject.c:562-582 | a 0-byte read into a buffer holding an old plist is rewritten as written, and left alone when corrected |
| FSInject.Pool.Allocate | Module/FSInject/FSInject.c:1000 | an allocation succeeds exactly while the budget lasts, and then holds one more block |
| FSInject.Pool.AllocateCopy | Module/FSInject/FSInject.c:1027 | an infallible name copy holds one more block and leaves the budget alone |
| FSInject.Pool.Free | Module/FSInject/FSInject.c:452-457 | FreePool releases one block |
| FSInject.Pool.FreeSeveral | Module/FSInject/FSInject.c:977-987 | the error exit releases exactly the blocks it frees |
| FSInject.CreateStringList | Module/FSInject/FSInject.c:997-1007 | an empty list, or NULL exactly when the allocation fails |
| FSInject.AddStringToList | Module/FSInject/FSInject.c:1014-1034 | NULL for a NULL list or string; otherwise the string is appended at the tail, or NULL on allocation failure with the list unchanged |
| FSInject.OverlayFile.Open | Module/FSInject/FSInject.c:228-422 | status, backing handles, FromTgt and the kexts-injected flag are those of OpenSpec.ResolveOpen; a success adds exactly the new handle and its backing handles, and an error leaks nothing |
| FSInject.OverlayFile.OpenPrologue | Module/FSInject/FSInject.c:237-273 | corrected prologue: blacklist gives EFI_NOT_FOUND and failed allocation EFI_OUT_OF_RESOURCES, both freeing the name |
| FSInject.OverlayFile.OpenPrologueAsWritten | Module/FSInject/FSInject.c:250-269 | as written, both early returns keep the normalized name allocated |
| FSInject.OverlayFile.Close | Module/FSInject/FSInject.c:428-462 | closes both backing handles, returns the target's Close status (EFI_SUCCESS without one), and frees the name and the handle |
| FSInject.OverlayFile.Detach | Module/FSInject/FSInject.c:438-458 | hands over both backing handles, still open and owned by no overlay handle, and removes this handle from the volume |
| FSInject.OverlayFile.Delete | Module/FSInject/FSInject.c:467-499 | deletes through the target handle only and closes the source handle; EFI_WARN_DELETE_FAILURE without a target handle or on a read-only target |
| FSInject.OverlayFile.Read | Module/FSInject/FSInject.c:504-616 | dual read at the injection point; single-backed reads retry once; a target read of a listed kext gets the force-load rewrite on the bytes read |
| FSInject.OverlayFile.Write | Module/FSInject/FSInject.c:621-644 | writes through the target handle, else the source handle; the other volume is unchanged |
| FSInject.OverlayFile.SetPosition | Module/FSInject/FSInject.c:649-673 | both handles are moved; the status is the source's when there is one |
| FSInject.OverlayFile.GetPosition | Module/FSInject/FSInject.c:678-700 | the target handle's position, else the source's |
| FSInject.OverlayFile.GetInfo | Module/FSInject/FSInject.c:705-740 | the target's answer, else the source's; IsDir is updated from a successful EFI_FILE_INFO |
| FSInject.OverlayFile.SetInfo | Module/FSInject/FSInject.c:745-769 | forwarded to the target handle, else the source handle |
| FSInject.OverlayFile.Flush | Module/FSInject/FSInject.c:774-795 | forwarded to the target handle, else the source handle |
| FSInject.CreateFSInjectFP | Module/FSInject/FSInject.c:798-831 | a zeroed handle, or NULL exactly when the allocation fails |
| FSInject.OpenFileProtocol | Module/FSInject/FSInject.c:160-186 | a handle exactly when the volume and the name open; the root is closed again |
| FSInject.ReadRetrying | Module/FSInject/FSInject.c:541-553 | the result is OverlayRead.RetryReadSpec; retried bytes are copied back |
| FSInject.CopyMem | Module/FSInject/FSInject.c:548-550 | the first n bytes come from the retry buffer; the rest of the caller's buffer is kept |
| FSInject.ForceLoad | Module/FSInject/FSInject.c:555-585 | the buffer becomes OverlayRead.ForceLoadBuffer of the old buffer |
| FSInject.RewriteInPlace | Module/FSInject/FSInject.c:562-582 | the first n bytes become OverlayRead.Rewrite of themselves; the rest is kept |
| FSInject.OverlayVolume.Exclusive | Module/FSInject/FSInject.c:438-458 | no backing handle is shared between overlay handles, which is what lets Close and Delete close them |
| FSInject.OverlayVolume.IsBlacklisted | Module/FSInject/FSInject.c:246-259 | the blacklist loop computes OpenSpec.Blacklisted |
| FSInject.OverlayVolume.GetOpen | Module/FSInject/FSInject.c:194-221 | a source handle exactly for OpenSpec.GetOpenSpec, at the path it names |
| FSInject.OverlayVolume.Adopt | Module/FSInject/FSInject.c:304-404 | the new handle takes the backing handles, FromTgt is set exactly with a target handle, and it joins the volume |
| FSInject.OverlayVolume.KernelOpen | Module/FSInject/FSInject.c:275-294 | the kernel-name step computes OpenSpec.KernelStep |
| FSInject.OverlayVolume.ParentOpen | Module/FSInject/FSInject.c:296-309 | the status is OpenSpec.TargetStatus; a handle exactly on success with a parent target handle |
| FSInject.OverlayVolume.InjectOpen | Module/FSInject/FSInject.c:315-356 | computes OpenSpec.InjectStep and raises the flag as it says |
| FSInject.OverlayVolume.ReverseOpen | Module/FSInject/FSInject.c:358-373 | computes OpenSpec.ReverseStep |
| FSInject.OverlayVolume.TargetSteps | Module/FSInject/FSInject.c:296-373 | computes OpenSpec.TargetStep |
| FSInject.OverlayVolume.OpenBacking | Module/FSInject/FSInject.c:274-400 | the status and backing handles are OpenSpec.Resolved; only the handles it returns are added to the backing volumes |
| FSInject.OverlayVolume.TargetAndMerge | Module/FSInject/FSInject.c:296-400 | steps 3 to 6 compute OpenSpec.TargetThenMerge and open only the handles it names |
| FSInject.OverlayVolume.MergeStep | Module/FSInject/FSInject.c:382-399 | computes OpenSpec.Merge and keeps the target path |
| FSInject.OverlayVolume.Populate | Module/FSInject/FSInject.c:274-422 | steps 2 to 6 follow OpenSpec.Resolved; on error the name and handle are freed and no backing handle is kept |
| FSInject.OverlayVolume.CloseNative | Module/FSInject/FSInject.c:438-448 | Close returns the driver's status and the handle is no longer live |
| FSInject.OverlayVolume.DeleteNative | Module/FSInject/FSInject.c:477-480 | Delete removes the file unless the target is read-only, where it gives EFI_WARN_DELETE_FAILURE; the handle is closed either way |
| FSInject.OverlayVolume.OpenVolume | Module/FSInject/FSInject.c:842-882 | corrected: wraps the target root as "\" with FromTgt; the target's error is passed on; EFI_OUT_OF_RESOURCES closes the native root |
| FSInject.OverlayVolume.OpenVolumeAsWritten | Module/FSInject/FSInject.c:863-868 | as written, EFI_OUT_OF_RESOURCES leaves the native root open and held by no overlay handle |
| FSInject.SetupVolume | Module/FSInject/FSInject.c:924-964 | the volume, TgtDir and SrcDir copies are allocated or nothing is; a list is kept only when present and non-empty |
| FSInject.Install | Module/FSInject/FSInject.c:893-990 | corrected: the status is InstallStatus (OpenProtocol errors, then allocation, then reinstall), and every failure frees what was allocated |
| FSInject.InstallStatus | Module/FSInject/FSInject.c:893-990 | the status of FSInjectionInstall: the OpenProtocol errors, then EFI_OUT_OF_RESOURCES for a failed allocation, then the ReinstallProtocolInterface status |
| FSInject.InstallAsWritten | Module/FSInject/FSInject.c:966-971 | as written, a failed ReinstallProtocolInterface keeps the volume and the directory copies allocated |
| KextPatcher.MatchesIs | Library/Platform/KextPatcher.c:171-177 | the window test is the wildcard test when Wildcard is not 0xFF, and an exact compare otherwise |
| KextPatcher.InstantiateBytes | Library/Platform/KextPatcher.c:132-137 | each wildcard byte of Replace takes the source byte under it; the others are kept |
| KextPatcher.Instantiate | Library/Platform/KextPatcher.c:132-137 | the instantiated replacement has the length of Replace |
| KextPatcher.Replacement | Library/Platform/KextPatcher.c:144-148 | the bytes written over a window have its length |
| KextPatcher.InstantiateWithoutWildcard | Library/Platform/KextPatcher.c:144-148 | without a wildcard in Replace, the replacement is Replace itself |
| KextPatcher.FindWildcardPattern | Library/Platform/KextPatcher.c:114-151 | found exactly when every Search byte is the wildcard or equals the source byte; NewReplace is set exactly when found and Replace has a wildcard |
| KextPatcher.OrderedSpans | Library/Platform/KextPatcher.c:185-189 | ordered windows lie in bounds, are at least one Search long, and do not overlap |
| KextPatcher.CoveredIs | Library/Platform/KextPatcher.c:185-189 | covered means inside some replaced window |
| KextPatcher.Sar | Library/Platform/KextPatcher.c:171-191 | the scan from a position keeps the buffer's length |
| KextPatcher.SarHit | Library/Platform/KextPatcher.c:174-187 | a matching window is replaced, and the scan resumes past it with one replacement fewer left |
| KextPatcher.SarMiss | Library/Platform/KextPatcher.c:188-190 | a window that does not match is skipped by one byte |
| KextPatcher.SarDone | Library/Platform/KextPatcher.c:171-191 | the scan stops with nothing replaced past the last full window or when MaxReplaces is used up |
| KextPatcher.SarWindows | Library/Platform/KextPatcher.c:171-191 | replaced windows are Search-sized, in order, disjoint, inside the buffer, and no more than MaxReplaces when limited |
| KextPatcher.SarKeeps | Library/Platform/KextPatcher.c:171-191 | every byte outside the replaced windows is unchanged |
| KextPatcher.SarReplaces | Library/Platform/KextPatcher.c:174-187 | every replaced window matched Search in the original buffer and now holds its replacement |
| KextPatcher.SarMissesNothing | Library/Platform/KextPatcher.c:171-191 | while the budget lasts, no window the scan left uncovered matches Search |
| KextPatcher.SearchAndReplace | Library/Platform/KextPatcher.c:153-194 | corrected: 0 for a null source or empty Search; otherwise the buffer becomes SearchAndReplaceSpec and the count is its number of windows |
| KextPatcher.SearchAndReplaceSpec | Library/Platform/KextPatcher.c:153-194 | what SearchAndReplace does to a buffer; SarWindows, SarKeeps, SarReplaces and SarMissesNothing state it |
| KextPatcher.SarAsWritten | Library/Platform/KextPatcher.c:171-191 | the loop as written over the buffer and the memory after it; SarAsWrittenWritesPastEnd shows it writing past the end |
| KextPatcher.ReplaceWindow | Library/Platform/KextPatcher.c:174-187 | one round: a hit exactly when the window matches, and then the window is overwritten with its replacement |
| KextPatcher.SarAsWrittenWritesPastEnd | Library/Platform/KextPatcher.c:171 | as written, a window starting in the last SearchSize - 1 bytes writes past the buffer |
| KextTxt.VisibleSnoc | Library/Platform/KextPatcher.c:227-232 | the visible bytes of a text grow by a byte exactly when it is above 0x20 |
| KextTxt.MatchesBytes | Library/Platform/KextPatcher.c:234-238 | the window test byte by byte |
| KextTxt.WalkMatches | Library/Platform/KextPatcher.c:226-248 | a successful walk spans no NUL, and its visible bytes match Search |
| KextTxt.Walk | Library/Platform/KextPatcher.c:226-248 | a successful walk from k ends at least one byte per remaining Search byte later, inside the buffer |
| KextTxt.WalkTail | Library/Platform/KextPatcher.c:226-248 | the walk reads nothing before its start |
| KextTxt.FindTxt | Library/Platform/KextPatcher.c:221-263 | a found candidate starts at or after the scan position and its walk succeeds |
| KextTxt.Fill | Library/Platform/KextPatcher.c:250-273 | the text written over a span has the span's length |
| KextTxt.FindTxtLeftmost | Library/Platform/KextPatcher.c:221-263 | the candidate found is the left-most; every start passed over fails |
| KextTxt.FindTxtBeforeNul | Library/Platform/KextPatcher.c:221 | a candidate starts and ends before the first NUL |
| KextTxt.NulFromIs | Library/Platform/KextPatcher.c:221 | NulFrom is the first NUL at or after its start |
| KextTxt.NulFrom | Library/Platform/KextPatcher.c:221 | the first NUL lies between its start and the buffer end |
| KextTxt.WalkBeforeNul | Library/Platform/KextPatcher.c:226-232 | a walk never reads past the first NUL |
| KextTxt.TxtWindows | Library/Platform/KextPatcher.c:214-274 | replaced spans are ordered, disjoint, between the start and the first NUL, and no more than MaxReplaces when limited |
| KextTxt.Txt | Library/Platform/KextPatcher.c:214-274 | the scan keeps the buffer's length |
| KextTxt.SearchAndReplaceTxtSpec | Library/Platform/KextPatcher.c:196-277 | the whole operation keeps the buffer's length |
| KextTxt.TxtHit | Library/Platform/KextPatcher.c:250-273 | a candidate found is replaced and the scan resumes at its end with one replacement fewer left |
| KextTxt.TxtDone | Library/Platform/KextPatcher.c:214-221 | the scan stops with nothing replaced when no candidate is left or MaxReplaces is used up |
| KextTxt.TxtKeeps | Library/Platform/KextPatcher.c:269-273 | every byte outside the replaced spans is unchanged |
| KextTxt.TxtStopsAtNul | Library/Platform/KextPatcher.c:221 | nothing from the first NUL on changes |
| KextTxt.TxtReplaces | Library/Platform/KextPatcher.c:250-273 | every replaced span matched in the original and now holds the replacement followed by one space per byte stepped over |
| KextTxt.SearchAndReplaceTxt | Library/Platform/KextPatcher.c:196-277 | corrected: the buffer becomes SearchAndReplaceTxtSpec and the count is its number of spans; nothing happens for a null buffer or empty Search |
| KextTxt.MatchCandidate | Library/Platform/KextPatcher.c:222-248 | the comparison loop finds exactly what Walk finds |
| KextTxt.FindCandidate | Library/Platform/KextPatcher.c:221-263 | the candidate loop computes FindTxt and its fill |
| KextTxt.TxtNoWildcardComparesNothing | Library/Platform/KextPatcher.c:234-242 | as written, with Wildcard 0xFF "ab" is replaced under Search "xy"; corrected, nothing is |
| KextTxt.MatchAsWritten | Library/Platform/KextPatcher.c:226-248 | the comparison loop as written moves forward and leaves the text alone; it stays in the buffer or raises the overrun flag, and reaching the end of a buffer without a NUL raises it |
| KextTxt.CandidatesAsWritten | Library/Platform/KextPatcher.c:221-263 | the candidate loop as written leaves the text alone; reaching the buffer end raises the overrun flag, and from a position with no NUL after it the loop overruns unless it finds a match |
| KextTxt.TxtCaptureMisplaced | Library/Platform/KextPatcher.c:218-247 | as written, "bab" with Search "?b" becomes "bbc", the caller's Replace is changed and indexed past its end; corrected gives "bac" |
| KextTxt.TxtStalePosNeverEnds | Library/Platform/KextPatcher.c:221-273 | as written, a match ending just before a NUL is replaced again on every round, so an unlimited scan never ends; corrected stops after one replacement |
| KextTxt.TxtReadsPastEnd | Library/Platform/KextPatcher.c:221-232 | as written, "ab" with no NUL and Search "xy" is read past its end; corrected, the scan stops at the end and replaces nothing |
| KextTxt.RunAsWritten | Library/Platform/KextPatcher.c:214-274 | the outer loop as written, round by round, for a number of rounds; RunStops, TxtStalePosNeverEnds and TxtReadsPastEnd state how it behaves |
| KextTxt.StartAsWritten | Library/Platform/KextPatcher.c:196-213 | the variables of SearchAndReplaceTxt on entry to the outer loop |
| KextTxt.ReplacedAsWritten | Library/Platform/KextPatcher.c:250-273 | the end of a round that matched: Replace and the Skip spaces are written at Pos and the scan resumes after them |
| KextTxt.RunRound | Library/Platform/KextPatcher.c:214-274 | a round that finds a match goes on from the state ReplacedAsWritten leaves, with one round fewer |
| KextTxt.RunStops | Library/Platform/KextPatcher.c:214-217 | the outer loop exits, leaving the state as it is, when no full Search fits or MaxReplaces is used up |
| KextPlist.IsPatchNameMatch | Library/Platform/KextPatcher.c:279-292 | IsBundle is set exactly for a name with at least two dots |
| KextPlist.IsBundleName | Library/Platform/KextPatcher.c:287 | a name with at least two dots is a full bundle identifier |
| KextPlist.BundleNameMatchesOnlyItself | Library/Platform/KextPatcher.c:288-291 | a bundle name matches exactly its own identifier |
| KextPlist.ShortNameMatchesPlistText | Library/Platform/KextPatcher.c:288-290 | a short name with an Info.plist matches exactly when it occurs in the plist |
| KextPlist.NameMatchesItself | Library/Platform/KextPatcher.c:288-291 | a kext whose identifier is the patch name matches it, bundle name or short name |
| KextPlist.IsKextInBlockCachesList | Library/Platform/KextPatcher.c:786-802 | corrected: found exactly when some block-list entry names the kext |
| KextPlist.InBlockCachesList | Library/Platform/KextPatcher.c:786-802 | the intended test: some entry names the kext; BlockListNamesKext spells it out |
| KextPlist.InBlockCachesListAsWritten | Library/Platform/KextPatcher.c:795 | the test as written, with the arguments in the source's order; BlockListAsWrittenBlocksShortIds shows what it blocks |
| KextPlist.BlockListNamesKext | Library/Platform/KextPatcher.c:786-802 | a kext is blocked exactly when an entry is its full identifier, or a short name occurring in it |
| KextPlist.BlockListAsWrittenBlocksShortIds | Library/Platform/KextPatcher.c:795 | as written, any non-empty list blocks an identifier with fewer than two dots |
| KextPlist.BlockListEmptyIdBlocked | Library/Platform/KextPatcher.c:795 | as written, the empty identifier is blocked by a list naming only AppleHDA; corrected, it is not |
| KextPlist.AfterPatch | Library/Platform/KextPatcher.c:669-671 | Patched is raised exactly for an applied bundle-named patch; nothing else changes |
| KextPlist.Applies | Library/Platform/KextPatcher.c:651-657 | a patch goes to AnyKextPatch when it is neither patched nor disabled and its name matches the kext |
| KextPlist.AppliedBelow | Library/Platform/KextPatcher.c:650-673 | the indices the loop hands to AnyKextPatch; AppliedMembers and AppliedInOrder state which and in what order |
| KextPlist.AppliedMembers | Library/Platform/KextPatcher.c:651-658 | the patches applied are exactly those not patched, not disabled and matching the kext |
| KextPlist.AppliedInOrder | Library/Platform/KextPatcher.c:651-672 | patches are applied in list order, each at most once per kext |
| KextPlist.PatchKextGeneric | Library/Platform/KextPatcher.c:650-673 | the indices handed to AnyKextPatch are AppliedBelow, and the flags become AfterAll |
| KextPlist.AfterAll | Library/Platform/KextPatcher.c:651-672 | every patch is updated by AfterPatch |
| KextPlist.PatchAppliesOnce | Library/Platform/KextPatcher.c:652-671 | an applied bundle-named patch applies to no later kext; a short-named one is unchanged; a disabled one never applies |
| KextPlist.Find | Library/Platform/KextPatcher.c:717 | the first occurrence at or after the start, or none |
| KextPlist.NextTag | Library/Platform/KextPatcher.c:725-734 | the next tag lies at or after the position, inside the text |
| KextPlist.ExtractKextPropString | Library/Platform/KextPatcher.c:705-757 | Res is empty, or holds the value ExtractSpec reads followed by a NUL; the rest of Res is kept |
| KextPlist.ExtractSpec | Library/Platform/KextPatcher.c:714-757 | the value ExtractKextPropString reads; ExtractTakesFirstKey and ExtractReadsElement state which value it is |
| KextPlist.Scan | Library/Platform/KextPatcher.c:723-756 | the tag loop from a position at a dictionary depth; ScanFindsFirstHit states what it finds |
| KextPlist.ValueAt | Library/Platform/KextPatcher.c:736-744 | the value read for a key: the text between the next "<string>" and "</string>" when it fits; ValueAtIsElement states it |
| KextPlist.ScanTag | Library/Platform/KextPatcher.c:725-755 | one tag step preserves the scan's result or yields the span of the value |
| KextPlist.ReadValue | Library/Platform/KextPatcher.c:736-744 | the value span exists exactly when ValueAt finds one, and it fits in Len |
| KextPlist.CopyValue | Library/Platform/KextPatcher.c:741-742 | Res holds the value and a NUL; the rest is kept |
| KextPlist.ValueAtIsElement | Library/Platform/KextPatcher.c:736-744 | a value read is the whole text of a "<string>...</string>" element that fits with its NUL |
| KextPlist.ScanReadsElement | Library/Platform/KextPatcher.c:725-756 | a value the tag scan returns is the text of a string element after the position |
| KextPlist.ExtractReadsElement | Library/Platform/KextPatcher.c:714-757 | Res stays empty unless the plist has "<dict>" and the key, and then holds a string element's text |
| KextPlist.ExtractTakesFirstKey | Library/Platform/KextPatcher.c:714-757 | Res is empty without a "<dict>"; otherwise it holds the value of the first key at dictionary depth 1 past that "<dict>" whose value fits, and it is empty exactly when there is no such key |
| KextPlist.ScanFindsFirstHit | Library/Platform/KextPatcher.c:723-756 | from a tag at its depth the scan returns the value of the first key hit, and nothing exactly when there is none |
| KextPlist.StepAside | Library/Platform/KextPatcher.c:726-754 | past a tag that is no hit the scan goes on at the next "<" at the depth the text gives, passing no hit |
| KextPlist.DictBody | Library/Platform/KextPatcher.c:717-723 | the scan starts just past the first "<dict>", and there is none exactly when the text has no "<dict>" |
| KextPlist.Depth | Library/Platform/KextPatcher.c:726-733 | DictLevel at a position: 1 plus the "<dict>" minus the "</dict>" before it; DepthFlat states that text without "<" keeps it |
| KextPlist.NextStop | Library/Platform/KextPatcher.c:726-754 | the next tag position lies after the current one |
| KextPlist.ExtractReadsFirstKey | Library/Platform/KextPatcher.c:717-744 | a plist opening with "<dict>", the key and "<string>" reads up to the first "</string>" |
| KextPlist.ScanSkipsNested | Library/Platform/KextPatcher.c:726-734 | keys inside nested dictionaries are passed over |
| KextPlist.BlockListedKextCaches | Library/Platform/KextPatcher.c:771-783 | the plist becomes Blocked of the old plist |
| KextPlist.Blocked | Library/Platform/KextPatcher.c:776-782 | hiding the identifier keeps the plist's length |
| KextPlist.Spoil | Library/Platform/KextPatcher.c:779-781 | replacing one character of the first occurrence keeps the length |
| KextPlist.SpoilFirst | Library/Platform/KextPatcher.c:776-782 | without the key the text is unchanged; with it, exactly the chosen character of its first occurrence changes |
| KextPlist.FirstOccurrenceMoves | Library/Platform/KextPatcher.c:779-781 | after one character of the first occurrence is spoilt, any remaining occurrence starts later |
| KextPlist.BlockSpoilsFirstKey | Library/Platform/KextPatcher.c:776-782 | only the "C" of the first CFBundleIdentifier key changes, to "_"; the text keeps its length; a plist without the key is unchanged |
| Menu.Init | Library/UI/Menu.c:966-1012 | the sizes and the starting selection and window, for NoSelection and for a given selection |
| Menu.InitInRange | Library/UI/Menu.c:966-1012 | InitScroll gives a state whose selection and window are in range, with a given selection visible |
| Menu.UpdateFinishes | Library/UI/Menu.c:1167-1171 | after every movement LastSelection is the old selection, LastVisible is FirstVisible + MaxVisible, and PaintSelection is raised for a selection change without a full repaint |
| Menu.ScrollKeepsRange | Library/UI/Menu.c:1016-1172 | every corrected movement keeps the selection in 0 .. MaxIndex and the window in 0 .. MaxFirstVisible |
| Menu.ScrollKeepsVisible | Library/UI/Menu.c:1016-1172 | every corrected movement keeps a visible selection visible, PAGE_UP in a text menu; NONE shows a selection in row 0 |
| Menu.LineUpState | Library/UI/Menu.c:1024-1049 | LINE_UP keeps the state in range and the selection visible |
| Menu.LineDownState | Library/UI/Menu.c:1051-1067 | LINE_DOWN keeps the state in range and the selection visible |
| Menu.PageUpState | Library/UI/Menu.c:1069-1094 | the corrected PAGE_UP keeps the state in range, and the selection visible in a text menu |
| Menu.PageDownState | Library/UI/Menu.c:1096-1125 | the corrected PAGE_DOWN keeps the state in range and the selection visible |
| Menu.EndsState | Library/UI/Menu.c:1127-1147 | FIRST and LAST keep the state in range and the selection visible |
| Menu.NoneState | Library/UI/Menu.c:1149-1164 | NONE keeps the state in range, scrolls a selection in row 0 into view and keeps a shown selection shown |
| Menu.MovedKeeps | Library/UI/Menu.c:1016-1172 | a movement to an in-bounds selection and window gives a state in range |
| Menu.LineUpPos | Library/UI/Menu.c:1024-1049 | LINE_UP away from entry 0; LineUpKeeps and LineMoves state it |
| Menu.LineDownPos | Library/UI/Menu.c:1051-1067 | LINE_DOWN away from entry MaxIndex; LineDownKeeps and LineMoves state it |
| Menu.PageUpJump | Library/UI/Menu.c:1071-1087 | the page move of PAGE_UP, as written or with the clamp at MaxIndex; PageClampsAsWritten and PageUpAsWrittenLeavesRange state the difference |
| Menu.PageUpPos | Library/UI/Menu.c:1069-1094 | PAGE_UP away from entry 0; PageUpKeeps states it |
| Menu.PageDownJump | Library/UI/Menu.c:1098-1114 | the page move of PAGE_DOWN, as written or with the clamp at 0; PageClampsAsWritten and PageDownAsWrittenLeavesRange state the difference |
| Menu.PageDownPos | Library/UI/Menu.c:1096-1125 | PAGE_DOWN away from entry MaxIndex; PageDownKeeps and PageDownAsWrittenHidesSelection state it |
| Menu.FirstPos | Library/UI/Menu.c:1127-1136 | FIRST away from entry 0; FirstAndLast states it |
| Menu.LastPos | Library/UI/Menu.c:1138-1147 | LAST away from entry MaxIndex; FirstAndLast states it |
| Menu.NonePos | Library/UI/Menu.c:1149-1164 | NONE after the caller moved the selection; NoneKeeps states it |
| Menu.Update | Library/UI/Menu.c:1016-1172 | UpdateScroll, as written or with the corrected page moves; UpdateFinishes states its closing lines |
| Menu.Scrolled | Library/UI/Menu.c:1016-1172 | UpdateScroll with the corrected page moves; ScrollKeepsRange and ScrollKeepsVisible state it |
| Menu.LineUpKeeps | Library/UI/Menu.c:1024-1049 | LINE_UP from a selection above 0 lands in bounds with the selection visible |
| Menu.LineDownKeeps | Library/UI/Menu.c:1051-1067 | LINE_DOWN from a selection below MaxIndex lands in bounds with the selection visible |
| Menu.PageUpKeeps | Library/UI/Menu.c:1069-1094 | the corrected PAGE_UP lands in bounds |
| Menu.PageDownKeeps | Library/UI/Menu.c:1096-1125 | the corrected PAGE_DOWN lands in bounds with the selection visible |
| Menu.NoneKeeps | Library/UI/Menu.c:1149-1164 | NONE lands in bounds, brings a selection in row 0 (at most MaxScroll) into view, and keeps a shown selection shown |
| Menu.FirstAndLast | Library/UI/Menu.c:1127-1147 | FIRST selects 0 and never scrolls down; LAST selects MaxIndex and never scrolls up |
| Menu.LineMoves | Library/UI/Menu.c:1024-1067 | LINE_UP and LINE_DOWN move by one, wrap in loop mode, and stay at the end otherwise |
| Menu.PageClampsAsWritten | Library/UI/Menu.c:1086-1114 | as written, PAGE_UP only clamps at 0 and PAGE_DOWN only at the top |
| Menu.PageUpAsWrittenLeavesRange | Library/UI/Menu.c:1071-1073 | as written, PAGE_UP from the last of two entries with a one-line window selects entry 2 |
| Menu.PageDownAsWrittenLeavesRange | Library/UI/Menu.c:1098-1100 | as written, PAGE_DOWN from the first of two entries with a one-line window selects entry -1 |
| Menu.PageDownAsWrittenHidesSelection | Library/UI/Menu.c:1116-1122 | as written, PAGE_DOWN scrolls a second page and hides the selection |
| Menu.ScrollState.InitScroll | Library/UI/Menu.c:966-1012 | the fields become Init of the arguments |
| Menu.ScrollState.UpdateScroll | Library/UI/Menu.c:1016-1172 | the fields become Scrolled of the old state, so ScrollKeepsRange and ScrollKeepsVisible hold for them |
| Menu.ScrollState.Finish | Library/UI/Menu.c:1167-1171 | PaintSelection and LastVisible are updated; nothing else changes |
| Menu.ScrollState.ScrollFirst | Library/UI/Menu.c:1127-1136 | the state becomes Scrolled(old, First) |
| Menu.ScrollState.ScrollLast | Library/UI/Menu.c:1138-1147 | the state becomes Scrolled(old, Last) |
| Menu.ScrollState.ScrollLineUp | Library/UI/Menu.c:1024-1049 | the state becomes Scrolled(old, LineUp) |
| Menu.ScrollState.ScrollLineDown | Library/UI/Menu.c:1051-1067 | the state becomes Scrolled(old, LineDown) |
| Menu.ScrollState.ScrollPageUp | Library/UI/Menu.c:1069-1094 | the state becomes Scrolled(old, PageUp) |
| Menu.ScrollState.ScrollPageDown | Library/UI/Menu.c:1096-1125 | the state becomes Scrolled(old, PageDown) |
| Menu.ScrollState.PageUpJumpStep | Library/UI/Menu.c:1071-1094 | the page jump sets selection, window and PaintAll as PageUpJump says; nothing else changes |
| Menu.ScrollState.PageDownJumpStep | Library/UI/Menu.c:1098-1125 | the page jump sets selection, window and PaintAll as PageDownJump says; nothing else changes |
| Menu.ScrollState.ScrollNone | Library/UI/Menu.c:1149-1164 | the state becomes Scrolled(old, None) |
| Menu.FindMenuShortcutEntry | Library/UI/Menu.c:859-877 | the first entry whose shortcut digit or letter is the key; -1 exactly when the key is neither digit nor letter or no entry has it |
| LineEdit.CursorStaysInText | Library/UI/Menu.c:1274-1304 | RIGHT, LEFT, HOME and corrected END keep the cursor in the window and the text, moving it by one, to 0 and to the end |
| LineEdit.Right | Library/UI/Menu.c:1274-1282 | RIGHT; CursorStaysInText states it |
| LineEdit.Left | Library/UI/Menu.c:1284-1290 | LEFT; CursorStaysInText states it |
| LineEdit.Home | Library/UI/Menu.c:1292-1295 | HOME; CursorStaysInText states it |
| LineEdit.EndAsWritten | Library/UI/Menu.c:1297-1304 | END as written; EndAsWrittenLeavesText shows it leaving the text |
| LineEdit.End | Library/UI/Menu.c:1297-1304 | END corrected; CursorStaysInText states it |
| LineEdit.AfterBackspace | Library/UI/Menu.c:1357 | the cursor after BACKSPACE; EditsStayInText states it |
| LineEdit.AfterInsert | Library/UI/Menu.c:1382 | the cursor after a typed character; EditsStayInText states it |
| LineEdit.EditsStayInText | Library/UI/Menu.c:1357-1382 | backspace and a typed character move the cursor back or forward by one and keep it in the text |
| LineEdit.EndAsWrittenLeavesText | Library/UI/Menu.c:1297-1303 | as written, END on a short text with LineShift 1 puts the cursor past the end |
| LineEdit.RemoveAt | Library/UI/Menu.c:1330-1331 | the characters after k move one place down over k; the buffer size is kept |
| LineEdit.InsertAt | Library/UI/Menu.c:1377-1381 | the characters from k move one place up and c is stored at k |
| LineEdit.RemoveAtText | Library/UI/Menu.c:1329-1332 | removing inside the text shortens it by exactly that character and keeps it NUL-terminated |
| LineEdit.TextEndIs | Library/UI/Menu.c:1326 | the text ends at the first NUL |
| LineEdit.InsertAtText | Library/UI/Menu.c:1373-1381 | inserting a non-NUL character lengthens the text by exactly that character |
| LineEdit.InsertThenRemove | Library/UI/Menu.c:1349-1381 | typing a character and removing it at the same place restores the text |
| LineEdit.TextField.StrLen | Library/UI/Menu.c:1326 | the index of the first NUL |
| LineEdit.TextField.MoveRight | Library/UI/Menu.c:1274-1282 | the cursor becomes Right of the old one, and stays valid |
| LineEdit.TextField.MoveLeft | Library/UI/Menu.c:1284-1290 | the cursor becomes Left of the old one |
| LineEdit.TextField.MoveHome | Library/UI/Menu.c:1292-1295 | the cursor goes to column 0, with no shift |
| LineEdit.TextField.MoveEnd | Library/UI/Menu.c:1297-1304 | corrected: the cursor goes to the end of the text |
| LineEdit.TextField.ForwardDelete | Library/UI/Menu.c:1323-1344 | the character under the cursor is removed when there is one; otherwise nothing changes |
| LineEdit.TextField.Backspace | Library/UI/Menu.c:1348-1359 | with a non-empty text and Pos not 0, the character before the cursor is removed and the cursor steps back; otherwise nothing changes |
| LineEdit.TextField.Insert | Library/UI/Menu.c:1368-1385 | a printable ASCII character is inserted at the cursor while the text fits, and the cursor moves past it; otherwise nothing changes |
| LineEdit.TextField.ShiftDown | Library/UI/Menu.c:1330-1331 | the copy loop computes RemoveAt |
| LineEdit.TextField.ShiftUp | Library/UI/Menu.c:1377-1381 | the copy loop and the store compute InsertAt |

## Left out

- Firmware plumbing is not modelled. This covers `OpenProtocol`, `ReinstallProtocolInterface` and `InstallFSInjectionProtocol` / `FSInjectEntrypoint` (FSInject.c:1041-1096). Their results are parameters of `FSInject.Install`, or are not modelled at all.
- The native file system drivers FSInject forwards to are a deterministic model (`Native`).
  - It keeps a map of paths with per-path open faults.
  - It has a set of caller buffers the driver refuses: this is the alignment quirk behind the one-shot retry. A freshly allocated buffer is never refused.
  - Creating a missing file with EFI_FILE_MODE_CREATE is not modelled.
  - OpenMode attributes are not modelled.
- The `FSInject.KextsInjected` firmware variable is a boolean field of the overlay volume. The `GetVariable` probe before `SetVariable` is not modelled.
- Name copies (`AllocateCopyPool` in GetNormalizedFName, GetInjectionFName, OpenVolume and AddStringToList) are taken to succeed, as their callers do not check them. So are the retry buffer of Read (`AllocateZeroPool` at FSInject.c:544 and 594, `FSInject.ReadRetrying`) and the `TmpReplace` copy of FindWildcardPattern (KextPatcher.c:123, `KextPatcher.FindWildcardPattern`): a failed allocation there would write through NULL.
- `FSInject.OverlayVolume.Inv`, `FSInject.SetupVolume`, `FSInject.Install` and `FSInject.InstallAsWritten` require distinct target and source volumes. FSInjectionInstall also accepts TgtHandle == SrcHandle (booting from the OS volume); that aliasing is not modelled, and with it a write through one volume would show on the other.
- Blocks that are never freed are not tracked:
  - the `InjFName` strings of Open and GetOpen;
  - the temporary `TmpStr` of GetNormalizedFName.
- The `FSI_FILE_PROTOCOL` signature and the EFI revision fields are not modelled.
- `DBG` logging is not modelled.
- `FSInject.AddStringToList` follows the code: a NULL list gives NULL, and no list is created.
- `KextPlist.IsPatchNameMatch` takes bundle identifiers, names and plists as the text before their NUL. `AsciiStrStr` and `AsciiStrCmp` are modelled as sequence search and equality.
- `KextPlist.BlockListedKextCaches` uses `<key>CFBundleIdentifier</key>` for `PropCFBundleIdentifierKey`. The header that defines it is not part of this model.
- `KextPlist.ExtractKextPropString` models `DictLevel` (a UINTN) as an unbounded integer. A `</dict>` before any `<dict>` would wrap around in the source.
- `KextPlist.PatchKextGeneric` leaves out `AnyKextPatch` itself (Info.plist and binary patching through `SearchAndReplace` / `SearchAndReplaceTxt`). It also leaves out the dedicated patches PatchKext tries before the generic loop (ATI connectors, AppleIntelCPUPM and the others).
- `GetPlistHexValue` and the other plist helpers of KextPatcher.c are not part of this model.
- `KextPatcher.SearchAndReplace` takes `SourceSize` as the length of the buffer. The UINT32 width of SourceSize and the INTN width of MaxReplaces are not modelled; counts are unbounded integers.
- `KextTxt.SearchAndReplaceTxt` is stated for the corrected scan, which stops at the first NUL and at the buffer end. As written, the inner loops test only for a NUL and never for End (see "## Findings").
- `KextTxt.MatchAsWritten` and `KextTxt.CandidatesAsWritten`: what lies after the buffer is not modelled. A loop that reaches the buffer end stops there and raises the overrun flag, where the source reads on.
- `OverlayRead.AsciiZ` and `OverlayRead.ForceLoadBufferAsWritten`: what lies after the buffer is not modelled. A search over a buffer without a NUL is taken to end at the buffer end and is flagged as an over-read (see "## Findings").
- `Menu.FindMenuShortcutEntry` takes `IS_DIGIT` / `IS_ALFA` as ASCII digits and letters.
- Menu drawing is not modelled. `PaintAll` / `PaintSelection` are modelled as flags; what the painters do with them is not.
- `Menu.PageUpState`: selection visibility is stated only for text menus (MaxScroll == MaxIndex). In the graphical main menu the second row is always shown and is not part of the scrolling window.
- `Menu.NoneKeeps` and `Menu.NoneState`: NONE does not scroll for a selection in the second row of the graphical main menu (above MaxScroll), as in the source, so bringing it into view is stated only for row 0 and for a selection already shown.
- `LineEdit.TextField` models only the edit keys of `InputDialog`:
  - RIGHT, LEFT, HOME, END, DELETE, BACKSPACE and printable characters.
  - Each key is handled as one operation. The source reads the scan code and the Unicode character of one key stroke in turn.
  - Enter, Esc, the F-keys, and the boolean, radio and check-bit items are not modelled.
  - The buffer is `SVALUE_MAX_SIZE` bytes, i.e. `buffer.Length` two-byte characters.
- `LineEdit.TextField`: its methods require the cursor to be inside the text. The behaviour of the source's edits from a cursor already past the end is not modelled.

## Findings

| source | as written | input that shows it | evidently intended | confidence | as-written member | corrected member |
|---|---|---|---|---|---|---|
| Module/FSInject/FSInject.c:250-269 | the blacklist and allocation-failure returns skip ErrorExit, so the normalized name is never freed | Open of a blacklisted name | free NewFName before both returns | not executed | FSInject.OverlayFile.OpenPrologueAsWritten | FSInject.OverlayFile.OpenPrologue |
| Module/FSInject/FSInject.c:863-868 | a failed wrapper allocation returns with the target's root handle still open | OpenVolume when the pool is exhausted | close the native root before returning | not executed | FSInject.OverlayVolume.OpenVolumeAsWritten | FSInject.OverlayVolume.OpenVolume |
| Module/FSInject/FSInject.c:966-971 | a failed ReinstallProtocolInterface returns without freeing OurFS, TgtDir and SrcDir | Install with a reinstall error | leave through ErrorExit | not executed | FSInject.InstallAsWritten | FSInject.Install |
| Module/FSInject/FSInject.c:562-582 | AsciiStrStr searches the caller's buffer up to its first NUL, not the *BufferSize bytes just read | a successful 0-byte read into a buffer still holding `<string>Safe Boot</string>` and a NUL | search only the bytes read | not executed | OverlayRead.ForceLoadAsWrittenReachesPastRead | FSInject.ForceLoad |
| Module/FSInject/FSInject.c:562-574 | AsciiStrStr runs until a NUL, and a read that fills the buffer leaves none in it | a listed kext's Info.plist read as "abc" into a 3-byte buffer | search only the bytes read | not executed | OverlayRead.ForceLoadAsWrittenOverreads | FSInject.ForceLoad |
| Library/Platform/KextPatcher.c:171-176 | the loop runs while Source < End, so windows starting in the last SearchSize - 1 bytes are compared with, and written over, the memory after the buffer | a 1-byte buffer [1] followed by 2, Search [1, 2], Replace [3, 4] | loop while Source + SearchSize <= End | not executed | KextPatcher.SarAsWrittenWritesPastEnd | KextPatcher.SearchAndReplace |
| Library/Platform/KextPatcher.c:234-242 | with Wildcard 0xFF the comparison loop compares nothing, so any visible bytes match | text "ab", Search "xy", Replace "cd", Wildcard 0xFF | compare exactly, as SearchAndReplace does | not executed | KextTxt.TxtNoWildcardComparesNothing | KextTxt.SearchAndReplaceTxt |
| Library/Platform/KextPatcher.c:218-247 | NewReplace is the caller's Replace, and i runs on across candidates and counts skipped bytes, so captures land at the wrong index, in the caller's pattern and past its end | text "bab", Search "?b", Replace "?c", Wildcard '?' | capture per candidate, by Search position, into a copy | not executed | KextTxt.TxtCaptureMisplaced | KextTxt.SearchAndReplaceTxt |
| Library/Platform/KextPatcher.c:221-273 | after a replacement that ends just before a NUL the candidate loop does not run, Pos keeps the old match, and it is replaced again every round | text "ab\0xx", Search "ab", Replace "cd", MaxReplaces 0 | stop at the NUL | not executed | KextTxt.TxtStalePosNeverEnds | KextTxt.SearchAndReplaceTxt |
| Library/Platform/KextPatcher.c:221-232 | the candidate and comparison loops test only for a NUL, never for End | text "ab" with no NUL, Search "xy", Replace "cd" | stop at End as well | not executed | KextTxt.TxtReadsPastEnd | KextTxt.SearchAndReplaceTxt |
| Library/Platform/KextPatcher.c:795 | the block-list entry is passed as BundleIdentifier and the kext identifier as both Name and InfoPlist, so a short identifier matches itself | identifier "" with the list ["com.apple.driver.AppleHDA"] | test the entry as the patch name against the identifier | not executed | KextPlist.BlockListEmptyIdBlocked | KextPlist.IsKextInBlockCachesList |
| Library/UI/Menu.c:1071-1087 | PAGE_UP from the last entry subtracts MaxVisible - 1 and clamps only at 0 | two entries with a one-line window, selection 1 | clamp the selection at MaxIndex as well | not executed | Menu.PageUpAsWrittenLeavesRange | Menu.ScrollKeepsRange |
| Library/UI/Menu.c:1098-1114 | PAGE_DOWN from the first entry adds MaxVisible - 1 and clamps only at MaxIndex | two entries with a one-line window, selection 0 | clamp the selection at 0 as well | not executed | Menu.PageDownAsWrittenLeavesRange | Menu.ScrollKeepsRange |
| Library/UI/Menu.c:1109-1122 | after moving selection and window by a page, PAGE_DOWN compares with the old LastVisible and scrolls another page | 101 entries, six-line window, selection 1 after one LINE_DOWN | test against the moved window | not executed | Menu.PageDownAsWrittenHidesSelection | Menu.ScrollKeepsVisible |
| Library/UI/Menu.c:1297-1303 | END on a text shorter than the window sets Pos to the length and keeps LineShift | Pos 5, LineShift 1, text of 10 characters | reset LineShift to 0 | not executed | LineEdit.EndAsWrittenLeavesText | LineEdit.TextField.MoveEnd |
