# Eden core components in Dafny

This project models five pieces of the Eden emulator and proves properties
about them:

- **the native code execution (NCE) engine**: entering and leaving guest code, the
  halt-reason bitmask, the guest fault handlers, the thread-parameter
  spin-lock, the interrupt handshake and the register accessors
  (`nce_types.dfy`, `arm_nce.dfy`);
- **the external content indexer**: which files of the configured update
  and DLC folders are read, how each metadata archive becomes an update
  candidate or DLC records, and what a commit registers with the content
  provider: the latest version under the canonical update title ID and
  every distinct version under its own variant ID
  (`content_types.dfy`, `update_order.dfy`, `external_content_index.dfy`);
- **the per-game add-on page**: the key each patch is toggled under,
  which rows start disabled, how the default update row and its version
  variants are kept consistent, and how the disabled list is stored and
  the game-list cache invalidated (`string_order.dfy`, `per_game_addons.dfy`);
- **the play-time database**: the accessors, the 16-byte file record (two
  u64 values in host byte order, which is little-endian on the supported
  hosts), the reader and the writer, and the duration split
  (`play_time.dfy`);
- **host network interface selection**: the interface filter, the
  default-gateway lookup in the routing table, and the selection by name
  (`network_interface.dfy`).

`wrappers.dfy` holds the `Option` type, and `machine_integers.dfy` the
unsigned 64-bit range shared by title IDs, program IDs and play times.

Registers are `bv64`, vector registers `bv128`, and `pstate`, `fpcr` and `fpsr` are `bv32`. The `u64` arithmetic
of variant title IDs is written out modulo 2^64. Program IDs and play times
are integers below 2^64.

The following are inputs to the model rather than code in it:

- the transfer into guest code: how the slice ended and the registers it left;
- the single-instruction interpreter's answer;
- the guest memory manager's answer to a page invalidation;
- the results of parsing containers and metadata archives;
- the directory walk;
- the title-ID helpers;
- the file's presence and bytes;
- the interface-address list and the routing table.

Unordered map iteration, in the commit and in the play-time writer, is
modelled as follows:

- the commit result is a multiset, so the order does not matter;
- the writer takes an `order` parameter that enumerates the keys.

The comments in the source say that restore loads "all guest state except
tpidr_el0" (src/core/arm/nce/arm_nce.cpp:44) and that save stores "all guest
registers except tpidr_el0" (src/core/arm/nce/arm_nce.cpp:66), so save should
undo restore. The code as written does not: restore swaps `pc` and `sp`
(see Findings). The model follows the code. It also gives the corrected
restore and proves the round trip for it.

## Model

| member | source | states |
|---|---|---|
| ArmNce.Latch | src/core/arm/nce/arm_nce.cpp:102 | `fetch_or` of a halt reason leaves every bit already latched and the new reason set |
| ArmNce.LatchAddsNothingElse | src/core/arm/nce/arm_nce.cpp:102 | the latched mask has no bit beyond the old mask and the reason: any bit set that holds both holds the result |
| ArmNce.LatchZero | src/core/arm/nce/arm_nce.cpp:102 | the mask is zero after a latch exactly when both the old mask and the reason were zero |
| ArmNce.LatchKeeps | src/core/arm/nce/arm_nce.cpp:383 | latching never clears a reason already pending |
| ArmNce.LatchAll | src/core/arm/nce/arm_nce.cpp:383 | after any sequence of writers' `fetch_or`s, every reason written and every initially pending reason is in the mask |
| ArmNce.LatchAllAddsNothingElse | src/core/arm/nce/arm_nce.cpp:383 | after the sequence the mask holds no bit that was neither pending nor written by some writer |
| ArmNce.LatchAllZero | src/core/arm/nce/arm_nce.cpp:383 | the mask ends zero exactly when it started zero and every writer's reason was zero |
| ArmNce.Truncate32 | src/core/arm/nce/arm_nce.cpp:73 | `u32(pstate)` keeps exactly the low 32 bits |
| ArmNce.TruncateWidened | src/core/arm/nce/arm_nce.cpp:55 | a 32-bit pstate written to the 64-bit frame and truncated back is unchanged |
| ArmNce.SaveGuestContext | src/core/arm/nce/arm_nce.cpp:64-86 | leaving guest code captures every guest register except tpidr_el0, puts back the host stack, callee-saved x19..x30 and q8..q15, resumes at the saved x30, and hands the halt reasons over in x0 while clearing them; scratch registers are untouched |
| ArmNce.RestoreGuestContext | src/core/arm/nce/arm_nce.cpp:42-62 | entering guest code parks the host sp and q8..q15, loads x0..x30, q0..q31, pstate, fpcr and fpsr, returns the parameter block from x9, and (as written) puts the guest sp in PC and the guest pc in SP |
| ArmNce.RestoreGuestContextIntended | src/core/arm/nce/arm_nce.cpp:53-54 | the corrected entry: PC gets the guest pc and SP the guest sp, with the same parking of host state |
| ArmNce.RestoreThenSaveExchangesPcSp | src/core/arm/nce/arm_nce.cpp:42-86 | as written, a restore followed by a save swaps pc and sp and preserves every other guest register |
| ArmNce.RestoreThenSaveIsNotRoundTrip | src/core/arm/nce/arm_nce.cpp:53-54 | concrete witness: pc 0x1000, sp 0x2000 comes back with pc 0x2000 |
| ArmNce.RestoreThenSaveRoundTrip | src/core/arm/nce/arm_nce.cpp:42-86 | with the corrected restore, save undoes restore on every guest register; only the drained halt reasons (returned in x0) and the parked host state differ |
| ArmNce.HandleFailedGuestFault | src/core/arm/nce/arm_nce.cpp:88-115 | a data abort (fault address is not PC) skips exactly one 4-byte instruction and resumes; a prefetch abort latches PrefetchAbort, forces the running thread's lock held, saves the context and returns to the host with the reason in x0 |
| ArmNce.PageOf | src/core/arm/nce/arm_nce.cpp:134-135 | the faulting address rounded down to its 4 KiB page: page-aligned, at most the address, less than a page below it |
| ArmNce.HandleGuestAccessFault | src/core/arm/nce/arm_nce.cpp:129-143 | a fault whose page the memory manager can validate resumes at the same instruction with nothing changed; otherwise it is handled as an unresolvable fault |
| ArmNce.HandleGuestAlignmentFault | src/core/arm/nce/arm_nce.cpp:117-127 | an instruction the interpreter executes resumes at its continuation; otherwise the fault is unresolvable |
| ArmNce.EnterThread | src/core/arm/nce/arm_nce.cpp:179-191 | entering binds the running thread, points the thread at this engine's context, hands over tpidr_el0/tpidrro_el0 and marks it running; no other thread changes |
| ArmNce.RunGuest | src/core/arm/nce/arm_nce.cpp:196-200 | whichever way the slice ends, the host sees exactly that slice's halt reasons, the guest registers are captured, and the svc number is the one the supervisor-call stub stored, or the previous one if it stored none |
| ArmNce.EnterAndRun | src/core/arm/nce/arm_nce.cpp:174-217 | the entry path picks the trampoline exactly when the guest pc has a post handler; afterwards no thread is bound, the pending reasons are clear, the same threads exist and the host gets the slice's exit reason |
| ArmNce.EnterAndRunDetachesThread | src/core/arm/nce/arm_nce.cpp:202-214 | after a slice the thread is detached and not running, its final tpidr_el0 is copied back into the thread and the engine's context, a halt leaves its lock as it was on entry and a prefetch abort leaves it held, and other threads are untouched |
| ArmNce.EnterAndRunCapturesRegisters | src/core/arm/nce/arm_nce.cpp:196-214 | after a slice the engine's context holds the guest registers the slice left, with the thread's final tpidr_el0 |
| ArmNce.RunThread | src/core/arm/nce/arm_nce.cpp:166-218 | pending halt reasons are returned at once, drained, without touching any thread; otherwise the thread runs one slice; either way the bitmask ends clear |
| ArmNce.RunThreadSvcNumber | src/core/arm/nce/arm_nce.cpp:166-226 | after a run the number `GetSvcNumber` reads is the one stored by a supervisor call of that slice; a run that did not enter guest code, or a slice that stored none, leaves it as it was |
| ArmNce.StepThread | src/core/arm/nce/arm_nce.cpp:220-222 | stepping always reports StepThread and changes nothing |
| ArmNce.RunThreadPreservesQuiescence | src/core/arm/nce/arm_nce.cpp:208-211 | a run started with no thread bound or running ends the same way |
| ArmNce.HaltReasonsDrainedOnce | src/core/arm/nce/arm_nce.cpp:169-172 | a halt reason is reported by one run only: the next run enters guest code and reports only its own reasons |
| ArmNce.PrefetchAbortTerminatesRun | src/core/arm/nce/arm_nce.cpp:101-114 | a prefetch abort ends the run with PrefetchAbort reported, the lock held, the thread no longer running and the faulting pc saved |
| ArmNce.TryAcquire | src/core/arm/nce/arm_nce.cpp:155 | one acquisition attempt succeeds exactly when the lock is free and leaves it held |
| ArmNce.LockThread | src/core/arm/nce/arm_nce.cpp:153-156 | locking succeeds exactly on a free lock and changes only that thread's lock |
| ArmNce.UnlockThread | src/core/arm/nce/arm_nce.cpp:158-164 | unlocking copies the thread's tpidr_el0 and tpidrro_el0 into the engine context, detaches the thread and frees its lock |
| ArmNce.LockThenUnlockReleases | src/core/arm/nce/arm_nce.cpp:153-164 | lock followed by unlock leaves the thread as it was apart from being detached |
| ArmNce.SignalInterrupt | src/core/arm/nce/arm_nce.cpp:381-401 | BreakLoop is always latched without losing pending reasons; the lock stays held (signal sent) exactly when the thread was free and running, is released at once when it was not running, and a held lock means the caller keeps waiting |
| ArmNce.InterruptBeforeRunShortCircuits | src/core/arm/nce/arm_nce.cpp:383 | an interrupt requested before the thread is scheduled is not lost: the next run returns BreakLoop without entering guest code |
| ArmNce.GetContext | src/core/arm/nce/arm_nce.cpp:351-364 | the kernel thread context gets r0..r28, fp = x29, lr = x30, sp, pc, pstate, v0..v31, fpcr, fpsr and tpidr from the guest context |
| ArmNce.SetContext | src/core/arm/nce/arm_nce.cpp:366-379 | writing a thread context sets x0..x30, sp, pc, pstate, the vector registers, fpcr, fpsr and tpidr_el0 from it, and leaves the halt reasons, svc number, tpidrro_el0 and host area untouched |
| ArmNce.SetThenGetContext | src/core/arm/nce/arm_nce.cpp:351-379 | set then get returns the thread context that was set |
| ArmNce.GetThenSetContext | src/core/arm/nce/arm_nce.cpp:351-379 | get then set leaves the guest context unchanged |
| ArmNce.GetSvcArguments | src/core/arm/nce/arm_nce.cpp:228-232 | the eight arguments are x0..x7 |
| ArmNce.SetSvcArguments | src/core/arm/nce/arm_nce.cpp:234-238 | x0..x7 receive the eight results; x8..x30 and the rest of the context are unchanged |
| ArmNce.SetTpidrroEl0 | src/core/arm/nce/arm_nce.cpp:347-349 | only tpidrro_el0 changes |
| ExternalContentIndex.ToLowerCopy | src/core/file_sys/external_content_index.cpp:46-52 | same length, each character lower-cased, no upper-case ASCII letter left |
| ExternalContentIndex.ToLowerCopySuffix | src/core/file_sys/external_content_index.cpp:46-52 | lower-casing commutes with taking a suffix |
| ExternalContentIndex.RFindFrom | src/core/file_sys/external_content_index.cpp:102 | the result is the last occurrence starting at or before the bound, or none exists |
| ExternalContentIndex.RFind | src/core/file_sys/external_content_index.cpp:102 | `rfind` yields the last occurrence, and `npos` exactly when there is none |
| ExternalContentIndex.SuffixByRFindIsEndsWith | src/core/file_sys/external_content_index.cpp:102 | "long enough and the last occurrence starts at size minus pattern length" holds exactly when the string ends with the pattern |
| ExternalContentIndex.ContainerPathIsCaseInsensitiveSuffix | src/core/file_sys/external_content_index.cpp:100-107 | a file is opened as a package exactly when its path ends in `.nsp` in any letter case |
| ExternalContentIndex.LooseMetaPathIsCaseInsensitiveSuffix | src/core/file_sys/external_content_index.cpp:122-123 | a file is opened as loose metadata exactly when its path ends in `.cnmt.nca` in any letter case |
| ExternalContentIndex.FiltersAreDisjoint | src/core/file_sys/external_content_index.cpp:100-130 | no path passes both filters |
| ExternalContentIndex.LastResolved | src/core/file_sys/external_content_index.cpp:168-173 | the index of the last record of a given type whose file was found, or none was found |
| ExternalContentIndex.CollectNcas | src/core/file_sys/external_content_index.cpp:168-173 | every file a candidate holds for a record type is the resolved file of some record of that type |
| ExternalContentIndex.CollectNcasLastWins | src/core/file_sys/external_content_index.cpp:168-173 | a candidate has a file of a type exactly when some record of that type resolved, and it holds the last such record's file |
| ExternalContentIndex.ResolvedIndices | src/core/file_sys/external_content_index.cpp:176-185 | exactly the positions of the add-on's records whose file was found, ascending |
| ExternalContentIndex.DlcRecords | src/core/file_sys/external_content_index.cpp:176-185 | the DLC records are one per resolved content record, in record order, each under the archive's own title ID with that record's file, and nothing else |
| ExternalContentIndex.DlcRecordsMembership | src/core/file_sys/external_content_index.cpp:176-185 | there are at most as many DLC records as content records, all under the archive's title ID, and every resolved record is among them |
| ExternalContentIndex.IndexMeta | src/core/file_sys/external_content_index.cpp:163-185 | an update is appended under its base title only when found in an update folder, under the update title ID; an add-on appends its records from either kind of folder; anything else changes nothing |
| ExternalContentIndex.IndexMetas | src/core/file_sys/external_content_index.cpp:131-160 | recording a package's archives keeps everything collected before, in order: the DLC list and each title's candidate list only grow at the end |
| ExternalContentIndex.IndexContainerFile | src/core/file_sys/external_content_index.cpp:100-107 | a file is opened as a package only if its path ends in `.nsp`; otherwise nothing changes, and in any case nothing collected is lost |
| ExternalContentIndex.IndexLooseFile | src/core/file_sys/external_content_index.cpp:118-127 | a file contributes as loose metadata only if it is a regular file ending in `.cnmt.nca` that parses; otherwise nothing changes, and in any case nothing collected is lost |
| ExternalContentIndex.IndexDir | src/core/file_sys/external_content_index.cpp:54-130 | a missing path contributes nothing, and indexing a path only appends to what the earlier paths collected |
| ExternalContentIndex.IgnoredFileChangesNothing | src/core/file_sys/external_content_index.cpp:54-130 | a file passing neither filter does not affect a folder's contribution |
| ExternalContentIndex.DlcDirsAddNoUpdates | src/core/file_sys/external_content_index.cpp:77-98 | DLC folders never contribute update candidates, whatever they contain |
| ExternalContentIndex.UpdateEntries | src/core/file_sys/external_content_index.cpp:281-286 | registrations under one title ID are exactly the candidate's non-null files, one per record type |
| ExternalContentIndex.VariantTitleIdsDistinct | src/core/file_sys/external_content_index.cpp:288-291 | the update title ID plus `i + 1`, modulo 2^64, never equals the canonical ID, and different versions get different IDs (fewer than 2^64 - 1 versions) |
| ExternalContentIndex.LatestCandidate | src/core/file_sys/external_content_index.cpp:269-280 | after the stable sort and de-duplication the last entry is a discovered candidate of the highest version, the first one discovered with that version |
| ExternalContentIndex.VariantEntriesMembership | src/core/file_sys/external_content_index.cpp:289-297 | a registration is among the variants exactly when one distinct version holds it under that version's variant ID |
| ExternalContentIndex.CanonicalHoldsLatest | src/core/file_sys/external_content_index.cpp:279-286 | under the canonical update ID a title registers exactly the latest candidate's non-null files, each once |
| ExternalContentIndex.VariantHoldsItsVersion | src/core/file_sys/external_content_index.cpp:288-297 | under the i-th variant ID a title registers exactly the i-th distinct version's files |
| ExternalContentIndex.CommitTitle | src/core/file_sys/external_content_index.cpp:266-299 | a base title registers only update entries |
| ExternalContentIndex.CommitTitleMembership | src/core/file_sys/external_content_index.cpp:266-299 | a base title registers exactly the latest candidate's files under the canonical update ID and each distinct version's files under its variant ID |
| ExternalContentIndex.CommitUpdatesMembership | src/core/file_sys/external_content_index.cpp:266-299 | the update registrations are exactly the union of every base title's registrations, and all of them are update entries |
| ExternalContentIndex.DlcEntries | src/core/file_sys/external_content_index.cpp:301-306 | every DLC record with a file is registered as AOC data under its title ID, and nothing else is |
| ExternalContentIndex.DlcEntriesKeepDuplicates | src/core/file_sys/external_content_index.cpp:301-306 | DLC is not de-duplicated: a record found k times is handed to the provider k times |
| ExternalContentIndex.Commit | src/core/file_sys/external_content_index.cpp:261-311 | the AOC registrations are exactly the DLC ones and all others exactly the update ones; nothing is registered as any other title type |
| ExternalContentIndex.Rebuild | src/core/file_sys/external_content_index.cpp:31-44 | a rescan registers only update and AOC entries |
| ExternalContentIndex.RebuildUpdatesFromUpdateDirsOnly | src/core/file_sys/external_content_index.cpp:31-44 | the update registrations of a rescan are the same with or without the DLC folders |
| UpdateOrder.InsertWithVersion | src/core/file_sys/external_content_index.cpp:270-272 | insertion into a version-sorted list keeps the relative order of each version's candidates |
| UpdateOrder.StableSortByVersion | src/core/file_sys/external_content_index.cpp:270-272 | the result is a version-sorted permutation |
| UpdateOrder.StableSortKeepsOrder | src/core/file_sys/external_content_index.cpp:270-272 | the sort is stable: candidates of one version keep their discovery order |
| UpdateOrder.UniqueAscending | src/core/file_sys/external_content_index.cpp:273-277 | after removing adjacent equal versions from a sorted list, versions strictly ascend |
| UpdateOrder.UniqueVersions | src/core/file_sys/external_content_index.cpp:273-277 | de-duplication drops no version |
| UpdateOrder.UniqueKeepsFirst | src/core/file_sys/external_content_index.cpp:273-277 | `std::unique` keeps the first element of each run of equal versions |
| UpdateOrder.DedupeKeepsEarliestPerVersion | src/core/file_sys/external_content_index.cpp:269-277 | each distinct version is represented by its earliest-discovered candidate, in ascending version order |
| UpdateOrder.DedupeLastIsLatest | src/core/file_sys/external_content_index.cpp:280 | the last remaining candidate has the highest version discovered |
| PerGameAddons.ToggleKey | src/yuzu/configuration/configure_per_game_addons.cpp:154-165 | non-update patches are keyed by their name; every update's key starts with "Update" |
| PerGameAddons.UpdateKeyCarriesVersion | src/yuzu/configuration/configure_per_game_addons.cpp:157-165 | an update's key is plain "Update" exactly for a version-less or packed update; otherwise it is "Update v" followed by the version, which can be read back |
| PerGameAddons.VersionedUpdateKeysDistinct | src/yuzu/configuration/configure_per_game_addons.cpp:160-161 | two versioned updates share a key exactly when they share a version |
| PerGameAddons.InitiallyDisabledCases | src/yuzu/configuration/configure_per_game_addons.cpp:172-180 | a non-update row starts disabled exactly when its name is disabled; the default update row exactly when "Update" is; "Update" disables every update row; without it a versioned update follows its "Update v" key |
| PerGameAddons.AddRow | src/yuzu/configuration/configure_per_game_addons.cpp:184-199 | one row is appended and earlier rows are kept; it carries the patch's key, starts unchecked exactly when the patch is initially disabled, is a variant exactly when it is a non-default update loaded after a default row, and a default update becomes the new default row |
| PerGameAddons.LoadConfiguration | src/yuzu/configuration/configure_per_game_addons.cpp:130-204 | one row per patch in order; each row has the patch's key and starts unchecked exactly when its key is disabled, or when it is a non-default update and "Update" is disabled; a non-default update is a variant exactly when a version-less update came before it; the default row is the last version-less update |
| PerGameAddons.UncheckVariants | src/yuzu/configuration/configure_per_game_addons.cpp:216-227 | exactly the variant rows other than the kept one are unchecked; keys and placement are unchanged |
| PerGameAddons.OnItemChanged | src/yuzu/configuration/configure_per_game_addons.cpp:206-233 | rows whose key does not start with "Update" are ignored, so a mod or DLC named "Update…" is handled like an update row; an unchecked default row leaves no variant checked; a checked update row other than the default leaves at most one variant checked (itself) and the default row checked; a checked default row or an unchecked variant changes nothing; the default row is never changed by its own toggle; top-level non-default rows never change |
| PerGameAddons.UpdatePrefixedRowActsAsUpdate | src/yuzu/configuration/configure_per_game_addons.cpp:209-232 | checking any top-level row other than the default whose key starts with "Update" unchecks every variant and checks the default row, because the handler tests only the key's prefix |
| PerGameAddons.NonUpdateKeyCanLookLikeUpdate | src/yuzu/configuration/configure_per_game_addons.cpp:154-155 | a mod or DLC whose name starts with "Update" is keyed by that name, so its key carries the prefix the handler tests |
| PerGameAddons.UserToggle | src/yuzu/configuration/configure_per_game_addons.cpp:206-233 | the toggled row keeps the state the user gave it |
| PerGameAddons.CheckingVariantIsExclusive | src/yuzu/configuration/configure_per_game_addons.cpp:224-232 | checking a variant makes it the only checked variant and checks the default row |
| PerGameAddons.UncheckingDefaultClearsVariants | src/yuzu/configuration/configure_per_game_addons.cpp:214-221 | unchecking the default row unchecks every variant |
| PerGameAddons.UncheckedKeys | src/yuzu/configuration/configure_per_game_addons.cpp:88-96 | each key is listed as often as there are unchecked rows carrying it |
| PerGameAddons.ApplyConfiguration | src/yuzu/configuration/configure_per_game_addons.cpp:75-107 | the default row ends checked when it was checked or a variant is checked, and no other row changes; the stored list is the sorted unchecked keys; the cache entry is removed exactly when the new and previous lists differ as multisets |
| PerGameAddons.StoredKeysAreUncheckedRows | src/yuzu/configuration/configure_per_game_addons.cpp:88-106 | a key is stored exactly when some row of the applied page is unchecked with that key |
| StringOrder.LessEqTotal | src/yuzu/configuration/configure_per_game_addons.cpp:99-100 | the string order `std::sort` uses is total |
| StringOrder.LessEqAntisymmetric | src/yuzu/configuration/configure_per_game_addons.cpp:99-100 | it is antisymmetric |
| StringOrder.LessEqTransitive | src/yuzu/configuration/configure_per_game_addons.cpp:99-100 | it is transitive |
| StringOrder.Sort | src/yuzu/configuration/configure_per_game_addons.cpp:99-100 | sorting yields a sorted permutation |
| StringOrder.SortedPermutationsEqual | src/yuzu/configuration/configure_per_game_addons.cpp:99-101 | two sorted lists with the same elements are equal |
| StringOrder.SortEqualIffSameMultiset | src/yuzu/configuration/configure_per_game_addons.cpp:99-101 | two lists sort equal exactly when they hold the same strings equally often |
| PlayTime.GetPlayTime | src/frontend_common/play_time_manager.cpp:149-156 | the recorded time, or 0 for a program never recorded |
| PlayTime.SetPlayTime | src/frontend_common/play_time_manager.cpp:158-161 | the program is recorded with the new time, and every other record is kept |
| PlayTime.ResetProgramPlayTime | src/frontend_common/play_time_manager.cpp:163-166 | the program's record is removed and every other record is kept |
| PlayTime.SetThenGet | src/frontend_common/play_time_manager.cpp:149-161 | after a set the program reads the new time and no other program changes |
| PlayTime.ResetThenGet | src/frontend_common/play_time_manager.cpp:149-166 | after a reset the program reads 0 and no other program changes |
| PlayTime.DecodeEncodeLE | src/frontend_common/play_time_manager.cpp:23-26 | decoding the eight bytes of a u64, least significant first, undoes encoding for every value that fits |
| PlayTime.DecodeEncodeElement | src/frontend_common/play_time_manager.cpp:23-26 | a 16-byte element (program ID, then play time) decodes to itself |
| PlayTime.DeserializeSerialize | src/frontend_common/play_time_manager.cpp:51-58 | the whole elements of a file image decode to the list that was written |
| PlayTime.WriteElements | src/frontend_common/play_time_manager.cpp:84-93 | the writer emits each recorded program except program 0 with its recorded time, and nothing else |
| PlayTime.WrittenIdsDistinct | src/frontend_common/play_time_manager.cpp:84-91 | no program is written twice |
| PlayTime.LoadElements | src/frontend_common/play_time_manager.cpp:58-62 | the reader records exactly the nonzero program IDs of the file |
| PlayTime.LoadElementsLastWins | src/frontend_common/play_time_manager.cpp:58-62 | for a program listed more than once, the last element's time wins |
| PlayTime.ReadPlayTimeFile | src/frontend_common/play_time_manager.cpp:32-66 | a missing file reads as an empty database; an unopenable file or a short read fails with the database cleared; otherwise the read succeeds without program 0 |
| PlayTime.TrailingBytesIgnored | src/frontend_common/play_time_manager.cpp:51 | bytes past the last whole element do not matter |
| PlayTime.WriteThenRead | src/frontend_common/play_time_manager.cpp:32-94 | reading back what the writer stores gives the database without program 0, in any iteration order |
| PlayTime.Hours | src/frontend_common/play_time_manager.cpp:189-191 | the whole hours of a duration: that many hours fit and one more does not |
| PlayTime.Minutes | src/frontend_common/play_time_manager.cpp:193-195 | the whole minutes past the last whole hour: below 60 |
| PlayTime.Seconds | src/frontend_common/play_time_manager.cpp:197-199 | the seconds past the last whole minute: below 60 |
| PlayTime.DurationDecomposition | src/frontend_common/play_time_manager.cpp:189-199 | hours, minutes and seconds recompose the duration, with minutes and seconds below 60 |
| PlayTime.ReadablePlayTime | src/frontend_common/play_time_manager.cpp:168-187 | no text exactly for zero; minutes exactly below one hour; above that, a decimal hour exactly when the seconds are not whole minutes |
| NetworkInterface.FindGatewayRoute | src/core/internal_network/network_interface.cpp:127-131 | the first default route of the interface through a gateway, or none exists |
| NetworkInterface.Gateway | src/core/internal_network/network_interface.cpp:126-133 | the gateway of the first matching route, or 0 when no route matches |
| NetworkInterface.UsableReadsUpAndLoopbackOnly | src/core/internal_network/network_interface.cpp:121-125 | of the interface flags, the filter reads only the up and loopback bits |
| NetworkInterface.UsableIndices | src/core/internal_network/network_interface.cpp:121-125 | exactly the positions of entries with an IPv4 address and a netmask, up and not loopback, in list order |
| NetworkInterface.GetAvailableNetworkInterfaces | src/core/internal_network/network_interface.cpp:88-143 | a failing interface query offers nothing; otherwise one interface per usable entry, in order, with its address, netmask and gateway |
| NetworkInterface.FindByName | src/core/internal_network/network_interface.cpp:152-154 | the first interface of that name, or none exists |
| NetworkInterface.GetSelectedNetworkInterface | src/core/internal_network/network_interface.cpp:147-166 | none when nothing is offered; the first interface for an empty setting; otherwise the first interface of the configured name, and none exactly when no interface has that name |
| NetworkInterface.SelectFirstNetworkInterface | src/core/internal_network/network_interface.cpp:168-171 | the setting becomes the first interface's name, and stays as it was when none is offered |
| NetworkInterface.SelectFirstThenSelected | src/core/internal_network/network_interface.cpp:147-171 | after "select first", the selected interface is the first one offered |

## Left out

- Signal-handler installation, the alternate signal stack and `posix_gettid` (src/core/arm/nce/arm_nce.cpp:248-345): host OS plumbing with no logic of the engine in it.
- The forwarding of host faults to the previous handlers (src/core/arm/nce/arm_nce.cpp:145-151): calls into code outside the model.
- The signal that `SignalInterrupt` sends to a running thread (src/core/arm/nce/arm_nce.cpp:392-396): the outcome `SignalSent` stands for it.
- Instruction-cache maintenance (src/core/arm/nce/arm_nce.cpp:403-438): it only issues hardware barriers and prefetches.
- The trampoline and exception-level transfer routines, and the interpreter behind `MatchAndExecuteOneInstruction`: these are not part of this model, and their results are inputs.
- Memory fences and the concurrent interleavings of `SignalInterrupt` with a running slice: the engine is modelled sequentially, and a held lock gives the `LockBusy` outcome instead of spinning.
- The guest context's `parent` and `system` pointers: not modelled, because the running thread is a field of the engine.
- ArmNce.GetSvcNumber: it only reads the svc field, so it has no contract of its own; ArmNce.RunThreadSvcNumber states what it reads after a run.
- ArmNce.PageOf: the 4 KiB guest page size is taken from the emulator's memory header, which is not part of this model.
- NSP and NCA parsing, `ExtractCnmtFromMetaNca`, `IsMeta` and opening files through the virtual filesystem: their results are inputs to the model.
- The recursive directory walk: the walk order is an input, and the exception handlers and error codes of `std::filesystem` are not modelled.
- The early `break` of the loose-metadata walk on an iteration error (src/core/file_sys/external_content_index.cpp:117-118): not modelled, because the walk is an input.
- ExternalContentIndex.CommitUpdates: the unordered map of base titles is walked in ascending key order. The commit result is a multiset, so no property depends on the order.
- ExternalContentIndex.VariantTitleIdsDistinct: it assumes fewer than 2^64 - 1 distinct versions per title. Beyond that the 64-bit sum wraps onto the canonical ID.
- The log messages and the variant count used only for logging (src/core/file_sys/external_content_index.cpp:298, 308-310): no effect on the index.
- The Qt widgets, retranslation and the tree-view layout: the add-on page is modelled as rows with a key, a placement and a check state.
- PerGameAddons.OnItemChanged: it models one reaction to one change. In Qt, each `setCheckState` it performs re-enters the handler. Those nested reactions only uncheck variants or check the default row, which cannot change the outcome, so they are not modelled separately.
- PerGameAddons.ApplyConfiguration: the cache file it deletes is represented by the `removeCache` flag, and the settings store by the returned list.
- `AutoTimestamp`, the play-time thread, the steady clock and the wrap of `+=` on a `u64` counter: these depend on time and concurrency.
- `Save`, file opening and the path lookup: the file is an input (`FileState`). The missing-path branch cannot be reached, because the path lookup always returns a value.
- PlayTime.WriteElements: the enumeration of the unordered map is the `order` parameter. A failed write is not modelled, because its only effect is a log line.
- PlayTime.ReadablePlayTime: it chooses between the forms but does not format the floating-point number (`{:.0f}`, `{:.1f}`).
- PlayTime.Hours: like PlayTime.Minutes and PlayTime.Seconds, it returns the number, not its decimal string.
- ArmNce.EnterAndRunDetachesThread: the trampoline and exception-level transfer routines are not part of this model, so their own effect on the thread's lock is folded into `ThreadsAfterExit`: a halt leaves the lock as it was on entry, and only the prefetch-abort handler takes it.
- The second `itemChanged` connection, which marks a game-list reload pending on every change of a row (src/yuzu/configuration/configure_per_game_addons.cpp:69-70): the reload flag is a global UI setting outside the page, so only the cache removal of `ApplyConfiguration` is modelled.
- The early return of `LoadConfiguration` when the page has no game file (src/yuzu/configuration/configure_per_game_addons.cpp:131-133): the model's page always belongs to a game, so the page is built from the patch list alone.
- The Windows branch of `GetAvailableNetworkInterfaces` and the parsing of `/proc/net/route` (src/core/internal_network/network_interface.cpp:29-85, 104-118): platform code. The routing table is an input, and an unreadable one is the empty table.
- NetworkInterface.GetSelectedNetworkInterface: it takes the list of interfaces as an input instead of querying it. The once-only warning is not modelled.
- src/yuzu/configuration/configure_general.cpp and configure_cpu.h: Qt settings pages with no logic of the modelled components.
- src/common/fs/fs_paths.h and ryujinx_compat.h: directory-name constants and declarations for save-data compatibility, which the modelled code does not use.
- src/common/gamemode.h and src/dynarmic/src/dynarmic/common/assert.h: declarations of a host game-mode switch and of assertion macros.

## Findings

| source | as written | input that shows it | evidently intended | confidence | as-written member | corrected member |
|---|---|---|---|---|---|---|
| src/core/arm/nce/arm_nce.cpp:53-54 | `RestoreGuestContext` loads the guest `sp` into PC and the guest `pc` into SP, while `SaveGuestContext` stores PC into `pc` and SP into `sp` | a context with pc 0x1000 and sp 0x2000: restore then save yields pc 0x2000 and sp 0x1000 | PC gets the guest `pc` and SP the guest `sp`, so that save undoes restore | not executed | ArmNce.RestoreThenSaveIsNotRoundTrip | ArmNce.RestoreThenSaveRoundTrip |
