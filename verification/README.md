# Verification of the VHDP rootless engine

VHDP runs a guest whose `/` is a host directory, without privileges, by rewriting the guest's system calls
with ptrace. This project models the parts of it that hold their own logic, in Dafny 4.11, and proves what
they promise. `dafny verify dfyconfig.toml` checks everything.

The kernel is a parameter throughout. The host filesystem is a map from paths to nodes (`LinkView`), or
arbitrary answers of lstat and readlink that do not change while a path is resolved (`ResolverSpec`).
Threads and processes that run side by side are state machines over their single steps.

## What is proved

* **Hard links on a host that refuses link(2)** (`LinkMarker`, `LinkRecord`, `LinkView`, `LinkStores`,
  `LinkTidy`, `LinkHandlers`, `SubtreeMoves`, `LinkRace`, `LinkHazard`, `UnlinkRace`, `UnlockedRace`). A file
  with several names is a store object, marker symlinks and a count record. `HardLinkSpec` is a filesystem
  with real hard links; every run of link, unlink and rename calls, on files, symlinks and directories, gives
  the same results and the same view of the tree, and the presented counts are the numbers of names. A link
  that fails leaves no trace, and a file left with one name is a plain file again. Which races of two sessions
  are safe is characterised exactly.
* **Guest paths** (`GuestPath`, `MountTables`, `ResolverSpec`, `ResolverProperties`, `ResolverLaws`,
  `Resolver`, `LinkResolution`). The resolver's loop, with its spliced symlinks, clamped `..`, symlink budget,
  see-through of emulated links and directory cache, is a recursive walk in guest space. A symlink resolves as
  its text in its place, `..` as the parent, and /proc/self as the caller's directory. What the walk returns
  is canonical, inside its mount, and resolves to itself. The cache never changes an answer.
* **System call filter and tracing modes** (`SeccompFilter`, `TraceModes`, `SyscallStops`, `ModeRuns`,
  `CallAnswers`). The compiler to classic BPF agrees with its policy on every input, and over whole runs a
  guest gets the same answers whether the filter or PTRACE_SYSCALL decides where it stops: which calls are
  answered without the kernel and how, and what the kernel is given otherwise. Entry and exit stops are told
  apart.
* **The userland loader** (`Bits`, `PageMath`, `ElfHeaders`, `ElfLoader`, `LoaderStack`, `LoaderMain`,
  `LoadRequest`, `Words`). Page arithmetic, the headers of an ELF file, both ways of mapping a segment, its
  permissions, the reserved span, exactly when a load fails, and from the request to the jump: both images
  side by side, and an auxiliary vector that leads a program to its own headers.
* **Execve** (`ExecResolver`, `ExecLaws`, `ExecStack`, `ExecCall`). A script is run as its interpreter, a
  dynamic loader reads off its vector the program and its arguments; nested `#!` lines, the chunked search for
  `--argv0`, and strings and pointers pushed below the tracee's stack.
* **Emulated credentials and cancellation** (`Credentials`, `KernelIdentity`, `SessionCancel`,
  `SupervisorCancel`, `Lifecycle`). Permanent privilege drops over whole runs, exactly when the identity calls
  follow the kernel's rules; in any interleaving no cancellation is lost, and nothing is cancelled or killed
  unasked.
* **JSON** (`Utf8`, `JsonText`, `JsonScan`, `JsonGrammar`, `JsonValidator`, `JsonAcceptance`, `JsonDom`). The
  validator decides the grammar of RFC 8259; writer and parser, written separately, undo each other. The
  nesting limits are exact.

## Where a promise needs a condition

Some laws do not hold for every input. Each has a lemma with the exact condition, and one that exhibits an
input where it fails.

* The kernel's rules for identities (`FollowsKernelIff`): the comment above the handler says it follows them.
  It does, except at setuid(-1) and setgid(-1), which the kernel refuses with EINVAL and a privileged caller
  gets accepted (`RootMinusOne`) and another one refused with EPERM (`UnprivilegedMinusOne`), and at a
  privileged setgroups whose list names 0xffffffff or is not in ascending order, where the kernel answers
  EINVAL or sorts (`GroupsDiffer`).
* Resolving a result again (`ResolutionStable`): fails for a proc object that only the kernel can resolve when
  a trailing slash led to it while final symlinks are not followed (`ProcObjectIsNotStable`).
* Mapping to the guest and back (`ToHostToGuest`): the host directory of the guest's "/" with a slash behind it
  loses the slash (`RootfsSlashIsLost`).
* A link racing an unlink (`RaceIsSafeIff`): with two names left, a record that already mentions the new name
  ahead of the name that stays lets `release` move the file over the new marker, which the other session then
  removes. A hard link and then a rename of the directory of its old name lead to such a record
  (`ReachHazard`, `SmallestHazard`).
* A file left with one name being a plain file again (`LastNameIsRestored`): exactly when its record lists that
  name. Over whole runs it always does (`PerformSession`) unless a directory is renamed, which leaves recorded
  names stale (`ReachLeftover`), or the names of a file do not fit one record.
* Two unlinks racing each other (`UnlinksAreSafeIff`): when they take the last two names and the record lists
  one of them, that name can come back with the file although its unlink succeeded (`UnlinkedNameComesBack`,
  `SmallestComeback`).
* What the host refuses while a name is given up (`LinkStore.Release`): the code ignores it. The store stays
  valid exactly unless a refused call was due; a record that could not be lowered counts one name too many from
  then on, and left-over parts of an object have no name.
* Going on without the store lock, as a session does that cannot open it (`SafeIffLocked`): a link racing an
  unlink can then leave a count that is one too high, from every start (`UnlockedMiscounts`).
* Mode equivalence (`ModesAgreeIff`, over runs `RunsAgreeIff`): the count of a link object learned after a filter
  was built that lets fstat run is presented in one mode only (`LateObjectDiffers`).
* Telling entry stops from exit stops without PTRACE_GET_SYSCALL_INFO (`VerdictRightIff`): right as long as the
  first stop of a new task is an exit, or from its first exec on; a kernel that reports no return from fork
  has its first entry taken for an exit (`UndescribedEntryMisjudged`).

Two more conditions only matter to inputs that do not arise. A non-empty load request is refused past 2^32
bytes, where its size field wraps (`NonEmptyIsAcceptedIff`); while paths are shorter than PATH_MAX every
non-empty request is accepted (`PathsAreAccepted`). A push below a stack pointer that is lower than the red zone
and 64 bytes wraps to the last megabyte of the address space (`StackWriter.Push`); nothing can be written there,
so that the call fails with ENOMEM.

## Model

| member | source | states |
|---|---|---|
| LinkHandlers.PerformAll | src/engines/rootless/syscall_handlers.cpp:1468-1563 | over every run of link, unlink and rename calls (plain, NOREPLACE and EXCHANGE, of files, symlinks and directories over anything, within a mount and across two) the results and the tree a guest sees are, call for call, those of a filesystem with real hard links, and every presented link count is the number of names, also where the host refuses to move a file back or to rewrite the record of a renamed name |
| LinkHandlers.PerformSession | src/engines/rootless/syscall_handlers.cpp:1468-1563 | from a tree with no store, for every run of calls in which no host call fails: results, final tree and link counts are those of real hard links on that tree; and while no directory is renamed, nothing is refused and the names of each file fit a record, every file with one name is a plain file in the host tree and every object in the store has two names at least |
| LinkHandlers.Perform | src/engines/rootless/syscall_handlers.cpp:1468-1563 | one such call keeps the store invariant and answers as the reference does |
| LinkHandlers.LinkLike | src/engines/rootless/syscall_handlers.cpp:1521-1563 | link(2) gives the reference's result and tree when no host call fails, EXDEV across mounts included; when one that the call makes does, or a source symlink cannot be read, an error is returned and the guest's view and everything outside the store directory and its lock are as before |
| LinkHandlers.UnlinkLike | src/engines/rootless/syscall_handlers.cpp:1468-1481 | unlink(2) gives the reference's result and tree, and where the host refuses its errno is returned and nothing changes |
| LinkHandlers.RenameEnter | src/engines/rootless/syscall_handlers.cpp:1482-1520 | which renames are answered at the entry stop, with what, and what is left for the exit stop |
| LinkHandlers.RenameExit | src/engines/rootless/syscall_handlers.cpp:1176-1195 | after a rename that happened, the records are brought up to date, the store is settled again and the guest's view does not change |
| LinkHandlers.RenameLike | src/engines/rootless/syscall_handlers.cpp:1482-1520 | rename(2) and renameat2(2) from entry stop to exit stop give the reference's result and tree, between names of one file, markers, plain entries and directories alike, and EXDEV across mounts |
| LinkHandlers.RenameErrnoAgrees | src/engines/rootless/syscall_handlers.cpp:1482-1520 | the host refuses a rename with the errno a filesystem holding what the guest sees would give, EINVAL, ENOTEMPTY, ENOTDIR and EISDIR included: the hidden store never shows |
| LinkHandlers.RenameSettles | src/engines/rootless/syscall_handlers.cpp:1482-1520 | every rename that is passed on leaves the guest's rename behind, with at most the count of a replaced marker one too high until the exit stop |
| SubtreeMoves.DirKeeps | src/engines/rootless/syscall_handlers.cpp:1482-1503 | moving or exchanging directories moves exactly the names below them in the guest's view and keeps the store valid although recorded names go stale |
| SubtreeMoves.DirNames | src/engines/rootless/link_store.cpp:420-423 | the names of an object after its directory moved are the moved names, as many as before |
| LinkHandlers.PresentedCountIsLinkCount | src/engines/rootless/link_store.cpp:287-295 | the count presented for a file is the number of names the guest can find for it |
| LinkHandlers.SameFileIff | src/engines/rootless/link_store.cpp:120-126 | two names are the same file to the guest exactly when they are markers of one object |
| LinkHandlers.NoStoreIsValid | src/engines/rootless/link_store.cpp:226-243 | a tree without a store is a valid start and is seen as it is |
| LinkStores.LinkStore.LinkNew | src/engines/rootless/link_store.cpp:297-336 | a plain file becomes an object with two markers and a record of count two, the guest sees one more name of the same file; it succeeds exactly when the new name is free and the markers fit, and any single host failure is undone |
| LinkStores.LinkStore.LinkNewCalls | src/engines/rootless/link_store.cpp:297-336 | the exact tree after the host calls, and after each failure only a possibly created empty store |
| LinkStores.LinkStore.LinkNewLocked | src/engines/rootless/link_store.cpp:308-336 | the calls of link_new under the lock: the exact tree, or everything undone |
| LinkStores.LinkStore.LinkExisting | src/engines/rootless/link_store.cpp:338-369 | one more name of an object: exact tree, exact success condition, ENOENT for a missing object, and no trace of a failure |
| LinkStores.LinkStore.LinkExistingCalls | src/engines/rootless/link_store.cpp:338-369 | the exact tree after the host calls of one more link, and each failure undone |
| LinkStores.LinkStore.Release | src/engines/rootless/link_store.cpp:401-430 | giving up a name leaves the guest's view alone and produces exactly the released tree, whatever of its own host calls fails: object gone with its last name, file back at the first remaining recorded name that can be replaced, or the count lowered. The store stays valid exactly unless a refused call was due; a record that was not lowered counts exactly one name too many, and anything else left over has no name |
| LinkStores.Litter | src/engines/rootless/link_store.cpp:408-428 | parts of an object left over without names are not seen, and the store is valid exactly without them |
| LinkStores.LastNameIsRestored | src/engines/rootless/link_store.cpp:418-428 | when one name is left the file is back at that name, with object and record gone, exactly when the record lists the name and the host can rename over it; otherwise it stays an object with a marker |
| LinkTidy.TidyIsPlain | src/engines/rootless/link_store.cpp:418-428 | where every object has two names and a record that lists exactly its names, a file with one name is a plain file |
| LinkTidy.LinkedTidy | src/engines/rootless/link_store.cpp:313-334 | the first link of a file leaves a record that lists exactly its two names, when they fit, and no other object changes |
| LinkTidy.OneMoreTidy | src/engines/rootless/link_store.cpp:356-363 | one more link leaves a record that lists exactly the names, the new one included |
| LinkTidy.MovedTidy | src/engines/rootless/link_store.cpp:385-399 | a renamed name takes the place of the old one in the record |
| LinkTidy.ReleasedTidy | src/engines/rootless/link_store.cpp:401-430 | a name given up leaves a record of exactly the other names, or, with one of them left, a plain file there |
| LinkStores.LinkStore.UnlinkName | src/engines/rootless/link_store.cpp:371-378 | unlinking a marker removes exactly that name from the guest's view and releases it, whatever the release is refused; the errno of a refused unlink is returned and nothing changes |
| LinkStores.LinkStore.NameDropped | src/engines/rootless/link_store.cpp:380-383 | a marker replaced by a rename is released |
| LinkStores.LinkStore.NameMoved | src/engines/rootless/link_store.cpp:385-399 | a marker moved by a rename: the record lists the new name, nothing the guest sees changes, and where the record cannot be written the count is right all the same |
| LinkStores.LinkStore.WriteRecord | src/engines/rootless/link_store.cpp:175-198 | the record is replaced as a whole or, on failure, nothing changes |
| LinkStores.LinkStore.ReadRecord | src/engines/rootless/link_store.cpp:149-173 | a record is found exactly when it is a symlink that can be read whole, and is then its parsed text |
| LinkStores.LinkStore.Scan | src/engines/rootless/link_store.cpp:226-243 | the objects of an earlier session are indexed, in whatever order they are listed |
| LinkStores.LinkStore.Remember | src/engines/rootless/link_store.cpp:205-214 | the index gains exactly the object's inode and path, if the object is a file |
| LinkStores.LinkStore.Forget | src/engines/rootless/link_store.cpp:216-224 | the index loses exactly that object |
| LinkStores.TargetForMarks | src/engines/rootless/link_store.cpp:132-147 | whatever prefix a marker is written with, it reads back as its object |
| LinkStores.MarkerLeadsHome | src/engines/rootless/link_store.cpp:132-147 | a marker below its mount's root leads to its object for the host too: read from the name's directory its text is the object's path |
| LinkStores.TempsDiffer | src/engines/rootless/link_store.cpp:187-189 | no two writes of a record, of one session or of two, go through the same temporary |
| LinkRecord.RecordRoundTrip | src/engines/rootless/link_store.cpp:149-198 | a written record reads back with its count and with the names that found room, and always fits a symlink |
| LinkRecord.KeptAll | src/engines/rootless/link_store.cpp:176-185 | all names are kept when they fit and hold no line break |
| LinkRecord.KeptSnoc | src/engines/rootless/link_store.cpp:176-185 | a name is kept exactly when it has no line break and there is room behind those kept before it |
| LinkRecord.CountIsRead | src/engines/rootless/link_store.cpp:157-162 | white space, a sign and digits on the first line are the count when it is between 1 and 2^31-2, a minus wrapping at 2^64, and otherwise the count is one |
| LinkRecord.NoNumberCountsOne | src/engines/rootless/link_store.cpp:157-162 | a first line that is no number counts one |
| LinkRecord.BuildText | src/engines/rootless/link_store.cpp:175-185 | the append loop writes the count and the names that find room, one a line |
| LinkRecord.ParseText | src/engines/rootless/link_store.cpp:153-172 | the scanning loop reads the lines of the text, the first as the count |
| LinkMarker.LinkTargetIdExact | src/vfs/link_marker.hpp:31-51 | a symlink target refers to an object exactly when its last two components are the store directory and an id |
| LinkMarker.CheckLinkId | src/vfs/link_marker.hpp:17-28 | the byte loop accepts exactly 32 lower-case hexadecimal digits |
| LinkRace.RaceIsSafeIff | src/engines/rootless/link_store.cpp:338-430 | one link_existing against one unlink_name at host-call and lock granularity: every schedule ends well exactly when the record does not mention the new name ahead of the only name that stays |
| LinkRace.EveryScheduleGood | src/engines/rootless/link_store.cpp:338-430 | outside that one start, every schedule ends with the link made and counted, or with ENOENT, the new name absent and the file intact under its other names |
| LinkRace.ExactRecordIsSafe | src/engines/rootless/link_store.cpp:338-430 | a record that lists exactly the current names is never the bad start |
| LinkRace.HazardLosesFile | src/engines/rootless/link_store.cpp:350-355 | in the bad start a schedule is constructed that loses the file |
| LinkHazard.ReachHazard | src/engines/rootless/link_store.cpp:297-336 | a hard link and a rename of the directory of its old name, carried out on any store, end in the bad start for a link to the old name against an unlink of the other |
| LinkHazard.SmallestHazard | src/engines/rootless/link_store.cpp:420-428 | two names and a record that lists a stale one are a bad start |
| LinkHazard.ReachLeftover | src/engines/rootless/link_store.cpp:418-428 | a hard link, a rename of the directory of its old name and an unlink of the new one, carried out on any store, leave the file in the store with one marker |
| UnlinkRace.UnlinksAreSafeIff | src/engines/rootless/link_store.cpp:371-430 | two unlink_name of one object at host-call and lock granularity: in every schedule both names are gone, the file is at every other name and the count is right, exactly unless they are the last two names and the record lists one |
| UnlinkRace.UnlinkedNameComesBack | src/engines/rootless/link_store.cpp:420-428 | in that start a schedule is constructed after which a name whose unlink succeeded is there again, with the file |
| UnlinkRace.SmallestComeback | src/engines/rootless/link_store.cpp:420-428 | a file with two names and a record that lists them: a schedule of two unlinks after which one name is there again |
| UnlockedRace.SafeIffLocked | src/engines/rootless/link_store.cpp:80-95 | a link and an unlink may run at once exactly when both sessions can lock the store and the start is not the bad one |
| UnlockedRace.UnlockedMiscounts | src/engines/rootless/link_store.cpp:357-366 | without both locks, from every start a schedule is constructed that leaves a count one too high |
| Resolver.Resolve | src/vfs/resolver.cpp:121-342 | the resolver loop, with any cache of true directories, returns exactly what the recursive walk returns and leaves true directories in the cache; it terminates |
| Resolver.ResolveAll | src/vfs/resolver.cpp:108-178 | any sequence of resolutions sharing one initially empty cache gives every answer the uncached walk gives, also across the clear of a full cache |
| Resolver.WalkLoop | src/vfs/resolver.cpp:180-342 | the loop from any correctly skipped prefix finishes the walk |
| Resolver.DirCache.Put | src/vfs/resolver.cpp:108-119 | an entry keeps its host path, a full cache is cleared first, and it never grows past its limit |
| ResolverProperties.ResolutionProper | src/vfs/resolver.cpp:121-342 | a resolved guest path has no empty, . or .. component, every proper prefix is a real directory, and its host path is the mapped path, with a slash only where one was asked for, inside its mount |
| ResolverProperties.ResolutionStable | src/vfs/resolver.cpp:121-342 | resolving a result again returns it exactly unless it is a proc object only the kernel can resolve, reached without following final symlinks |
| ResolverProperties.ProcObjectIsNotStable | src/vfs/resolver.cpp:230-310 | a path with a trailing slash that resolves to a proc object, whose result resolves to the symlink instead |
| ResolverProperties.WalkSkip | src/vfs/resolver.cpp:147-178 | starting below known directories gives the same outcome |
| ResolverProperties.WalkProper | src/vfs/resolver.cpp:180-310 | every place a walk can end at has real directories above it |
| ResolverProperties.WalkEndsAgain | src/vfs/resolver.cpp:180-310 | where a walk ended, a walk straight to it ends with the same outcome |
| ResolverLaws.SymlinkIsItsText | src/vfs/resolver.cpp:252-310 | for a symlink in a real directory that is followed, whatever comes behind it resolves, with one symlink more allowed, as it does behind the symlink's text in its place: every result and errno, with .. in the text and slashes at its end; with no symlink allowed it is ELOOP |
| ResolverLaws.UnreadableLink | src/vfs/resolver.cpp:252-266 | a symlink that cannot be read gives the errno of reading it, ENOENT when it is empty and ENAMETOOLONG when it is too long, but ELOOP first when no symlink may be followed |
| ResolverLaws.DotDotIsParent | src/vfs/resolver.cpp:189-200 | .. behind a directory is the directory it is in |
| ResolverLaws.RootIsItsParent | src/vfs/resolver.cpp:196-199 | .. at the root is the root |
| ResolverLaws.MissingEntry | src/vfs/resolver.cpp:202-233 | a missing last name is the answer, as not existing, and a name behind it is ENOENT; an entry a proc mount hides is the answer; any other error of lstat is the answer's |
| ResolverLaws.PresentEntry | src/vfs/resolver.cpp:202-213 | a file is the answer and has nothing behind it, a directory is the answer when no name follows, a symlink nothing asks to follow is the answer itself |
| ResolverLaws.HostEndsInSlash | src/vfs/resolver.cpp:335-340 | a trailing slash is kept on the host path, which is shorter than PATH_MAX |
| ResolverLaws.BadPaths | src/vfs/resolver.cpp:124-129 | a relative path is EINVAL and one of 4096 bytes ENAMETOOLONG |
| ResolverLaws.ProcSelf | src/vfs/resolver.cpp:59-73 | in any proc mount self is the directory of the calling process and thread-self that of the calling thread, and EACCES for a caller without an id |
| ResolverLaws.ProcLinkIsMapped | src/vfs/resolver.cpp:91-103 | a proc link to a host path is the guest path it maps to, EACCES in no mount, ENOENT when deleted |
| ResolverLaws.ProcRelativeLink | src/vfs/resolver.cpp:78-90 | a proc link that names a kernel object is handed to the kernel where it is and has nothing behind it, any other relative one is followed |
| ResolverLaws.MarkerIsItsObject | src/vfs/resolver.cpp:234-278 | an emulated hard link that is followed, or seen through with its file there, resolves as the object in its own mount's store |
| ResolverLaws.DanglingStaysSymlink | src/vfs/resolver.cpp:237-251 | a link whose file is not there is not seen through, nor is an ordinary symlink |
| ResolverLaws.ObjectIdIs | src/vfs/resolver.cpp:327-334 | a result carries an id exactly when its path is the store of its mount and the id |
| LinkResolution.ResolvesToViewedFile | src/vfs/resolver.cpp:230-310 | resolving a name of an emulated hard link, with final symlinks followed or links seen through, gives the host path of a file with the inode the guest's view shows at that name |
| MountTables.MountForAnyOrder | src/vfs/mount_table.cpp:23-31 | the mount chosen does not depend on the order in which mounts were added |
| MountTables.ToHostToGuest | src/vfs/mount_table.cpp:33-68 | mapping a host path into the guest and back returns it, when both directions choose one mount, exactly unless it is the rootfs directory with a slash behind it |
| MountTables.RootfsSlashIsLost | src/vfs/mount_table.cpp:33-68 | the host path of the rootfs with a slash behind it comes back without it |
| MountTables.ToHostBelow | src/vfs/mount_table.cpp:33-49 | a mapped path lies below its mount's host root |
| MountTables.ToHostKeepsNames | src/vfs/mount_table.cpp:33-49 | below the guest path of its mount a path keeps its names on the host |
| MountTables.MountTable.FindForGuest | src/vfs/mount_table.cpp:23-31 | the lookup loop finds the longest guest prefix |
| MountTables.MountTable.MapToHost | src/vfs/mount_table.cpp:33-49 | the host path is the chosen mount's host root and the rest of the guest path, and an unmapped path falls to the rootfs |
| MountTables.MountTable.MapToGuest | src/vfs/mount_table.cpp:51-68 | the mount with the longest host prefix gives the guest path, and a path outside every mount gives nothing |
| GuestPath.ScanComponents | src/vfs/guest_path.cpp:9-26 | the index loop yields the pieces between slashes that are neither empty nor a dot |
| GuestPath.ComponentsBuild | src/vfs/resolver.cpp:31-41 | a path built from components splits into them again |
| GuestPath.Normalize | src/vfs/guest_path.cpp:37-57 | the stack loop computes the lexical normal form |
| GuestPath.NormalizeIdempotent | src/vfs/guest_path.cpp:37-57 | normalising twice is normalising once, and the result is canonical |
| GuestPath.NormalizeParent | src/vfs/guest_path.cpp:37-57 | .. takes away the name in front of it and nothing at the root, and a path without . and .. is left alone |
| GuestPath.JoinedPath | src/vfs/guest_path.cpp:59-70 | a relative path has its names behind those of the base, an absolute one is itself |
| SeccompFilter.Build | src/engines/rootless/seccomp_filter.cpp:34-92 | for every policy and every input the compiled program takes the policy's decision, no jump leaves it, and it always ends in one of its own returns |
| SeccompFilter.Evaluate | src/engines/rootless/seccomp_filter.cpp:94-142 | the interpreter loop computes the recursive meaning of a program; its step limit is never what stops it |
| SeccompFilter.ProgramDecides | src/engines/rootless/seccomp_filter.cpp:34-92 | any program with ranges covering the allow list decides as the policy does |
| SeccompFilter.CompressRanges | src/engines/rootless/seccomp_filter.cpp:70-90 | the compressed range tests accept exactly the non-negative numbers of the allow list |
| SeccompFilter.SafeReturns | src/engines/rootless/seccomp_filter.cpp:94-142 | a program whose jumps stay inside never yields the value for malformed programs |
| TraceModes.ModesAgree | src/engines/rootless/supervisor.cpp:1006-1145 | a returning call ends with the same return value, argument registers and world under seccomp acceleration with the compiled program and under PTRACE_SYSCALL, for every configuration, kernel and handler reaction |
| TraceModes.ModesAgreeIff | src/engines/rootless/supervisor.cpp:506-546 | the two modes agree on every call exactly while no link object was learned that the filter does not account for |
| TraceModes.LateObjectDiffers | src/engines/rootless/supervisor.cpp:506-546 | a filter that lets fstat run and a link object it does not account for: some call ends differently in the two modes |
| ModeRuns.RunsAgreeIff | src/engines/rootless/supervisor.cpp:1006-1145 | mode equivalence over whole runs: for every kernel, handlers and guest that chooses by what it has seen, and whatever link objects handlers learn of on the way, the first n calls end the same way in both modes if and only if none is an fstat that the filter lets run after an unaccounted object was learned, with a result that presenting changes |
| ModeRuns.NoLateFstat | src/engines/rootless/supervisor.cpp:506-546 | every run in which the filter lets no fstat run after such an object is the same in both modes |
| ModeRuns.AllRunsAgreeIff | src/engines/rootless/supervisor.cpp:506-546 | every run of every guest is the same in both modes exactly where the filter stops fstat or objects were known when it was built |
| ModeRuns.StopsAreTold | src/engines/rootless/supervisor.cpp:1006-1035 | both stops of a call under PTRACE_SYSCALL are handled for what they are, described by the kernel or not, and the toggle is right again after it |
| ModeRuns.WatchIsKept | src/engines/rootless/supervisor.cpp:777-784 | under the filter a call has its exit stop exactly where its handler asked for it, and nothing is left asked for |
| SyscallStops.VerdictRightIff | src/engines/rootless/supervisor.cpp:679-700 | over every run of stops the kernel reports for a task under PTRACE_SYSCALL, a stop is classified right exactly when the task was registered inside a call, or some stop up to it was described by the kernel or was an exec |
| SyscallStops.ClassifiedRight | src/engines/rootless/supervisor.cpp:1006-1035 | for a child on its way out of fork, and for the main process from its exec on, every entry is handled as an entry and every exit as an exit |
| SyscallStops.UndescribedEntryMisjudged | src/engines/rootless/supervisor.cpp:686-688 | a kernel that neither describes stops nor reports a return from fork has its first entry taken for an exit |
| SyscallStops.FilteredStopsAreExits | src/engines/rootless/supervisor.cpp:777-784 | over every run under the filter a syscall stop is an exit that its entry asked for |
| SyscallStops.WantedExitComes | src/engines/rootless/supervisor.cpp:777-784 | an exit that was asked for is reported before the task can reach another call |
| SyscallStops.Task.OnSyscallStop | src/engines/rootless/supervisor.cpp:1006-1035 | the decision from the kernel's description, the mode and the toggle, and the toggle it leaves |
| TraceModes.ArgumentsRestored | src/engines/rootless/supervisor.cpp:1086-1142 | outside clone every argument register has its entry value again, except one that carries the return value |
| TraceModes.AllowedIsUntouched | src/engines/rootless/syscall_handlers.cpp:1605-1887 | a call the filter lets run is one the dispatcher would pass through untouched |
| TraceModes.RefusedAlike | src/engines/rootless/syscall_handlers.cpp:1823-1834 | a socket the filter refuses is refused with the same error by the dispatcher |
| TraceModes.StoppedAgrees | src/engines/rootless/supervisor.cpp:1086-1142 | a stopped call ends the same way with and without the exit stop |
| CallAnswers.DeniedCall | src/engines/rootless/syscall_handlers.cpp:1870-1883 | in both modes a denied call answers its class's errno, EPERM, ENOSYS, EOPNOTSUPP or EACCES; the kernel runs nothing, arguments and world stay |
| CallAnswers.ForeignCall | src/engines/rootless/supervisor.cpp:1055-1070 | in both modes a call of another architecture or of an unknown number answers ENOSYS, with nothing run |
| CallAnswers.SocketCall | src/engines/rootless/syscall_handlers.cpp:1823-1834 | in both modes, without a network any socket but AF_UNIX is EACCES, a refused audit socket is EPROTONOSUPPORT, and every other is the kernel's own |
| CallAnswers.CloneCall | src/engines/rootless/syscall_handlers.cpp:1846-1851 | in both modes the kernel never sees CLONE_UNTRACED, and sees every other flag bit and argument as it was |
| CallAnswers.OwnCall | src/engines/rootless/syscall_handlers.cpp:1606-1631 | in both modes a call without a handler, an identity call without an identity and a sendto without an address are the kernel's own |
| CallAnswers.PresentedCall | src/engines/rootless/syscall_handlers.cpp:1606-1625 | in both modes the kernel's fstat and getdents64 go through the fix-up that presents identity, link counts and entries, exactly when the session has one or knows of links |
| CallAnswers.NotedCall | src/engines/rootless/syscall_handlers.cpp:1610-1618 | in both modes prctl and seccomp are the kernel's own after a guest's filter was noted |
| CallAnswers.HandledCall | src/engines/rootless/syscall_handlers.cpp:1605-1887 | in both modes what a translating handler answers itself is what the guest gets, and what it passes on is the kernel's |
| CallAnswers.RunsWithoutStop | src/engines/rootless/supervisor.cpp:506-541 | the filter lets every pass-through call run that the session need not look at |
| CallAnswers.TracingStopsAll | src/engines/rootless/supervisor.cpp:498-505 | a traced session stops every call |
| TraceModes.BuildFilter | src/engines/rootless/supervisor.cpp:498-553 | the program a session starts with takes the decision of the policy built from the syscall table and the configuration |
| TraceModes.BuildPolicy | src/engines/rootless/supervisor.cpp:498-546 | the loop over the syscall table builds exactly the policy of the configuration |
| TraceModes.Tracee.RewriteArg | src/engines/rootless/syscall_handlers.cpp:297-306 | only the first rewrite of an argument records it |
| TraceModes.Tracee.OnEnter | src/engines/rootless/supervisor.cpp:1037-1109 | registers and pending state after the entry stop, a refused call with its arguments put back; nothing is handled before the first exec, and afterwards a request left by a failed execve is dropped |
| TraceModes.Tracee.OnExit | src/engines/rootless/supervisor.cpp:1111-1145 | the return value the fix-up leaves, the recorded arguments put back, the stand-in file removed, and nothing pending any more; after an exec the registers of the new image are left alone |
| ElfLoader.Loader.LoadImage | src/engines/rootless/loader/loader.c:301-417 | from the bytes of the file: a load fails exactly when the kernel refused a call, the headers are none the loader goes on with, or the segments are none it can place; otherwise every segment's bytes, zeros and permissions are in place in a reserved span no wider than the segments and apart from all that was in use, nothing changed outside it, and entry point, bias and program header address are the headers' |
| ElfLoader.Loader.MapImage | src/engines/rootless/loader/loader.c:337-413 | the part after the headers: the span, its reservation, and every segment in it |
| ElfLoader.TableIsFound | src/engines/rootless/loader/loader.c:391-405 | without a PT_PHDR the program headers of the file are what memory holds at the address given, and it is not 0 exactly when the last segment that holds them is not at 0 |
| ElfLoader.TableIsWhereSaid | src/engines/rootless/loader/loader.c:406-408 | with a PT_PHDR the address is that of the last one plus the bias, and the program headers are there when a segment holds them at the matching offset |
| ElfLoader.ConformingImageIsGood | src/engines/rootless/loader/loader.c:337-368 | no image that conforms to the format is refused, but a dynamic loader that asks for one |
| ElfLoader.ElfProtBits | src/engines/rootless/loader/loader.c:213-225 | the three flag bits are the three permissions |
| LoaderMain.RunLoader | src/engines/rootless/loader/loader.c:434-533 | from the request to the jump: both images stand in memory side by side, the vector tells the program where its own headers, entry point and name and its loader's base are, nothing else on the stack changes, the jump goes to the dynamic loader if there is one; it dies only where the kernel refuses, the request is none, or a file cannot be started |
| LoaderMain.LoadBoth | src/engines/rootless/loader/loader.c:467-483 | the second image leaves the first where it is |
| LoaderMain.PlaceName | src/engines/rootless/loader/loader.c:485-492 | the name for AT_EXECFN is a C string in address space of its own |
| ElfHeaders.HeadersAreRead | src/engines/rootless/loader/loader.c:307-335 | a file that starts with the ELF-64 header of any image and holds its program headers where the header says is read as exactly that image, and refused exactly for its type |
| ElfLoader.Loader.ReadAside | src/engines/rootless/loader/loader.c:197-211 | the headers are read whole over any sequence of short reads, or the read fails |
| ElfLoader.Loader.MapAll | src/engines/rootless/loader/loader.c:392-404 | the second loop over the headers, with segments kept apart |
| ElfLoader.Loader.MapSegment | src/engines/rootless/loader/loader.c:237-299 | file bytes, zeros and permissions of one segment, identically on the mapped and the copied branch, inside its own pages; exactly when it fails |
| ElfLoader.Loader.MapFilePart | src/engines/rootless/loader/loader.c:250-288 | both branches leave the same bytes and permissions |
| ElfLoader.Loader.MapFromFile | src/engines/rootless/loader/loader.c:259-274 | the file part mapped, its tail zeroed under a permission that is taken back, unless the kernel refuses to |
| ElfLoader.Loader.CopyFromFile | src/engines/rootless/loader/loader.c:275-287 | the file part read into writable memory that then gets the permissions of the segment |
| ElfLoader.Loader.ReadFull | src/engines/rootless/loader/loader.c:197-211 | short reads are continued until the stretch is complete |
| ElfLoader.Span | src/engines/rootless/loader/loader.c:337-365 | for every table the span holds every segment's pages, its end taken as the sum the loader forms; the loader dies exactly when a segment visibly wraps or none is to be loaded |
| ElfLoader.Reserve | src/engines/rootless/loader/loader.c:370-390 | the reserved span is page-aligned below the address limit, at its own address for an image that is not position-independent |
| PageMath.MaskIsMod | src/engines/rootless/loader/loader.c:185-191 | masking with a power of two less one is rounding down and taking the remainder |
| PageMath.RoundFacts | src/engines/rootless/loader/loader.c:189-191 | rounding up gives the next page boundary when nothing wraps |
| LoaderStack.RewriteAuxv | src/engines/rootless/loader/loader.c:494-518 | every auxiliary entry that described the loader describes the guest image; argc, arguments, environment, tags and all other entries are untouched |
| LoaderStack.FindPageSize | src/engines/rootless/loader/loader.c:460-465 | the page size is the last usable entry or 4096, and whatever the vector says it is a power of two |
| LoaderStack.PageSizeIsLast | src/engines/rootless/loader/loader.c:460-465 | the last AT_PAGESZ that is a power of two is taken |
| LoaderStack.PageSizeIsDefault | src/engines/rootless/loader/loader.c:460-465 | without one the page size is 4096 |
| LoaderStack.AuxReported | src/engines/rootless/loader/loader.c:494-518 | what getauxval finds after the rewrite is what the entry reports |
| LoaderStack.PowerOfTwoIff | src/engines/rootless/loader/loader.c:461-464 | the bit test accepts exactly the powers of two |
| LoaderStack.FindAuxv | src/engines/rootless/loader/loader.c:452-458 | the walk over the environment ends at the auxiliary vector |
| LoadRequest.RequestRoundTrip | src/engines/rootless/loader/loader.c:421-450 | for NUL-free names the loader accepts what the supervisor builds, and recovers exactly the names, if and only if they fit; otherwise it starts nothing |
| LoadRequest.NonEmptyIsAcceptedIff | src/engines/rootless/supervisor.cpp:119-128 | a non-empty request is refused only where its 32-bit size wraps |
| LoadRequest.PathsAreAccepted | src/engines/rootless/supervisor.cpp:119-128 | while every path is shorter than PATH_MAX a request is empty exactly past the loader's limit and accepted otherwise |
| LoadRequest.MakeLoadRequest | src/engines/rootless/supervisor.cpp:103-129 | the header and strings built by appending are the request for the plan's names, with 32-bit fields, and nothing when its size field exceeds the limit |
| LoadRequest.TaskIsLastName | src/engines/rootless/supervisor.cpp:103-129 | the task is named after the last name of the path, whatever slashes and dots stand around it |
| LoadRequest.ReqStr | src/engines/rootless/loader/loader.c:421-432 | the string from an offset to its first NUL, exactly when it lies wholly inside the request |
| ExecCall.Translate | src/engines/rootless/syscall_handlers.cpp:991-1046 | planning, the loader's request and marshalling together: the kernel reads the plan's program and vector, or with a userland loader that loader and the program's own arguments, and the loader recovers program, dynamic loader and path; nothing is written when planning fails or the names do not fit |
| ExecCall.PlanClean | src/engines/rootless/syscall_handlers.cpp:991-1028 | what a successful plan hands to the kernel or to the loader is non-empty and NUL-free |
| ExecResolver.MakePlan | src/engines/rootless/exec_resolver.cpp:156-331 | planning ends at the first program that is not a script after at most four, with that program's outcome, and with ELOOP exactly when there are five |
| ExecResolver.PlanIsExpansion | src/engines/rootless/exec_resolver.cpp:170-329 | for every successful plan the program's arguments are the d-fold #! expansion of the caller's, d at most four, ending with the caller's arguments in order; the loader's vector ends with the same |
| ExecLaws.PlanStarts | src/engines/rootless/exec_resolver.cpp:269-329 | what a successful plan starts is the program at the end of the scripts; a dynamic loader reads off its vector exactly that program, its arguments after the first, and its argument 0 where the loader can be told |
| ExecLaws.PlanFails | src/engines/rootless/exec_resolver.cpp:175-313 | a plan fails with the errno of the first check refused, of the program or of its loader |
| ExecLaws.ScriptIsItsInterpreter | src/engines/rootless/exec_resolver.cpp:215-233 | a script is run by running the interpreter its first line names, with the line's argument, the script and the caller's arguments: the two plans differ in their depth only |
| ExecLaws.HeadIsRead | src/engines/rootless/exec_resolver.cpp:42-82 | a first line of blanks, a word, blanks, an argument and trailing blanks is read as that interpreter and that argument |
| ExecLaws.NoHeadIsRead | src/engines/rootless/exec_resolver.cpp:42-66 | a file that does not start with #!, or has only blanks behind it, is no script |
| ExecResolver.ArgumentsKept | src/engines/rootless/exec_resolver.cpp:219-232 | each expansion keeps the arguments after the first, in order, at the end |
| ExecResolver.ExpandedNulFree | src/engines/rootless/exec_resolver.cpp:219-232 | expansion brings no NUL into a path or an argument |
| ExecResolver.ParseShebang | src/engines/rootless/exec_resolver.cpp:42-82 | the index loops read interpreter and argument |
| ExecResolver.ShebangWords | src/engines/rootless/exec_resolver.cpp:42-82 | the interpreter is one non-empty word of the first line, the argument is never empty, neither holds a NUL |
| ExecResolver.ScanForArgv0 | src/engines/rootless/exec_resolver.cpp:95-120 | for every way the file arrives in pieces the answer is whether the word occurs in the bytes read, and all are read unless it was found, the limit was reached or a read failed |
| ExecResolver.Overlap | src/engines/rootless/exec_resolver.cpp:110-118 | carrying five bytes over misses no occurrence and invents none |
| ExecStack.StackWriter.Marshal | src/engines/rootless/syscall_handlers.cpp:1017-1046 | when every push succeeds the kernel reads back exactly the path and the arguments through the new pointers, and nothing at or above the red zone or beyond the scratch limit is written |
| ExecStack.StackWriter.Push | src/engines/rootless/supervisor.cpp:83-97 | data is stored whole below everything pushed before, or nothing changes; below the red zone exactly when the stack pointer is high enough not to wrap, and otherwise in the last megabyte of the address space, so not at all where nothing can be written there |
| ExecStack.VectorIsRead | src/engines/rootless/syscall_handlers.cpp:964-985 | a vector of pointers to strings reads as the strings |
| Credentials.PermanentDrop | src/engines/rootless/syscall_handlers.cpp:524-686 | from the first credentials of a process, once the three uids are non-zero no later call makes a uid 0, changes the groups or brings in an id that was not held |
| Credentials.DropIsPermanentIff | src/engines/rootless/syscall_handlers.cpp:524-686 | a drop is permanent exactly when real, effective and saved uid are non-zero |
| Credentials.FileSystemUid | src/engines/rootless/syscall_handlers.cpp:524-686 | a process whose effective uid is not 0 acts on files as one of its three uids |
| Credentials.UnprivilegedStep | src/engines/rootless/syscall_handlers.cpp:600-684 | without privilege a call only rearranges ids already held |
| Credentials.SetuidDropsForGood | src/engines/rootless/syscall_handlers.cpp:600-610 | a root that switches with setuid never has effective uid 0 again |
| KernelIdentity.FollowsKernelIff | src/engines/rootless/syscall_handlers.cpp:521-686 | for every identity, call and memory the handler gives the answer and leaves the identity the kernel's rules ask for, exactly unless the call is setuid(-1) or setgid(-1), or a permitted setgroups of a list that names 0xffffffff or is out of order |
| KernelIdentity.RunFollowsKernel | src/engines/rootless/syscall_handlers.cpp:521-686 | over every run without such a call every answer and the identity at the end are the kernel's |
| KernelIdentity.RootMinusOne | src/engines/rootless/syscall_handlers.cpp:600-620 | setuid(-1) and setgid(-1) of a privileged caller are accepted where the kernel answers EINVAL |
| KernelIdentity.UnprivilegedMinusOne | src/engines/rootless/syscall_handlers.cpp:600-609 | setuid(-1) of another caller is EPERM where the kernel answers EINVAL |
| KernelIdentity.GroupsDiffer | src/engines/rootless/syscall_handlers.cpp:583-598 | setgroups takes 0xffffffff, and keeps [9, 3] in that order where the kernel keeps [3, 9] |
| KernelIdentity.AscendingSorts | src/engines/rootless/syscall_handlers.cpp:583-598 | the kernel's list is the caller's, sorted |
| Credentials.Creds.Handle | src/engines/rootless/syscall_handlers.cpp:524-686 | the new credentials, the answer and the words written, for every identity call |
| Credentials.Creds.WriteThree | src/engines/rootless/syscall_handlers.cpp:536-544 | words go out in order up to the first that cannot be written |
| Credentials.Creds.SetReId | src/engines/rootless/syscall_handlers.cpp:622-646 | the four ids of either kind after setreuid or setregid, and EPERM exactly when an unprivileged caller names an id it may not take |
| Credentials.Creds.SetResId | src/engines/rootless/syscall_handlers.cpp:647-672 | the four ids of either kind after setresuid or setresgid, and EPERM exactly when an unprivileged caller names an id it does not hold |
| SessionCancel.NoLostCancellation | src/core/session.cpp:96-289 | in every interleaving of any number of starts and cancels, once a cancel and every start have returned, no instance was created or its cancel was called |
| SessionCancel.OneInstance | src/core/session.cpp:96-131 | at most one thread is ever let in to create an instance: two that are inside at any two times of a run are the same |
| SessionCancel.NotCancelledUnasked | src/core/session.cpp:134-168 | in every run without a cancel the instance is cancelled only after its threads could not be made |
| SessionCancel.NoStartIsLeft | src/core/session.cpp:75-168 | once every start has returned the session is not starting any more |
| SupervisorCancel.NoTaskSurvives | src/engines/rootless/supervisor.cpp:286-775 | once a cancel has returned or the main-exit kill has run, every registered task, also one registered later, was sent SIGKILL since its registration, except one whose registration is under way and about to kill it |
| SupervisorCancel.NobodyIsKilledUnasked | src/engines/rootless/supervisor.cpp:286-775 | without a cancel, while the first process lives and waiting does not fail, no task is killed |
| SupervisorCancel.OnlyRecordedAreKilled | src/engines/rootless/supervisor.cpp:286-775 | SIGKILL is only sent to a task recorded at that moment |
| SupervisorCancel.FirstReasonStays | src/engines/rootless/supervisor.cpp:286-297 | the reason of the first cancel is kept |
| SupervisorCancel.ReasonIsGiven | src/engines/rootless/supervisor.cpp:286-297 | the reason is one of the callers' |
| Lifecycle.TransitionsLeadForward | src/core/lifecycle.cpp:23-41 | every transition leads forward, and exactly the terminal states have none |
| Lifecycle.HistoriesExactly | src/core/lifecycle.cpp:27-41 | the nine histories a session can have, and no other |
| Lifecycle.StateMachine.Transition | src/core/lifecycle.cpp:48-59 | a refused transition leaves the state as it is |
| Utf8.SeqLen | src/common/json.cpp:12-47 | the masks and shifts accept exactly the table of section 4 of RFC 3629 |
| Utf8.SequenceLengthUnique | src/common/json.cpp:12-47 | a string starts with at most one well-formed sequence |
| JsonText.EscapeInto | src/common/json.cpp:51-112 | the escaping loop appends exactly the quoted string |
| JsonText.SanitisedIsIdentityIff | src/common/json.cpp:51-105 | escaping loses nothing exactly on valid UTF-8 |
| JsonText.SanitisedIsValid | src/common/json.cpp:95-100 | what a written string stands for is always valid UTF-8 |
| JsonText.WriterRenders | src/common/json.cpp:114-193 | every well-nested sequence of writer calls leaves exactly the text of the document it describes |
| JsonText.EveryDocumentIsWritten | src/common/json.cpp:114-193 | every document is what some well-nested sequence of calls writes |
| JsonText.NumberTextValue | src/common/json.cpp:165-193 | a number is written as decimal text of its value without a leading zero |
| JsonText.WriteShows | src/common/json.cpp:114-193 | at every call the writer's three fields are what the open containers require |
| JsonText.JsonWriter.PrepareValue | src/common/json.cpp:114-125 | a comma is due exactly before an element that is not the first of its container and does not follow a key |
| JsonText.JsonWriter.Key | src/common/json.cpp:157-163 | the fields after a key: comma where one is due, quoted key, colon, and the next value expected without a comma |
| JsonAcceptance.ValidIsGrammatical | src/common/json.cpp:203-343 | the validator accepts a text exactly when it is a JSON text of RFC 8259 whose strings are UTF-8, with at most 256 containers around any value |
| JsonAcceptance.WrittenDocumentIsValid | src/common/json.cpp:203-343 | for every well-nested sequence of writer calls the text is accepted by the strict validator exactly when at most 256 containers enclose a value |
| JsonAcceptance.QuotedStringIsValid | src/common/json.cpp:302-343 | a quoted string validates whatever bytes went in |
| JsonValidator.Validator.Run | src/common/json.cpp:207-214 | the validator's methods decide the grammar stated on the remaining text |
| JsonAcceptance.ValueComplete | src/common/json.cpp:217-300 | a value of the grammar is accepted in front of whatever may follow it, exactly when it is not nested too deep, and what follows is left alone |
| JsonAcceptance.ValueSound | src/common/json.cpp:217-300 | what is accepted as a value has a derivation in the grammar, within the nesting limit |
| JsonAcceptance.NumberComplete | src/common/json.cpp:345-378 | every number of section 6 is taken whole |
| JsonAcceptance.StringSound | src/common/json.cpp:302-343 | what is accepted as a string is made of UTF-8 characters and escapes of section 7 |
| JsonAcceptance.RenderDerived | src/common/json.cpp:114-193 | written text has a derivation with the nesting of its document |
| JsonDom.WrittenDocumentReadsBack | src/cli/json_dom.cpp:40-150 | for every well-nested sequence of writer calls the DOM parser returns the same tree with the same literals and sanitised strings and keys, exactly when at most 128 containers enclose a value |
| JsonDom.QuotedStringParses | src/cli/json_dom.cpp:191-256 | a quoted string parses to the sanitised string, so to itself exactly when it is valid UTF-8 |
| JsonDom.EscapeReadsBack | src/cli/json_dom.cpp:191-256 | the string reader undoes escaping at any place in a text |
| JsonDom.ValueReadsBack | src/cli/json_dom.cpp:54-150 | a written value is read back at any place and depth exactly when it fits |
| JsonDom.Parser.Run | src/cli/json_dom.cpp:40-51 | the parser's methods compute the reading stated on the remaining text |
| JsonDom.Parser.ParseString | src/cli/json_dom.cpp:191-256 | the loop reads the string up to its closing quote, each escape as the function of the remaining text says, and fails where that does |
| JsonDom.Parser.ParseHex4 | src/cli/json_dom.cpp:170-189 | four hexadecimal digits of either case are their value, and anything else fails |

## Left out

- LinkHandlers.LinkLike: a hard link to a symlink makes an identical symlink, as the code does; that the two are then different inodes to the host is not presented as one file. Which names share a mount is a parameter.
- LinkHandlers.Perform: counts stay below 2^31-1, marker texts fit a symlink, ids are distinct and unused (they come from the system's random numbers), and names lie outside the store directory and are not the root of the mount. That the parent of a new name is a directory is not looked at: names come from the resolver, whose results have real directories above them (ResolutionProper).
- LinkStores.LinkStore.LinkExistingCalls: the second look at the object under the lock cannot fail here, where nothing runs beside it; it is a step of its own in LinkRace.
- LinkHandlers.PerformAll: a release whose record cannot be written or removed, or whose object cannot be removed, is not among the runs; what it leaves is LinkStores.LinkStore.Release.
- LinkTidy.TidyIsPlain: the store of one session; what another session does meanwhile is LinkRace and UnlinkRace.
- LinkStores.LinkStore.Scan: the store of one mount; the code visits every rootfs and bind mount.
- LinkStores.LinkStore.Remember: only an object that is a file is remembered, and nothing else is ever an object of the modelled store.
- LinkHandlers.RenameLike: NOREPLACE and EXCHANGE together, which the kernel refuses, are not a case.
- LinkRace.RaceIsSafeIff: one link against one unlink; no host call fails other than by the other session's doing. Crash recovery of the store and concurrent first links are not modelled. Sessions without the lock are UnlockedRace.
- UnlinkRace.UnlinksAreSafeIff: two sessions that both hold the store lock where the code asks for it; no host call fails.
- UnlockedRace.SafeIffLocked: a lock that cannot be opened; a lock that is opened is also held.
- Resolver.Resolve: the filesystem does not change during a resolution; the search permission of directories is whatever lstat answers.
- ResolverLaws.SymlinkIsItsText: both paths are shorter than PATH_MAX; a text that ends in a slash, behind which nothing is asked for, asks for a directory, which shows as a slash behind the host path.
- LinkResolution.ResolvesToViewedFile: for a store that is a plain directory of the mount the name is on.
- TraceModes.ModesAgree: the handlers of calls that are always stopped, the exit fix-ups and the kernel are arbitrary functions; diagnostics are not part of the compared world; the tracer and the filter see the same 32-bit call number; a filter of the host itself and calls that do not return (a successful execve) are not modelled. Which stop is an entry and which an exit is SyscallStops.
- CallAnswers.PresentedCall: what a fix-up makes of the kernel's answer is a parameter.
- ModeRuns.RunsAgreeIff: one task outside a call at the start; calls that do not return, and stops for signals, are not part of the runs.
- SyscallStops.VerdictRightIff: a kernel reports an exit only inside a call and an entry only outside; a system call entry is reported before the filter is asked.
- ElfLoader.Loader.LoadImage: opening the file is not modelled; segments lie in disjoint pages, have their bytes in the file, and stay inside the address space or wrap in a way the loader sees, which leaves out sizes within two pages of 2^64.
- LoaderMain.RunLoader: opening a file gives its bytes or nothing; the loader's own code and stack are address space in use from the start; the task's name and the jump itself are not modelled.
- LoadRequest.MakeLoadRequest: the plan's strings are inputs.
- ExecResolver.MakePlan: permission, ELF and loader checks are arbitrary answers of the host for each path; the diagnostics and the PATH search are not modelled.
- ExecResolver.ScanForArgv0: the cache of answers by device, inode, size and time is not modelled.
- ExecCall.Translate: the stop at which the request is handed to the loader, reading the caller's arguments and its limits on them, and the registers that receive the addresses, are not modelled.
- ExecStack.StackWriter.Push: which stretches of the tracee can be written is a parameter.
- LoaderStack.RewriteAuxv: for a stack as execve builds it.
- Credentials.Creds.Handle: one process; inheritance at fork and the choice between threads are not modelled, nor how much of a list is written before a fault.
- KernelIdentity.FollowsKernelIff: the kernel as its manual pages describe it, for a caller whose capabilities follow its effective uid; what a failed call has stored is not compared, and limits on groups other than their number are not part of it.
- SessionCancel.NoLostCancellation: select_engine, create_instance, the instance's start and thread creation succeed or fail freely; events, the watchdog and what the instance does are not modelled.
- SupervisorCancel.NoTaskSurvives: that a SIGKILL sent to a task ends it is the kernel's part; a cancel is for a reason other than `none`, as every caller's is; reuse of a task id between its exit and its removal counts as the same task.
- JsonText.WriterRenders: `raw` is not modelled.
- JsonDom.Parser.Run: numbers stay literals; strtod is the decimal subject sequence of the C standard, without locale.
- JsonDom.WrittenDocumentReadsBack: the parser is only held to written text; on other text it is stricter than the validator about unpaired surrogates and laxer about the bytes of strings and the form of numbers.
- /proc stand-ins, socket addresses, extended attributes and directory listings: many cases, each of them easy.
- Event emission, C interface, options, host probes and reports: input, output and fixed text.
