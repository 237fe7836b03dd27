# NFS-Ganesha: a verified model of its protocol core

This project models the parts of the NFS-Ganesha file server whose behaviour is hardest to see from
the code, and proves what they guarantee. Each part is a small state machine or a transformation,
and each is proved against something simpler than itself.

- **Access control lists** (`AclTypes`, `AccessCheck`, `FirstMatch`, `ExactOutcome`,
  `WhoIsConcerned`). The loop that evaluates an NFSv4 access control list is proved to decide by the first
  entry that mentions each bit, as section 6.2.1 of RFC 7530 asks.
- **Modes** (`ModeAcl`, `ModeMeaning`, `ModeToAcl`, `RewriteMeaning`, `RemoveAccess`). A POSIX mode is
  compiled into six entries. Evaluating these is proved to decide what the mode check decides, for every
  mode, caller, object and request. The rewriting of a list after a change of mode, and the rule for
  removing an object, are built on top.
- **Reply caches** (`DupReq`, `DupReqRuns`, `AbandonedRequests`, `CacheAnswers`, `Seqid`). The duplicate
  request cache is proved to execute at most once over whole runs, and the per-owner sequence ids to count up.
- **Shares and descriptors** (`OpenFlags`, `Share`, `Reopen`). Five counters are proved to stand for a
  list of pairwise compatible opens over every history; the reopen protocol is proved under
  interference by other threads at every gap in its locking.
- **Range lists** (`Ranges`, `RangeLists`, `RangeListParser`, `NodeEnumeration`). Arrays of ranges are
  proved to be canonical forms of sets of integers under adding, removing, reading and counting.
- **Queues and slots** (`ReqQueue`, `CbSlots`). Pairs of lists are proved to be first-in first-out
  queues served in rotation, and callback slots to be owned by one call each.
- **Clients** (`Lease`, `ClientIds`, `ClientIdRuns`, `ClientLookups`). Leases, the reaper, and the two client id tables
  with their reference counts.
- **Address blocks** (`Cidr`). Bit loops proved against sets of addresses.

`dafny verify dfyconfig.toml` checks everything.

How the model is written:

- Code that updates things in place is a class or a method with a loop. Each method is proved equal to
  a function of the old state, and the theorems are about that function. Theorems over runs quantify
  over every sequence of steps.
- A public call made under a mutex is one step. `Reopen` is the exception: there other threads act
  whenever the lock is not held.
- A permission word is the set of its bits. A mode is a 32-bit word. An address is a sequence of 128
  bits, most significant first. Counters that wrap are written modulo 2^32. Other integers are
  unbounded.
- Clocks, interference, file system answers and callbacks are parameters.
- The build option `ENABLE_RFC_ACL` is a field of the request (`rfcOnly`).

Properties one might expect and that do not hold of the code:

- A request flagged REQ ("an ALLOW entry is required") is not granted by an entry that allows what it
  asks for, because the flag stays among the bits the list has to grant. Entries are stored with the
  permission word the client sent (`src/Protocols/NFS/nfs_proto_tools.c:788-790`), so the flag can be
  there, and then the request is granted (`ExactOutcome.ReqGrantedIff`). So DELETE and DELETE_CHILD,
  even both, are not enough to remove an object, against the comment at
  `src/FSAL/commonlib.c:1803-1804`, unless an entry grants the flag too
  (`RemoveAccess.DeletePermissionsSufficeIff`).
- Refused EXECUTE to root, the list evaluation reports nothing denied where the mode check does
  (`ModeMeaning.RootOutputsAgreeIff`).
- Rewriting a list after a change of mode writes past the array exactly when the list mixes
  mode-generated entries with others (`ModeToAcl.RewriteForMode`), as a rewritten list does whenever the
  list before it had entries of its own (`RewriteMeaning.SecondRewriteOverrunsIff`); and it strips the rights of the users
  and groups numbered 1 to 3 (`RewriteMeaning.NamedEntryKeptIffNotLowNumbered`).
- Adding a range with reversed bounds drops every stored range (`RangeLists.RangeList.AddRange`).
- A failed reopen puts the old share mode back unchecked, which breaks compatibility exactly when a check
  would have refused it (`Share.RevertIsSoundIff`).
- A request whose reply could not be sent leaves an entry that answers "being processed" until it is
  retired (`AbandonedRequests.StuckUntilRetired`); nothing else does
  (`AbandonedRequests.AbandonedByReleaseOnly`).
- The rotation counter skips 0 at the wrap, which makes the mount queue late
  (`ReqQueue.ServedInFourPerPositionIff`).
- An operation recorded without a file is executed again on retransmission
  (`Seqid.RetransmissionExecutedIff`).
- CREATE_SESSION revives a lease that had run out (`Lease.BumpRevivesIff`).
- Expiring a record made stale while unconfirmed is fatal (`ClientIdRuns.ExpiryIsFatalIff`). The one caller
  that makes records stale tests for CONFIRMED first (`src/SAL/nfs4_recovery.c:1336-1359`).
- A block whose mask is not contiguous contains every block of its protocol (`Cidr.ContainsExactly`). The
  text reader refuses such masks (`src/cidr/cidr_from_str.c:444-450`, `:663-669`), so this concerns blocks
  built otherwise.

## Model

| member | source | states |
|---|---|---|
| AclTypes.CheckAceGroup | src/FSAL/access_check.c:29-42 | the search finds the group exactly when it is the caller's primary or one of the supplementary groups |
| AccessCheck.WalkEntries | src/FSAL/access_check.c:544-650 | the loop over the entries is the recursive walk `Scan`, for every list, missing bits and outputs; `FirstMatch` proves what the walk decides |
| AccessCheck.CheckAccessAcl | src/FSAL/access_check.c:434-676 | status and both outputs are those of `Evaluate` on every path, including the missing list, the empty request, the root and owner exits and both build options |
| FirstMatch.RulingIsTheFirst | src/FSAL/access_check.c:544-650 | the recursive ruling on a bit is that of the entry with the least index that applies and mentions it, and silent exactly when none does |
| FirstMatch.ScanGrants | src/FSAL/access_check.c:544-676 | from any point of the walk, acceptance means nothing denied yet and every missing bit ruled granted by the entries to come |
| FirstMatch.GrantedIffFirstMatchAllows | src/FSAL/access_check.c:465-676 | a caller other than root is granted access if and only if the first applicable entry mentioning each needed bit allows it, for every list |
| FirstMatch.ScanForRoot | src/FSAL/access_check.c:561-610 | for root on a file DENY entries never count, nothing is reported denied, and EXECUTE is found exactly when some applicable entry allows it |
| FirstMatch.RootVerdict | src/FSAL/access_check.c:479-501 | root is granted everything on a directory and everything but EXECUTE on a file, which some entry must allow; the error codes possible otherwise |
| FirstMatch.VerdictIgnoresOutputsAndContinue | src/FSAL/access_check.c:591-671 | grant or refuse is the same whichever outputs are passed, with or without CONTINUE, under both build options |
| WhoIsConcerned.MentionsIff | src/FSAL/access_check.c:44-137 | which entries rule on a bit for which caller, written out: inheritance and object kind, OWNER@, GROUP@ and EVERYONE@, groups with the supplementary ones, users, root |
| WhoIsConcerned.GrantedIffAllowedFirst | src/FSAL/access_check.c:465-676 | for every list and caller other than root, granted if and only if for each bit, without the owner's four, the first such entry allows it |
| WhoIsConcerned.RootGrantedIff | src/FSAL/access_check.c:479-576 | for root on a file, one such entry that allows EXECUTE |
| WhoIsConcerned.OneEntryStatus | src/FSAL/access_check.c:544-671 | the exact status on every list of one entry, EPERM going with WRITE_ATTR, WRITE_ACL and WRITE_OWNER |
| ExactOutcome.ScanStopsAt | src/FSAL/access_check.c:591-638 | a walk that stops does so at the first entry that refuses a needed bit nobody before it mentioned, with the status of the bits it refuses |
| ExactOutcome.ScanReaches | src/FSAL/access_check.c:561-589 | a walk that meets no refusal ends with exactly the bits nobody ruled on missing and nothing denied |
| ExactOutcome.ScanGoesOn | src/FSAL/access_check.c:609-650 | with CONTINUE the walk reaches the end, the missing bits are those nobody ruled on, the denied ones exactly the requested bits of the entries that refuse something, and no bit is both |
| ExactOutcome.ScanSorts | src/FSAL/access_check.c:561-650 | with CONTINUE and both outputs the bits added to `allowed` are exactly the missing bits ruled granted |
| ExactOutcome.StatusExactly | src/FSAL/access_check.c:591-671 | the status of every request by a caller other than root: when it is success, NO_ACE, EPERM or EACCES, by the rulings and the first refusing entry |
| ExactOutcome.DeniedExactly | src/FSAL/access_check.c:609-650 | exactly which bits are reported denied, with and without CONTINUE; all refused bits are, none nobody ruled on |
| ExactOutcome.ScanAllowsBefore | src/FSAL/access_check.c:561-638 | a walk that stops has added to `allowed` exactly the missing bits granted before the entry it stops at |
| ExactOutcome.AllowedExactly | src/FSAL/access_check.c:524-638 | exactly which bits are reported allowed: the owner's implicit bits and, with CONTINUE or without a refusal, all bits ruled granted, otherwise those granted before the first refusing entry |
| ExactOutcome.ErrorCodeDependsOnContinue | src/FSAL/access_check.c:612-671 | a concrete request refused with EPERM without CONTINUE and with EACCES with it |
| ExactOutcome.OutputsMayOverlap | src/FSAL/access_check.c:609-610 | a concrete list that puts a bit in both outputs |
| ExactOutcome.ReqGrantedIff | src/FSAL/access_check.c:465-654 | for every list, a request flagged REQ is granted to a caller other than root if and only if the list grants the rest of it and grants the flag itself as if it were a permission; root is judged as without the flag |
| ExactOutcome.ReqCanBeGranted | src/Protocols/NFS/nfs_proto_tools.c:788-790 | for an entry with any permission word, the flagged request is granted if and only if the flag is in the word |
| ModeAcl.ShiftMode | src/FSAL/access_check.c:752-779 | the mode is shifted by the caller's class, the supplementary groups searched in a loop |
| ModeAcl.ClassRights | src/FSAL/access_check.c:783-787 | the three low bits of the shifted mode are the rights of the caller's class in the unshifted mode |
| ModeAcl.RootMayExecute | src/FSAL/access_check.c:733-734 | the test on three bits at once is "some class may execute" |
| ModeAcl.CheckAccessNoAcl | src/FSAL/access_check.c:690-806 | status and both outputs follow the rule of one class of three bits, with root's exception, on every path |
| ModeAcl.ModeGrantsIff | src/FSAL/access_check.c:711-806 | what the mode check decides from the numbered bits of the mode: owner bits 8 to 6, group 5 to 3, others 2 to 0, the first class the caller is in; root by the execute bits |
| ModeAcl.ModeSetAce | src/FSAL/commonlib.c:1889-1911 | each right is added to exactly one of the two cells; no other cell changes |
| ModeAcl.GeneratePair | src/FSAL/commonlib.c:1918-1949 | a pair of cells is labelled with its class and given the rights of that class of the whole mode |
| ModeAcl.ModeGenSet | src/FSAL/commonlib.c:1913-1952 | the six cells are the pairs of owner, group and others in this order, whatever they held before; no other cell changes |
| ModeMeaning.OwnPairIsFirst | src/FSAL/commonlib.c:1913-1952 | in the compiled list the caller's class is the first pair that applies |
| ModeMeaning.ModeListRules | src/FSAL/commonlib.c:1889-1952 | the compiled list rules on every bit as the mode does for the caller's class |
| ModeMeaning.RootOnModeList | src/FSAL/commonlib.c:1889-1952 | the compiled list has an applicable ALLOW for EXECUTE exactly when some class may execute |
| ModeMeaning.CompiledModeDecidesAsTheMode | src/FSAL/commonlib.c:1913-1952 | compiling preserves meaning: for every mode, owner, group, credential (root included), kind of object, request, outputs and build option, evaluating the compiled list gives the status of the mode check |
| ModeMeaning.CompiledModeReportsAsTheMode | src/FSAL/access_check.c:795-799 | for every caller but root, whichever outputs are passed, `denied` agrees bit by bit with the mode check; `allowed` agrees too, except that without CONTINUE and a `denied` output a refusal leaves it empty |
| ModeMeaning.RootOutputs | src/FSAL/access_check.c:484-501 | what is reported to root for any list: nothing denied, everything allowed but a refused EXECUTE |
| ModeMeaning.RootOutputsAgreeIff | src/FSAL/access_check.c:735-739 | for root `allowed` agrees with the mode check for every request, and `denied` agrees if and only if the object is a directory, EXECUTE is not asked for or some class may execute |
| ModeToAcl.CountKept | src/FSAL/commonlib.c:1995-2012 | the counting pass counts exactly the entries the emitting pass stores |
| ModeToAcl.EmitOne | src/FSAL/commonlib.c:2048-2076 | an entry is copied, or duplicated and stripped; the cells before and after are kept; whether a store falls outside the array |
| ModeToAcl.EmitKept | src/FSAL/commonlib.c:2043-2076 | the emitting pass stores the carried entries in order; it leaves the array only when mode-generated and other entries are mixed |
| ModeToAcl.RewriteForMode | src/FSAL/commonlib.c:1984-2090 | the two passes agree (never SERVERFAULT); the array is overrun if and only if the source mixes mode-generated and other entries; otherwise it is exactly filled with the carried and the compiled entries |
| ModeToAcl.ModeGenAcl | src/FSAL/commonlib.c:1954-1982 | the list of a mode alone is the compiled list |
| RewriteMeaning.CarryRules | src/FSAL/commonlib.c:2048-2076 | what one entry becomes rules on reading, writing and executing as the entry did, or not at all if it is mode-generated or numbered 1, 2 or 3 |
| RewriteMeaning.RewrittenRules | src/FSAL/commonlib.c:1984-2090 | for every list, mode and caller other than root the rewritten list rules on such a bit as the surviving named entries of the source do, and as the mode does where these are silent |
| RewriteMeaning.RewrittenListDecides | src/FSAL/commonlib.c:1984-2090 | so every read, write and execute request is granted if and only if each bit is, and refused with EACCES |
| RewriteMeaning.RewrittenListDecidesAsTheMode | src/FSAL/commonlib.c:1984-2090 | where the named entries are silent the rewritten list decides as the mode does, whatever else the source said |
| RewriteMeaning.UnnamedCallerIsLeftToTheMode | src/FSAL/commonlib.c:2048-2076 | they are silent for every caller matched by no entry that names a user or a group |
| RewriteMeaning.NamedEntryKeptIffNotLowNumbered | src/FSAL/commonlib.c:2064-2073 | an entry anywhere in a list, for a user or a group, keeps its ruling if the number is not 1, 2 or 3, since the test for special identifiers ignores the flag; otherwise it is as if it had not been there |
| RewriteMeaning.NamedKeepsAccessIff | src/FSAL/commonlib.c:2064-2073 | a user or group allowed a right by the only entry has it afterwards if and only if its number is not 1, 2 or 3 or the mode gives the right |
| RewriteMeaning.RewrittenListForRoot | src/FSAL/commonlib.c:1984-2090 | root is granted EXECUTE on a file if and only if a surviving named entry allows it or the mode gives it to some class |
| RewriteMeaning.OtherPermissionsAreKept | src/FSAL/commonlib.c:2048-2076 | for every list, mode and caller, the rewritten list rules on every other permission as the source does without its mode-generated entries |
| RewriteMeaning.InheritanceIsKept | src/FSAL/commonlib.c:2048-2076 | it passes on to children exactly what the source does without them, in order, with kind, permissions, who and flags |
| RewriteMeaning.AuditIsKept | src/FSAL/commonlib.c:2048-2076 | audit and alarm entries are kept as they are, in order |
| RewriteMeaning.CompiledEntries | src/FSAL/commonlib.c:1913-1952 | kind, who, flags and marks of the six compiled entries |
| RewriteMeaning.SecondRewriteOverrunsIff | src/FSAL/commonlib.c:2043-2046 | the next rewriting recognises exactly the compiled entries, and writes past the array if and only if the first list had an entry of its own |
| RemoveAccess.TestPermits | src/FSAL/access_check.c:816-854 | the plain test of one right succeeds exactly when the list, or without a list the mode, permits it, root included, and says EACCES otherwise |
| RemoveAccess.RequiredStatus | src/FSAL/access_check.c:652-654 | DELETE or DELETE_CHILD asked with REQ, for every caller and object: success, EACCES or NO_ACE by what the list says of the permission and of the flag; NO_ACE without a list |
| RemoveAccess.MayRemoveIff | src/FSAL/commonlib.c:1782-1854 | for all inputs: removal is allowed if and only if EXECUTE on the directory is permitted and either flagged permission is granted, or neither says anything and the ADD right is permitted; a refusal is EACCES |
| RemoveAccess.DeletePermissionsSufficeIff | src/FSAL/commonlib.c:1803-1851 | with DELETE and DELETE_CHILD both granted removal is allowed if and only if a list grants the flag too, or none refuses it and the ADD right is granted |
| RemoveAccess.FlaggedEntrySuffices | src/FSAL/commonlib.c:1803-1851 | with DELETE and the flag granted on the object, EXECUTE on the directory is enough |
| RemoveAccess.DeletePermissionsDoNotSuffice | src/FSAL/commonlib.c:1803-1851 | objects with both delete permissions granted and no flag in the lists, whose removal is refused unless ADD_FILE is granted |
| DupReq.Drc.DupreqStart | src/RPCAL/nfs_dupreq.c:979-1023 | a hit on a finished entry takes a reference and returns its reply, a hit on an unfinished one changes nothing, a miss enters a new entry in index, queue and count |
| DupReq.Drc.DupreqFinish | src/RPCAL/nfs_dupreq.c:1070-1143 | the reply is recorded, then at most the oldest entry is retired, when one is due and nobody refers to it |
| DupReq.Drc.DupreqDelete | src/RPCAL/nfs_dupreq.c:1161-1206 | the entry is marked deleted and leaves index, queue and count |
| DupReq.Drc.DupreqRele | src/RPCAL/nfs_dupreq.c:1221-1258 | a reference is given back; the last one frees a deleted entry and no other |
| DupReqRuns.StepKeeps | src/RPCAL/nfs_dupreq.c:979-1258 | every step keeps the invariant: same entries in index and queue under unique keys, exact reference counts, one executor per unfinished entry, and the history clauses below |
| DupReqRuns.EveryRunKeeps | src/RPCAL/nfs_dupreq.c:979-1258 | the invariant holds after every run of start, finish, delete and release by any number of requests |
| DupReqRuns.ExecutedAtMostOnce | src/RPCAL/nfs_dupreq.c:979-1258 | two orders to execute the same key are separated by the deletion of the first entry, or by its retirement with at least min(hiwat, maxsize) later entries still cached |
| DupReqRuns.TablesRetire | src/RPCAL/nfs_dupreq.c:842-857 | retirement keeps index and queue matched and leaves at least min(hiwat, maxsize) entries, all newer |
| DupReqRuns.ReplayedReplyIsTheStoredOne | src/RPCAL/nfs_dupreq.c:984-1020 | every reply answered from the cache was stored earlier for the same entry and key, and no entry ever has two stored replies |
| DupReqRuns.ReferencesAreExact | src/RPCAL/nfs_dupreq.c:1234-1250 | after every run each count is the number of requests holding the entry, no request holds a freed entry, no entry is freed twice, and size, queue and index agree in number |
| AbandonedRequests.ReleasedUnfinishedIsAbandoned | src/MainNFSD/nfs_worker_thread.c:1337-1352 | a granted request released without finish or delete leaves an unfinished entry nobody holds |
| AbandonedRequests.AbandonedByReleaseOnly | src/MainNFSD/nfs_worker_thread.c:1337-1352 | a step abandons an entry if and only if it is that release |
| AbandonedRequests.ExecutedUnlessReleased | src/RPCAL/nfs_dupreq.c:979-1258 | throughout a run every entry being processed has its executor if and only if no request is released in the run while unfinished |
| AbandonedRequests.AbandonedUntilRetired | src/RPCAL/nfs_dupreq.c:1103-1135 | under every step an abandoned entry stays abandoned under its key or is retired |
| AbandonedRequests.StuckUntilRetired | src/RPCAL/nfs_dupreq.c:989-990 | over all later steps, until the log shows the entry retired, every request for its key is told it is being processed and changes nothing |
| CacheAnswers.EveryStartAnswered | src/RPCAL/nfs_dupreq.c:979-1023 | after every run what a new request gets: the reply stored for its key, nothing while the first is unfinished, or the order to execute with a new entry cached last |
| CacheAnswers.FinishRetiresIff | src/RPCAL/nfs_dupreq.c:1085-1135 | after every run a finish retires and frees the oldest entry if and only if nobody holds it and more than maxsize entries are cached, or more than hiwat with no window open; the window closes by one at each finish above maxsize |
| CacheAnswers.ReplayOpensWindow | src/RPCAL/nfs_dupreq.c:801-830 | a replay opens a window of 16 or extends an open one by one |
| CacheAnswers.NothingRetiredInWindow | src/RPCAL/nfs_dupreq.c:842-857 | while a window is open nothing is retired over any steps that keep at most maxsize entries cached, and the window does not shrink |
| Seqid.Nfs4Owner.CheckSeqid | src/SAL/nfs4_owner.c:687-770 | whether to execute, and the response otherwise: the saved one for a replay, BAD_SEQID for anything else |
| Seqid.Nfs4Owner.CopyStateReq | src/SAL/nfs4_owner.c:626-665 | id, operation, file and response are all replaced by those of the request |
| Seqid.EveryRunKeeps | src/SAL/nfs4_owner.c:626-770 | after every run the owner remembers the request executed last with its response, and an execution recorded with a file is followed by the next id |
| Seqid.ExecutedIdsCountUp | src/SAL/nfs4_owner.c:717-725 | while executions are recorded with a file the executed ids count up by one modulo 2^32, and the same id recurs only after a multiple of 2^32 executions |
| Seqid.RetransmissionsAreAnswered | src/SAL/nfs4_owner.c:726-770 | any number of retransmissions of the last operation on the same file get the response its execution gave, execute nothing and change nothing |
| Seqid.RetransmissionExecutedIff | src/SAL/nfs4_owner.c:709-716 | a retransmission of the last operation is executed again if and only if it was recorded without a file |
| Seqid.EveryArrival | src/SAL/nfs4_owner.c:709-770 | after every run the next arrival is executed, answered with the response of the last execution, or refused with BAD_SEQID, and which of these follows from the request executed last; only an execution changes anything |
| Share.FsalShare.UpdateShareCounters | src/FSAL/commonlib.c:2193-2233 | each counter changes by the difference its flag makes, the deny-write counter by that of both kinds |
| Share.FsalShare.CheckShareConflict | src/FSAL/commonlib.c:2252-2300 | the four tests in order, with the bypass |
| Share.FsalShare.MergeShare | src/FSAL/commonlib.c:2318-2364 | a refused merge changes nothing, an accepted one adds the counters, the duplicate is untouched |
| Share.CheckIffCompatible | src/FSAL/commonlib.c:2252-2300 | with exact counters the check passes if and only if the new open is compatible with every live one |
| Share.BypassedCheckIff | src/FSAL/commonlib.c:2258-2270 | what the bypassing check tests of every live open |
| Share.MergeCheckIff | src/FSAL/commonlib.c:2324-2350 | the merge check passes if and only if every open of one handle is compatible with every open of the other |
| Share.EveryRunIsSound | src/FSAL/commonlib.c:2193-2364 | after every history of checked opens, closes, downgrades, checked reopens and merges the counters are the per-flag counts of the live opens, none below zero, and the live opens are pairwise compatible |
| Share.ReplacedOpenIsSoundIff | src/FSAL/commonlib.c:2193-2233 | replacing the mode of an open keeps the counts, and keeps compatibility if and only if the new mode suits all the others |
| Share.RevertIsSoundIff | src/FSAL/FSAL_VFS/file.c:796-829 | in any reachable state, putting the old mode of an open back keeps compatibility if and only if the check, made on the counters without that open, passes for the old mode |
| Share.RevertMayBreak | src/FSAL/FSAL_VFS/file.c:796-829 | a concrete history in which it does not |
| OpenFlags.NotUsableIff | src/include/fsal.h:567-580 | a descriptor is unusable if and only if it lacks a flag wanted and it is not the case that any open one will do |
| Reopen.TryModeIsUsable | src/FSAL/commonlib.c:2551-2570 | the joint mode has every flag wanted, keeps what the descriptor had and is more than that |
| Reopen.ObjHandle.SwitchMode | src/FSAL/commonlib.c:2550-2587 | under the write lock the descriptor is closed if open and opened in the joint mode; the share is untouched; which failures are possible when |
| Reopen.ObjHandle.UseTemporary | src/FSAL/commonlib.c:2485-2524 | the busy path: an opened temporary descriptor, the read lock held exactly if the share was to be checked, no conflict then; nothing held on failure |
| Reopen.ObjHandle.SwitchAndReturn | src/FSAL/commonlib.c:2532-2611 | from the write lock back to the read lock with the share checked again, or nothing held |
| Reopen.ObjHandle.MakeUsable | src/FSAL/commonlib.c:2454-2619 | the test, the switch and the one retry, with all the guarantees of the whole operation |
| Reopen.ObjHandle.ReopenObj | src/FSAL/commonlib.c:2403-2620 | under any interference: the read lock is held exactly when reported; the global descriptor is closed and opened only under the write lock; success gives a global descriptor with every flag wanted, or open when any will do, under the read lock, or an opened temporary one to close; no share conflict at return if it was checked; a try for the write lock is made once, if and only if the first look did not find such a descriptor; success without interference and failures |
| Ranges.ApartIffNeither | src/NodeList/nodelist_range.c:57-112 | the two tests of the merging pass are both negative exactly when a gap separates the ranges; otherwise the union of the two is their set union |
| Ranges.CompareIsAntisymmetricIff | src/NodeList/nodelist_range.c:45-55 | two ranges compare antisymmetrically if and only if they are equal or do not intersect; otherwise each is greater than the other; a range not well formed compares equal to all |
| Ranges.CompareOrdersRangesApart | src/NodeList/nodelist_range.c:45-55 | on ranges pairwise apart the comparison is a strict total order: the order of the gaps between them |
| Ranges.SetHoldsBetween | src/NodeList/nodelist_range.c:18-28 | a range set from two bounds holds what is between them in either order |
| Ranges.IncludesIffSubset | src/NodeList/nodelist_range.c:87-98 | the results of the inclusion test are those of the subset relation |
| Ranges.ContiguousIff | src/NodeList/nodelist_range.c:75-85 | the results of the contiguity test: right before, right after, neither, not well formed |
| Ranges.CanonicalIsUnique | src/NodeList/nodelist_range.c:151-220 | a set of integers has at most one canonical list, so set and canonical form determine each result |
| RangeLists.AlreadyPresent | src/NodeList/nodelist_range.c:165-171 | whether some stored range includes the new one |
| RangeLists.SortRanges | src/NodeList/nodelist_range.c:411-415 | a permutation that is strictly increasing under the comparison |
| RangeLists.SortIsUnique | src/NodeList/nodelist_range.c:411-415 | every sort by the comparison gives the same list on the arrays it is called on |
| RangeLists.RangeList.constructor | src/NodeList/nodelist_range.c:114-120 | an empty list of the default capacity |
| RangeLists.RangeList.MergePass | src/NodeList/nodelist_range.c:177-206 | one pass leaves ranges pairwise apart that stand for the union, although the range being merged grows during the pass; a reversed range drops what is stored, a stored reversed range is dropped |
| RangeLists.RangeList.AddRange | src/NodeList/nodelist_range.c:151-220 | the list becomes canonical within capacity and stands for the set union, even from a list a reversed range had spoilt; a reversed range is all that is left of the list |
| RangeLists.RangeList.AddRangelist | src/NodeList/nodelist_range.c:222-228 | for any list of ranges: the set is that of the ranges since the last reversed one |
| RangeLists.AllKept | src/NodeList/nodelist_range.c:222-228 | with well-formed ranges only that is the union of both lists |
| RangeLists.RangeList.AddRemains | src/NodeList/nodelist_range.c:247-284 | what is left of one range after removing another is added; a reversed one spoils the list |
| RangeLists.RangeList.RemoveRange | src/NodeList/nodelist_range.c:230-292 | the list stays canonical and stands for the set difference, for every range including reversed ones, from spoilt lists too |
| RangeLists.RangeList.RemoveRangelist | src/NodeList/nodelist_range.c:294-301 | set difference with another list |
| RangeListParser.ScanDigits | src/NodeList/nodelist_range.c:334-335 | the run of digits found is maximal and the rest of the reading depends on it alone |
| RangeListParser.TakeNumber | src/NodeList/nodelist_range.c:338-392 | one number: give up, keep as lower bound, or add an interval, and the padding, as the grammar-level reading says |
| RangeListParser.AddList | src/NodeList/nodelist_range.c:303-409 | for every text the list becomes the union with the intervals read, the result is the padding or -1 |
| RangeListParser.LexRendered | src/NodeList/nodelist_range.c:334-392 | the characters of a well-formed list give back its numbers and separators |
| RangeListParser.ReadWellFormed | src/NodeList/nodelist_range.c:303-409 | round trip: a well-formed list, with or without brackets, is read as exactly the intervals of its items, bounds in either order |
| RangeListParser.PaddingIsLongest | src/NodeList/nodelist_range.c:349-354 | the padding is the length of the longest number with a leading zero |
| RangeListParser.ValueOfDecimal | src/NodeList/nodelist_range.c:338-343 | reading the decimal writing of n, with any number of zeros before it, gives n |
| RangeListParser.ReadsIffAcceptable | src/NodeList/nodelist_range.c:343-392 | for every text: the reader gives up if and only if some number is 2^63 - 1 or more or does not end at a dash, a comma, a bracket or the end |
| RangeListParser.GivesUpAt | src/NodeList/nodelist_range.c:343-392 | it gives up at the first such number, with the intervals of the items before added |
| RangeListParser.ReadStaysBelowLongMax | src/NodeList/nodelist_range.c:343-347 | whatever the text, no id read reaches LONG_MAX |
| NodeEnumeration.Quantity | src/NodeList/nodelist.c:459-477 | the sum of the lengths is, on a canonical list, the number of elements of the set |
| NodeEnumeration.TotalIsCardinality | src/NodeList/nodelist.c:459-477 | no id of a canonical list is counted twice |
| NodeEnumeration.MapNodes | src/NodeList/nodelist_map.c:57-83 | the callback is called on the enumeration in order whatever it returns, and the status is that of the last call |
| NodeEnumeration.EnumerationIsExact | src/NodeList/nodelist_map.c:66-83 | on a canonical list every id is visited exactly once, in ascending order |
| ReqQueue.Dispatcher.EnqueueReq | src/MainNFSD/nfs_rpc_dispatcher_thread.c:1370-1424 | the request is appended to the one queue its type selects, sizes kept, or dropped if the type is unknown |
| ReqQueue.Dispatcher.ConsumeReq | src/MainNFSD/nfs_rpc_dispatcher_thread.c:1483-1538 | the head of the queue is taken, through the splice of the producer list when needed; the other queues are kept |
| ReqQueue.Dispatcher.NextSlot | src/include/nfs_req_queue.h:100-107 | the counter advances by one, by two at the wrap |
| ReqQueue.PickFrom | src/MainNFSD/nfs_rpc_dispatcher_thread.c:1554-1592 | the first queue with a request from a slot upwards round: none exactly when all are empty |
| ReqQueue.Dispatcher.LookRound | src/MainNFSD/nfs_rpc_dispatcher_thread.c:1560-1586 | the four probes take the head of the first non-empty queue from the slot round |
| ReqQueue.Dispatcher.DequeueReq | src/MainNFSD/nfs_rpc_dispatcher_thread.c:1552-1592 | one round of a worker is one draw |
| ReqQueue.EachQueueIsFifo | src/MainNFSD/nfs_rpc_dispatcher_thread.c:1416-1538 | over every run what a queue held followed by what was put into it is what was served from it followed by what it holds |
| ReqQueue.CountersTellHeld | src/MainNFSD/nfs_rpc_dispatcher_thread.c:1416-1592 | throughout every run enqueued minus dequeued is the number of requests held, modulo 2^32 |
| ReqQueue.ServedWhenDue | src/MainNFSD/nfs_rpc_dispatcher_thread.c:1552-1592 | the request at position k is served by the time its slot has come up k + 1 times, whatever is enqueued in between |
| ReqQueue.NotServedBeforeDue | src/MainNFSD/nfs_rpc_dispatcher_thread.c:1552-1592 | that number of draws is exact while the other queues have requests |
| ReqQueue.ServedExactlyWhenDue | src/MainNFSD/nfs_rpc_dispatcher_thread.c:1552-1592 | n draws are certain to serve the request at position k, whatever the queues hold and whatever is enqueued meanwhile, if and only if n is at least the number of draws that bring its slot up k + 1 times |
| ReqQueue.ServedInFourPerPositionIff | src/include/nfs_req_queue.h:100-107 | 4(k + 1) draws are certain to serve the request at position k if and only if it is not in the mount queue, or the counter does not wrap on the way, or wraps once and the queue's turn was next |
| ReqQueue.EnqueuedIsServed | src/MainNFSD/nfs_rpc_dispatcher_thread.c:1385-1424 | from arrival to service: a request is put behind those waiting in the queue of its type and served within four draws for each of these and itself, a mount request unless the counter wraps on the way |
| ReqQueue.RoutedIff | src/MainNFSD/nfs_rpc_dispatcher_thread.c:1385-1412 | only requests of unknown type are not queued |
| CbSlots.ScanSlots | src/MainNFSD/nfs_rpc_callback.c:1188-1198 | the least free slot and the highest slot in use counting that one |
| CbSlots.Session.FindCbSlot | src/MainNFSD/nfs_rpc_callback.c:1180-1224 | a slot is found exactly when one is free, after the wait if there was one; it is the least free one, marked used with the next sequence id, and the highest slot in use is right |
| CbSlots.Session.ReleaseCbSlot | src/MainNFSD/nfs_rpc_callback.c:1234-1242 | the slot is free again, its sequence id taken back if nothing was sent |
| CbSlots.StepKeeps | src/MainNFSD/nfs_rpc_callback.c:1299-1341 | every step keeps ownership of slots and the numbering of the calls sent |
| CbSlots.CallsOwnSlotsAndCountUp | src/MainNFSD/nfs_rpc_callback.c:1299-1341 | over every run no two outstanding calls share a slot, and the calls sent on a slot carry 1, 2, 3, ... modulo 2^32 whatever sends failed |
| CbSlots.SlotGivenIffOneIsFree | src/MainNFSD/nfs_rpc_callback.c:1180-1198 | over every run calls use slots below the client's limit and the table size, and a new call gets one if and only if nobody is on one of these |
| Lease.ClientId.ReserveLease | src/SAL/nfs4_lease.c:109-129 | a reservation is added exactly when the lease is valid |
| Lease.ClientId.UpdateLease | src/SAL/nfs4_lease.c:143-158 | a reservation is given back, and the last one renews the lease |
| Lease.EveryRunKeeps | src/SAL/nfs4_lease.c:50-158 | reservations are those outstanding and the renewal time is never in the future |
| Lease.InvalidStaysInvalid | src/SAL/nfs4_lease.c:50-158 | under a clock that does not go back, no sequence of reservations, updates and expiries makes an invalid lease valid |
| Lease.BumpRevivesIff | src/Protocols/NFS/nfs4_op_create_session.c:476 | CREATE_SESSION makes it valid again if and only if the client is not expired |
| Lease.ReservedIsValid | src/SAL/nfs4_lease.c:50-67 | after every run a client with a reservation outstanding and not expired has a valid lease at any time |
| Lease.LastUpdateRenews | src/SAL/nfs4_lease.c:143-158 | giving back the last reservation makes the lease valid exactly before now plus the lifetime, with the seconds left |
| Lease.LeaseLasts | src/SAL/nfs4_lease.c:50-158 | an unused lease can be reserved again for exactly the lifetime after that |
| Lease.OthersRenewNothing | src/SAL/nfs4_lease.c:109-158 | reserving and giving back one of several change the count only |
| Lease.RunsSettle | src/SAL/nfs4_lease.c:50-158 | over any run without CREATE_SESSION a lease valid at the end was valid all along |
| Lease.LaterTestsAgree | src/MainNFSD/nfs_reaper_thread.c:63-127 | a lease found invalid at one test of the reaper is invalid at all later ones, for a client whose states at the tests are cuts of a run without CREATE_SESSION |
| Lease.FirstInvalid | src/MainNFSD/nfs_reaper_thread.c:63-87 | the walk stops at the first client whose lease is invalid when it is looked at, though clients may change from one look to the next |
| Lease.ReapBucket | src/MainNFSD/nfs_reaper_thread.c:55-127 | whatever other threads do: the restarting walk ends; what it removed and what it left make up the bucket; each removed client was found invalid and each left one was found valid |
| Lease.ReapTable | src/MainNFSD/nfs_reaper_thread.c:44-131 | the same for all buckets; at a fixed time with nobody else acting the clients removed are exactly those whose lease is invalid |
| Lease.ReapingIsSafe | src/MainNFSD/nfs_reaper_thread.c:44-131 | for clients that follow runs without CREATE_SESSION: one that was removed has an invalid lease and no reservation at the end, unless already expired, and one that was left had a valid lease at the start |
| ClientIds.NewIdsMatchAndDiffer | src/SAL/nfs4_clientid.c:1319-1325 | new ids pass the epoch test of the lookup, and any 2^32 successive ones differ |
| ClientIds.ClientTables.DecClientIdRef | src/SAL/nfs4_clientid.c:356-394 | the last reference frees an expired record; a live record losing it is an error |
| ClientIds.ClientTables.InsertClientId | src/SAL/nfs4_clientid.c:586-629 | a new record enters the unconfirmed table with the table's reference, or is freed if the id is taken |
| ClientIds.ClientTables.RemoveConfirmedClientId | src/SAL/nfs4_clientid.c:638-669 | the record leaves the confirmed table, is expired and loses the table's reference, or nothing happens |
| ClientIds.ClientTables.RemoveUnconfirmedClientId | src/SAL/nfs4_clientid.c:679-713 | the same for the unconfirmed table |
| ClientIds.ClientTables.ConfirmClientId | src/SAL/nfs4_clientid.c:729-798 | the record moves between the tables with its reference; if the second insertion fails it is expired and loses it |
| ClientIds.ClientTables.GetClientId | src/SAL/nfs4_clientid.c:1121-1184 | the epoch test, the lookup, the reference taken, and given back for a stale record |
| ClientIds.ClientTables.DeleteForExpiry | src/SAL/nfs4_clientid.c:918-931 | which table the record is deleted from, the second attempt included |
| ClientIds.ClientTables.ExpireClientId | src/SAL/nfs4_clientid.c:853-939 | the record is marked stale, or leaves the table of its old state and loses the table's reference, or the server gives up; skipped if already expired |
| ClientIdRuns.StepKeeps | src/SAL/nfs4_clientid.c:586-939 | every step, on records held or not, keeps tables, states and counts in agreement |
| ClientIdRuns.TablesFollowStates | src/SAL/nfs4_clientid.c:586-939 | over every run a record is in the unconfirmed table iff unconfirmed and in the confirmed table iff confirmed or stale, its count is its holders plus one while hashed, no held record is freed, and the server never gives up |
| ClientIdRuns.AllUnhash | src/SAL/nfs4_clientid.c:638-939 | removing, failing to confirm and expiring a record come to the same, whether or not that frees it |
| ClientIdRuns.FreedIff | src/SAL/nfs4_clientid.c:356-394 | over every run a record is freed if and only if the only holder of an expired record gives its reference back, or a record nobody holds is taken out of its table, which makes it expired |
| ClientIdRuns.UnheldRemovalFrees | src/Protocols/NFS/nfs4_op_setclientid.c:272-293 | removing an unconfirmed record nobody holds frees it and keeps the invariant |
| ClientIdRuns.ExpiryIsFatalIff | src/SAL/nfs4_clientid.c:888-938 | expiring a record is fatal if and only if the table its state points to lacks its id; for records in the table of their state, if and only if it is stale and not in the confirmed table |
| ClientIdRuns.StaleUnconfirmedIsFatal | src/SAL/nfs4_clientid.c:910-938 | making a reachable unconfirmed record stale and then expiring it is fatal unless a confirmed record has its id |
| ClientIdRuns.LosingTheLastReference | src/SAL/nfs4_clientid.c:356-394 | giving back the last reference is fatal if and only if the record is not expired, and frees it if and only if it is |
| ClientLookups.LookupExactly | src/SAL/nfs4_clientid.c:1121-1184 | after every run a lookup of this epoch finds exactly the confirmed, or unconfirmed, record with the id and takes a reference, and when it says stale or expired; nothing else changes anything |
| ClientLookups.WantedIsUnique | src/SAL/nfs4_clientid.c:1121-1184 | there is at most one such record |
| ClientLookups.IdsOfOtherEpochs | src/SAL/nfs4_clientid.c:1319-1325 | an id passes the epoch test if and only if the epochs agree in their low halves |
| ClientLookups.InsertedIsFound | src/SAL/nfs4_clientid.c:586-629 | after every run an insert makes a new unconfirmed record that a lookup finds, or changes nothing in memory or tables |
| ClientLookups.ConfirmConfirms | src/SAL/nfs4_clientid.c:729-798 | after every run confirming moves the record to the confirmed table and state, count and references kept, and a confirmed lookup finds it |
| ClientLookups.ConfirmFails | src/SAL/nfs4_clientid.c:764-796 | with a confirmed or stale record of the same id confirming takes the record out of its table instead |
| ClientLookups.UnhashedIsNotFound | src/SAL/nfs4_clientid.c:638-939 | after every run a record taken out of its table is expired, if still in memory, with its holders' references; no other record changes and no lookup finds it |
| ClientLookups.StaleIsNotFound | src/SAL/nfs4_clientid.c:910-913 | a confirmed record made stale is found no more, nothing else changes |
| Cidr.LeadingOnes | src/cidr/cidr_get.c:14-55 | the length of the run of ones from a bit on: all ones in it and a zero after it |
| Cidr.GetPflen | src/cidr/cidr_get.c:14-55 | the prefix length of a contiguous mask, -1 exactly for an unknown protocol or a mask with a one after a zero |
| Cidr.PflenOfMask | src/cidr/cidr_get.c:14-55 | every prefix length of both protocols is read back from the mask the library builds for it |
| Cidr.Contains | src/cidr/cidr_compare.c:12-77 | success if and only if protocols match and are known, the prefix is no shorter and the network bits agree; which error each failure reports |
| Cidr.ContainsIffSubset | src/cidr/cidr_compare.c:12-77 | for contiguous masks it succeeds if and only if every address of the little block is an address of the big one |
| Cidr.ContainsExactly | src/cidr/cidr_compare.c:36-41 | for all inputs: when it succeeds, a mask that is not contiguous on the big side making it always succeed |
| Cidr.ContainsByLength | src/cidr/cidr_compare.c:12-77 | for blocks given by address and length: same protocol, no longer, and the first bits agree, from bit 96 on for IPv4 |
| Cidr.OneBadMask | src/cidr/cidr_compare.c:36-41 | a concrete mask that is not contiguous, whose block contains every IPv4 block |
| Cidr.CopyNetworkBits | src/cidr/cidr_addr.c:23-33 | bits are copied exactly up to the mask's first zero, the rest stay zero |
| Cidr.Network | src/cidr/cidr_addr.c:11-40 | protocol and mask are kept and the bits after the mask's first zero cleared |
| Cidr.Broadcast | src/cidr/cidr_addr.c:43-78 | the same with these bits set |
| Cidr.NetworkIsLeast | src/cidr/cidr_addr.c:11-40 | the network address is the least address of the block, as a number, for every prefix length of both protocols, if and only if the prefix bits the copying misses are zero; none are missed with the masks the library builds |
| Cidr.BroadcastIsGreatest | src/cidr/cidr_addr.c:43-78 | the broadcast address is the greatest, under the same condition with ones |

## Left out

- Sockets, RPC, RDMA, 9P, DBus, GSS and Kerberos, startup, configuration, logging and display: plumbing around the parts modelled.
- `fsal_acl_to_mode` (src/FSAL/commonlib.c:2092-2150): later entries overwrite earlier ones, so it is no inverse of the compilation.
- `fsal_inherit_acls` and `fsal_rename_access`: more of the same tests.
- The multi-sublist operations of `nodelist.c` and the formatting of names in `nl_map`: the model stays with one range list.
- Layout and delegation recall in `src/FSAL_UP` and the state bookkeeping of `src/SAL/nfs4_state.c`.
- Hash tables, red-black trees and tail queues: they are maps and sequences here.
- DupReq.Drc.DupreqFinish: the whole call is one step; the window between dropping the cache mutex and taking the partition lock (src/RPCAL/nfs_dupreq.c:1116-1135), the reference counts of the caches themselves and their recycling are not modelled.
- ReqQueue.Dispatcher.DequeueReq: one look round the queues; the wait list and its wake-ups (src/MainNFSD/nfs_rpc_dispatcher_thread.c:1594-1640) are not modelled.
- CbSlots.Session.FindCbSlot: the wait is one step whose outcome is a parameter; its 100 ms limit is not modelled.
- RangeLists.SortRanges: an insertion sort stands for the C library's qsort; `SortIsUnique` shows that the choice does not matter.
- Ranges.ApartIffNeither: integers are unbounded, so the overflow of `to + 1` at the top of the long type is not modelled; `ReadStaysBelowLongMax` shows that the reader never produces such an id.
- ModeToAcl.RewriteForMode: a store outside the array ends the model's run with the outcome PastTheEnd; what memory it would hit is not modelled.
- Seqid.Nfs4Owner.CheckSeqid: responses are opaque values; their deep copies and the release of the previous one are not modelled.
- Lease.ReapBucket: clients change while the bucket is reaped, but no client is added to it; a client is expired and unhashed in one step.
- ClientIds.ClientTables.ExpireClientId: the release of the client's owners, sessions and recovery directory, and the links back from client records, are not modelled.
