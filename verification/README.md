# Proofs about HidHide

HidHide hides input devices from applications. A kernel filter driver answers every open request for
a HID device from a process table, a whitelist, a blacklist and two flags; clients configure it over
IOCTLs; a command-line tool and a watchdog service sit on top. This project models that logic in Dafny
and proves what it promises, from the driver's pointer structures up to whole command-line runs.
`dafny verify dfyconfig.toml` checks all of it.

## How the pieces fit

- **Driver data structures.** `ProcessTree` is the binary search tree of `Config.c` with real heap
  nodes: a ghost `Shape` mirrors the pointers, every method's effect on the pointers is a function of
  the shape, and lemmas say what that function means for the in-order sequence. `SessionBlacklist` is
  the intrusive ring of `Logic.c` with the WDK list macros, its in-place removal and its parse loop.
  `VerdictCache` is the finite map both are measured against.
- **Driver as a state machine.** `AccessControl` gives every callback and request as one step over
  values, and a second, independent reading of the same history with no cache, table or list in it;
  its main theorem is that every verdict of every run agrees with that reading. `Driver` shows that
  the code over the real structures takes exactly those steps. `LockProtocol` takes the same setters
  apart at lock granularity for any number of threads; `OpenReads` and `OpenSections` do so with the
  open itself, against whole events and against single lock sections, over the answers of `OpenAnswers`.
- **Across the IOCTL boundary.** `MultiString` has the codecs of the client, the driver and the
  registry, and what exactly survives the trip; `ConfigStore` lifts this to the sets a client holds.
- **Command line.** `CliParsing` is the in-place parser and `CliRoundTrip` its round trip with a
  printer; `Commands` says what a run amounts to, command by command, and `CommandReadings` gives a
  second account of it by the words typed; `FilterDriverProxy` and `CommandInterpreter` are the
  classes that do it, ending in one contract for the whole program; `ExportImport` replays printed lists.
- **Others.** `TraceSession` and `TraceService` are the watchdog's recording state machine under
  arbitrary failures; `DeviceGroups` is the clustering of HID devices, over the
  multimaps of `Multimap`. `Names` and `Seqs` are shared.

Characters stand for UTF-16 code units. `fold`, `toInteger`, `space`, `same` and the fields of
`Platform` and `System` stand for the operating system's answers (case folding, string conversion,
`iswspace`, `StrCmpLogicalW`, volumes, files, ETW and event-log calls); they are arbitrary unless a
contract says otherwise.

## Where the code does not do what is expected of it

Each of these is proved with the exact condition under which the expectation holds.

- A configured set whose strings fit a UNICODE_STRING, fewer than 32768 characters each, survives the
  driver if and only if all of them are non-empty and free of embedded terminators
  (`ConfigStore.SetRoundTrip`). One empty string makes the driver lose the whole
  set, because it sorts first and the registry reader stops at it (`ConfigStore.EmptyStringWipes`), and
  `--dev-hide ""` is a command line that gets that far (`ExportImport.HidingNothingWipes`).
- An empty quoted argument is a syntax error if and only if anything follows it
  (`CliRoundTrip.PrintedIsParsed`), although the header describes an empty result as the error signal
  in every case.
- A session-blacklist path comes back whole if and only if it is clean and shorter than 32768
  characters, because its length in bytes is stored in 16 bits (`SessionBlacklist.ParsedClientEncoding`).
  At 32767 characters the maximum length of its descriptor has already wrapped to zero, so that path
  and descriptor are both right if and only if it is shorter than that (`SessionBlacklist.ParsedSoundly`).
- Line 683 of `HidHide/src/Logic.c` hands the head of the local list to `AppendTailList`, which leaves
  that head, a local variable, in the global ring. The ring holds the built entries and nothing else if
  and only if the request lists no path (`SessionBlacklist.SessionList.AddAsWritten`), and the driver's state
  is then and only then the intended one (`Driver.ControlDevice.AddSessionBlacklistAsWritten`); any request
  for one ordinary path is accepted and does otherwise (`AccessControl.OnePathEntangles`). Up to the first
  of these the written code keeps to the documented rule (`AccessControl.VerdictAsWritten`); from there on
  the ring holds a variable that no longer exists, and the model says nothing. The rest of the model follows the comment at line 679: the
  entries are appended and the head is not.
- Between a whitelist swap and the next flush, whatever earlier swaps still owe theirs, the cache is right
  if and only if the new list confirms every verdict that was cached at the swap and whose process has not
  exited since (`LockProtocol.CoherentUntilFlush`); otherwise a dropped verdict is still served
  (`LockProtocol.StaleBetweenReloadAndFlush`). For a swap that meets a right cache this is agreement of the
  old and the new list on those verdicts (`LockProtocol.CoherentSwapUntilFlush`); for overlapping swaps
  agreement is not enough (`LockProtocol.StaleAcrossOverlappingSwaps`).
- A start keeps the channels right if and only if tuning does not stop half-way and a trace that fails
  to start has them all restored (`TraceService.StartConserves`); otherwise they stay at maximum visibility
  whatever stops and discards follow (`TraceService.FailedStartLeaks`), as after a first start whose second
  channel fails (`TraceService.FirstStartCanLeak`).
- The service is idle with a session on its hands, and can never record again, if and only if the
  rollback of an earlier start could not stop it (`TraceService.BlockedForever`); a first start reaches
  that (`TraceService.FirstStartCanBlock`).

- An open takes the lock four times. Whatever runs in between, its verdict is that of some moment of the
  call if and only if it grants or some moment of the call denies: a granted open is never torn, only a
  denied one can be (`OpenReads.GrantIsAtomic`, `OpenReads.AtomicExactly`). Two changes of settings do it
  (`OpenReads.TornDenial`), or the caller's own exit (`OpenReads.OwnExitTears`); any other single event does
  not (`OpenReads.OneChangeIsAtomic`). The same holds of single lock sections, where a swap is apart from its
  flush and the two sections of an exit from each other, and there without exception for any single section
  (`OpenSections.AtomicExactly`, `OpenSections.OneSectionIsAtomic`).

## Model

| member | source | states |
|---|---|---|
| `ProcessTree.ProcessTable.BstDelete` | HidHide/src/Config.c:117-166 | The tree left behind represents `Deleted(s, pid)`, a search tree of the same node objects; exactly the hit node is freed; the status tells whether the pid was there; no other field of any node changes |
| `ProcessTree.ProcessTable.BstDetachRoot` | HidHide/src/Config.c:138-165 | The pointer surgery at the node itself, for none, one and two children: the left subtree hangs under the lowest node of the right one |
| `ProcessTree.DeletedInOrder` | HidHide/src/Config.c:117-166 | In-order, the tree after a delete is the tree before it without exactly that pid, in every case |
| `ProcessTree.DeletedNodes` | HidHide/src/Config.c:117-166 | It is again a search tree, over the old nodes minus the deleted one |
| `ProcessTree.HitOnce` | HidHide/src/Config.c:117-166 | The walk of a delete meets the node with that pid exactly once, and frees nothing if and only if there is none |
| `ProcessTree.GraftTree` | HidHide/src/Config.c:158-165 | Redirecting one left pointer, that of the lowest node, attaches the whole left subtree in the heap |
| `ProcessTree.GraftInOrder` | HidHide/src/Config.c:158-165 | In-order, the grafted tree is the left subtree followed by the right one; no node is lost |
| `ProcessTree.GraftSearchTree` | HidHide/src/Config.c:158-165 | The grafted tree is ordered |
| `ProcessTree.InOrderStrict` | HidHide/src/Config.c:86-114 | Every search tree is strictly ordered by pid, in order |
| `ProcessTree.ProcessTable.BstInsert` | HidHide/src/Config.c:86-114 | A leaf node goes where the order puts it; a pid already there is reported and nothing changes |
| `ProcessTree.InsertedNodes` | HidHide/src/Config.c:86-114 | The result is a search tree with exactly that one node more, or the same nodes when the pid is there |
| `ProcessTree.ProcessTable.BstLookup` | HidHide/src/Config.c:206-213 | Finds the node with the pid if and only if there is one |
| `ProcessTree.ProcessTable.BstNewNode` | HidHide/src/Config.c:169-203 | A fresh detached node with the name cut at its first terminator, or the failure for no memory or an overlong name |
| `ProcessTree.ProcessTable.BstFlushEvaluationCache` | HidHide/src/Config.c:244-254 | Every node of the tree loses its cached verdict and the tree is the same |
| `ProcessTree.ProcessTable.BstCleanup` | HidHide/src/Config.c:230-241 | The tree is freed in post-order and the root is null |
| `ProcessTree.PostOrderOnce` | HidHide/src/Config.c:230-241 | That order meets every node exactly once |
| `ProcessTree.ProcessTable.Register` | HidHide/src/Config.c:257-294 | Refines adding to a finite map: the first name of a pid stays, no duplicate is reported after the lookup missed, a failed allocation changes nothing |
| `ProcessTree.ProcessTable.Unregister` | HidHide/src/Config.c:297-309 | Refines removal from the map; the tree is the one BstDelete leaves |
| `ProcessTree.ProcessTable.Check` | HidHide/src/Config.c:312-369 | Status and cached verdicts are those of the map, and the cache-hit flag tells whether a verdict was there |
| `ProcessTree.ProcessTable.Flush` | HidHide/src/Config.c:382-391 | Refines clearing every cached verdict |
| `ProcessTree.ProcessTable.Cleanup` | HidHide/src/Config.c:372-379 | Nothing allocated remains |
| `VerdictCache.CheckedIsCoherent` | HidHide/src/Config.c:334-365 | A check keeps every cached verdict equal to a fresh scan |
| `VerdictCache.CheckedRemembers` | HidHide/src/Config.c:334-365 | A check leaves a verdict behind, revises none, and touches nothing else |
| `VerdictCache.CheckIsScan` | HidHide/src/Config.c:334-365 | On such a cache the memoised answer is the plain scan's |
| `VerdictCache.RegisterIsRead` | HidHide/src/Config.c:257-294 | The status of a registration tells what became of it |
| `Names.SameNameCompares` | HidHide/src/Config.c:352-360 | Comparing names is an equivalence, without folding equality, and tells lengths apart |
| `Names.ProcessIdIsLow` | HidHide/src/Config.c:267-267 | Handles are told apart by their low 32 bits |
| `SessionBlacklist.InsertTailList` | HidHide/src/Logic.c:659-659 | A link appended at the tail of a ring leaves a ring with that one link more |
| `SessionBlacklist.RemoveEntryList` | HidHide/src/Logic.c:732-732 | Unlinking in the middle leaves a ring of the others in order |
| `SessionBlacklist.AppendTailList` | HidHide/src/Logic.c:683-683 | Given the first link of a chain, as the WDK documents it, two rings become one |
| `SessionBlacklist.Rotate` | HidHide/src/Logic.c:679-683 | A ring read from its first link is a ring with the head at its end |
| `SessionBlacklist.SessionList.Sweep` | HidHide/src/Logic.c:724-738 | Removal while traversing frees exactly the links of that process, once each, in order, and leaves a ring of all others in order |
| `SessionBlacklist.SessionList.CleanupForPid` | HidHide/src/Logic.c:709-741 | The list afterwards is the others' entries, untouched |
| `SessionBlacklist.OthersExact` | HidHide/src/Logic.c:724-738 | No entry of that process is left and no other entry is missing |
| `SessionBlacklist.SessionList.Lists` | HidHide/src/Logic.c:821-834 | Answers whether some entry has that path, ignoring case |
| `SessionBlacklist.SessionList.BuildLocalList` | HidHide/src/Logic.c:624-662 | The parse loop stays inside the buffer, ends, and builds exactly the parsed entries in order, or stops at the first failing allocation; the missing-terminator exit is unreachable |
| `SessionBlacklist.SessionList.FreeAll` | HidHide/src/Logic.c:664-676 | After a failure every link built is unlinked and freed exactly once |
| `SessionBlacklist.SessionList.SpliceAsWritten` | HidHide/src/Logic.c:683-683 | The splice as coded: the local head ends up in the global ring |
| `SessionBlacklist.SessionList.Splice` | HidHide/src/Logic.c:679-684 | The splice as the comment describes it: exactly the built links are appended |
| `SessionBlacklist.SessionList.Add` | HidHide/src/Logic.c:591-689 | All or nothing: the parsed entries are appended with their owner, or the global list is the same and everything built is freed |
| `SessionBlacklist.SessionList.AddAsWritten` | HidHide/src/Logic.c:591-689 | The request as written: for an accepted one the ring is the old links and the built ones if and only if no path was listed; otherwise the head of the local list stands between them |
| `SessionBlacklist.AddIsRead` | HidHide/src/Logic.c:603-677 | A request is malformed exactly if it is not a whole number of at least two characters ending in two terminators; otherwise the first path that cannot be stored decides |
| `SessionBlacklist.RingUnique` | HidHide/src/Logic.c:683-683 | A head is on one ring only, so the ring with the local head is not the intended one |
| `SessionBlacklist.ParsedClientEncoding` | HidHide/src/Logic.c:606-662 | Any client encoding of a non-empty list passes the checks, and the paths, each as long as its `Length` says, are that list if and only if its strings are clean and shorter than 32768 |
| `SessionBlacklist.ParsedSoundly` | HidHide/src/Logic.c:640-642 | The paths are that list and every `MaximumLength` is at least its `Length` if and only if the strings are clean and shorter than 32767 |
| `AccessControl.SplitDeviceData` | HidHide/src/Logic.c:755-791 | Path part and session id of an entry, as PlainSplits and ComposedSplits read them off it |
| `AccessControl.SplitComposed` | HidHide/src/Logic.c:755-791 | An entry composed of a path and a session id splits into them again |
| `AccessControl.PlainSplits` | HidHide/src/Logic.c:773-773 | An entry without delimiter, or that starts with one, is its own path and names no session |
| `AccessControl.ComposedSplits` | HidHide/src/Logic.c:755-791 | Every other entry is its path, a delimiter and its number |
| `AccessControl.EntryRead` | HidHide/src/Logic.c:755-791 | What the code finds in an entry is what the entry says, read without the code: whether it matches a path, and whether it leaves the device visible to a session |
| `AccessControl.ConsultDecides` | HidHide/src/Logic.c:808-819 | The scan answers by the first entry whose path matches, and hides unless both sessions are non-zero and equal |
| `AccessControl.SettingsAt` | HidHide/src/Logic.c:863-1019 | In every run lists and flags are those last set |
| `AccessControl.AlwaysCoherent` | HidHide/src/Logic.c:863-887 | In every run every cached verdict is the current whitelist's |
| `AccessControl.NamesAt` | HidHide/src/Logic.c:95-121 | In every run a process goes by the first image loaded since its pid last exited |
| `AccessControl.SessionAt` | HidHide/src/Logic.c:709-741 | In every run an entry is on the session list if and only if it was put there and its owner has neither exited nor cleared since |
| `AccessControl.HiddenIsBlacklisted` | HidHide/src/Logic.c:794-840 | Hidden, by the history, is what the code computes |
| `AccessControl.VerdictFollowsRule` | HidHide/src/Logic.c:194-217 | For every run, every open request is denied exactly when the pid is not 4, hiding is active, the device is hidden, and the name is listed if and only if the whitelist is inverse, all read off the history without any cache |
| `AccessControl.PlainEntryDenies` | HidHide/src/Logic.c:794-821 | In every run, with one plain entry on the blacklist, an open of that path is denied exactly by pid, flag, listing and sense |
| `AccessControl.ComposedEntryDenies` | HidHide/src/Logic.c:794-821 | With a session number behind the path, the same unless the caller's session is non-zero and that number |
| `AccessControl.AsWrittenUntilEntangled` | HidHide/src/Logic.c:683-683 | The run of the written code, defined up to the first accepted request with a path, is the intended run up to there |
| `AccessControl.VerdictAsWritten` | HidHide/src/Logic.c:155-217 | Up to the first accepted request with a path the verdicts of the written code follow the documented rule |
| `AccessControl.OnePathEntangles` | HidHide/src/Logic.c:591-689 | A client's request for one ordinary path is such a request |
| `OpenReads.AcrossFollowsRule` | HidHide/src/Logic.c:194-217 | For every interleaving, an open whose four reads happen at different times is answered by the rule with each part read at its own time |
| `OpenReads.GrantIsAtomic` | HidHide/src/Logic.c:194-217 | For every interleaving, exits included, an open that is granted would have been granted at some moment of its call |
| `OpenReads.AtomicExactly` | HidHide/src/Logic.c:194-217 | For every interleaving, the verdict is that of some moment of the call if and only if it grants or some moment denies |
| `OpenReads.UndisturbedIsAtomic` | HidHide/src/Logic.c:194-217 | With only other opens in between, the verdict is the atomic one |
| `OpenReads.OneChangeIsAtomic` | HidHide/src/Logic.c:194-217 | With one event in between, other than the exit of the caller itself, the verdict is the atomic one before or after it |
| `OpenReads.TornDenial` | HidHide/src/Logic.c:194-217 | With two, an open can be denied that at no moment would have been |
| `OpenReads.OwnExitTears` | HidHide/src/Logic.c:194-217 | With the caller's own exit in between, an open can be denied likewise |
| `OpenSections.GrantIsAtomic` | HidHide/src/Logic.c:194-217 | Against single lock sections, whatever the state of the cache, a granted open would have been granted at some moment of its call |
| `OpenSections.AtomicExactly` | HidHide/src/Logic.c:194-217 | Against single lock sections, the verdict is that of some moment of the call if and only if it grants or some moment denies |
| `OpenSections.OneSectionIsAtomic` | HidHide/src/Logic.c:194-217 | With any one section in between that changes an answer, the verdict is the one before or after it |
| `OpenSections.ListedUntilFlush` | HidHide/src/Logic.c:744-752 | Between a swap and the next flush the listing read is told the verdict carried from before the swap, or else what the new list says |
| `OpenSections.ListedOnceFlushed` | HidHide/src/Logic.c:744-752 | Behind a flush it is told what the list says |
| `OpenSections.SectionsMakeTheStep` | HidHide/src/Logic.c:95-107 | The lock sections of an event, run without a break, are its step of the state machine |
| `Driver.ControlDevice.OnSystemLoadImage` | HidHide/src/Logic.c:110-121 | Over the real structures, exactly the step of the state machine |
| `Driver.ControlDevice.OnSystemProcessChange` | HidHide/src/Logic.c:95-107 | Exactly that step: the table entry and the session entries go |
| `Driver.ControlDevice.SetWhitelist` | HidHide/src/Logic.c:863-887 | Exactly that step: registry, memory, then a flushed cache |
| `Driver.ControlDevice.SetBlacklist` | HidHide/src/Logic.c:910-931 | Exactly that step |
| `Driver.ControlDevice.AddSessionBlacklist` | HidHide/src/Logic.c:591-689 | Exactly that step, with the documented status |
| `Driver.ControlDevice.AddSessionBlacklistAsWritten` | HidHide/src/Logic.c:591-689 | With line 683 as written, that step exactly if the request is refused or lists no path |
| `Driver.ControlDevice.IsBlacklisted` | HidHide/src/Logic.c:794-840 | The two loops decide as the state machine does |
| `Driver.ControlDevice.OnDeviceFileCreate` | HidHide/src/Logic.c:155-217 | The verdict and the cache afterwards are those of the state machine |
| `Driver.ControlDevice.GetWhitelist` | HidHide/src/Logic.c:843-860 | The size, the status for every buffer, and the buffer filled with the encoding of the list or left as it was |
| `LockProtocol.MemoryLagsOnlyInFlight` | HidHide/src/Logic.c:863-931 | In every interleaving, whenever no thread is between its registry write and its reload, the list in memory is the decoded registry value, for either list |
| `LockProtocol.RegistryIsLastWritten` | HidHide/src/Logic.c:870-920 | In every interleaving the registry holds the buffer written last, for either list |
| `LockProtocol.MemoryIsLastWritten` | HidHide/src/Logic.c:870-927 | So whenever no write of a list awaits its reload, the list in memory is the last one written |
| `LockProtocol.CoherentOnceFlushed` | HidHide/src/Logic.c:875-884 | After any flush behind the latest swap every cached verdict is the current list's, and stays so under everything but another swap |
| `LockProtocol.SwapOwesFlush` | HidHide/src/Logic.c:875-884 | A thread that swapped has not moved on until it has run its own flush |
| `LockProtocol.OwnFlushSuffices` | HidHide/src/Logic.c:875-884 | Once the thread of the latest swap has moved on the cache is right |
| `LockProtocol.QuietVerdicts` | HidHide/src/Logic.c:863-887 | With no setter under way a check answers what scanning the registry's list would |
| `LockProtocol.SwapKeepsCoherence` | HidHide/src/Logic.c:875-884 | A list can be swapped without a flush if and only if both lists give every cached name the same answer |
| `LockProtocol.CoherentUntilFlush` | HidHide/src/Logic.c:875-884 | In every interleaving, overlapping swaps included, until the next flush behind a swap the cache is right if and only if the new list confirms every verdict cached at the swap whose process has not exited since |
| `LockProtocol.CoherentSwapUntilFlush` | HidHide/src/Logic.c:875-884 | If the swap meets a right cache, this is agreement of the old and the new list on those verdicts |
| `LockProtocol.StaleBetweenReloadAndFlush` | HidHide/src/Logic.c:875-884 | Otherwise a run exists that serves a dropped verdict |
| `LockProtocol.StaleAcrossOverlappingSwaps` | HidHide/src/Logic.c:875-884 | Of two overlapping swaps the second agrees with the first and still a verdict of the initial list is served |
| `MultiString.CopyUnicodeString` | HidHide/src/Config.c:775-775 | The strsafe copy: exact characters, terminator and remaining count, or a failure; nothing outside is written |
| `MultiString.FillBuffer` | HidHide/src/Config.c:768-784 | The copy loop writes exactly the encoding and leaves the rest of the buffer alone |
| `MultiString.CollectionToMultiString` | HidHide/src/Config.c:740-787 | The size is exact; a large enough buffer within the strsafe limit receives exactly the encoding and nothing behind it; a smaller one is rejected untouched |
| `MultiString.StringListToMultiString` | HidHideCLI/src/Utils.cpp:179-192 | The loop builds the client's encoding |
| `MultiString.MultiStringToStringList` | HidHideCLI/src/Utils.cpp:161-176 | The loop yields all non-empty strings |
| `MultiString.SameEncoding` | HidHideCLI/src/Utils.cpp:179-192 | Client and driver write the same characters for strings without embedded terminators |
| `MultiString.DriverRoundTrip` | HidHide/src/Config.c:740-787 | Both readers give back any list the driver can hold from the driver's encoding |
| `MultiString.RegistryDecodeClean` | HidHide/src/Config.c:628-689 | Whatever the registry value, the driver holds only non-empty terminator-free strings |
| `MultiString.ReadCons` | HidHide/src/Config.c:628-689 | A terminated string in front is read first by either reader, an empty one being skipped by the client and the end for the driver |
| `MultiString.ReadNothing` | HidHide/src/Config.c:669-673 | Text without terminator holds no string, and a registry value of at most four bytes none |
| `MultiString.RegistryKeeps` | HidHide/src/Config.c:628-689 | For every list a client sends, exactly which strings arrive |
| `MultiString.RegistryRoundTrip` | HidHide/src/Config.c:628-689 | The same list arrives if and only if all its strings are clean |
| `MultiString.ClientKeeps` | HidHideCLI/src/Utils.cpp:161-192 | What the client itself reads back from its own encoding |
| `ConfigStore.StringSetToStringList` | HidHideCLI/src/Utils.cpp:137-146 | The set's elements in its own order |
| `ConfigStore.StringListToStringSet` | HidHideCLI/src/Utils.cpp:113-122 | The set of the list's elements |
| `ConfigStore.InOrderElements` | HidHideCLI/src/Utils.cpp:137-146 | Listing a set loses and adds nothing |
| `ConfigStore.InOrderAscends` | HidHideCLI/src/Utils.cpp:137-146 | The listing ascends strictly |
| `ConfigStore.BelowIsLexicographic` | HidHideCLI/src/Utils.cpp:137-146 | Ascending means lexicographically |
| `ConfigStore.SetRoundTrip` | HidHideCLI/src/FilterDriverProxy.cpp:53-90 | Set, registry, size query, fill and decode give the same set if and only if all its strings are clean |
| `ConfigStore.StoredTwice` | HidHideCLI/src/FilterDriverProxy.cpp:53-90 | What was read from the driver survives being set again |
| `ConfigStore.EmptyStringWipes` | HidHideCLI/src/FilterDriverProxy.cpp:64-70 | An empty string in the set empties the driver's list |
| `CliParsing.Trim` | HidHideCLI/src/CliParsing.cpp:12-17 | Removes white space at both ends and nothing else |
| `CliParsing.ExtractKeyword` | HidHideCLI/src/CliParsing.cpp:19-31 | Up to the first white space, dropping that one character |
| `CliParsing.ExtractString` | HidHideCLI/src/CliParsing.cpp:33-47 | A keyword or a quoted string that white space or the end follows; otherwise nothing is consumed |
| `CliParsing.ExtractCommand` | HidHideCLI/src/CliParsing.cpp:49-66 | One command and what is left; on a syntax error nothing, with text left over |
| `CliParsing.ExtractCommands` | HidHideCLI/src/CliParsing.cpp:68-80 | All commands; on a syntax error nothing, with text left over; always ends |
| `CliRoundTrip.Totality` | HidHideCLI/src/CliParsing.cpp:68-80 | On every input, nothing is left over if and only if there was no syntax error |
| `CliRoundTrip.AlwaysKeywords` | HidHideCLI/src/CliParsing.cpp:49-56 | On every input, each command returned has a keyword, so that the interpreter's lookup of it cannot fail |
| `CliRoundTrip.ReadShown` | HidHideCLI/src/CliParsing.cpp:33-47 | An argument in quotes, or a bare word, is read as its text, and the one character behind it dropped |
| `CliRoundTrip.ReadArgs` | HidHideCLI/src/CliParsing.cpp:58-63 | The argument loop reads printed arguments back, whatever separates them |
| `CliRoundTrip.ReadCommand` | HidHideCLI/src/CliParsing.cpp:49-66 | The same for one printed command |
| `CliRoundTrip.ReadCommands` | HidHideCLI/src/CliParsing.cpp:68-80 | Any text that trims to a printed command line parses to exactly its commands if and only if no empty argument is followed by anything, and is a syntax error otherwise |
| `CliRoundTrip.PrintedIsParsed` | HidHideCLI/src/CliParsing.cpp:68-80 | Printing then parsing returns exactly the commands and consumes everything, for any mixture of quoted and bare arguments and any separating and surrounding white space, unless an empty argument is followed by anything, which is a syntax error |
| `CliRoundTrip.BrokenQuoteIsSyntaxError` | HidHideCLI/src/CliParsing.cpp:33-41 | A quote that nothing closes, or that something visible follows, among the arguments of any command is a syntax error |
| `CliRoundTrip.DashesAreOptional` | HidHideCLI/src/CliParsing.cpp:53-53 | The first command of a line may do without its dashes |
| `Commands.CommandsTransaction` | HidHideCLI/src/CommandInterpreter.cpp:50-63 | A list of commands runs through without error or cancellation exactly if all are accepted and none cancels, and then has the effect of all in order |
| `Commands.LineTransaction` | HidHideCLI/src/CommandInterpreter.cpp:29-30 | The same for a line of text, a syntax error counting as an error |
| `Commands.Transaction` | HidHideCLI/src/CommandInterpreter.cpp:18-47 | A run that is not interactive commits exactly if every line parses, every command is accepted and none cancels; it commits the effect of all commands of all lines in order |
| `Commands.InteractiveSession` | HidHideCLI/src/CommandInterpreter.cpp:18-47 | An interactive session commits unless a cancel was executed, and loses only what follows a refused command on its line |
| `Commands.ArgumentsIgnoreInput` | HidHideCLI/src/CommandInterpreter.cpp:18-47 | A run from arguments alone does not look at standard input |
| `Commands.GetLineIsRead` | HidHideCLI/src/CommandInterpreter.cpp:43-43 | A line ends at its newline, the last one possibly without |
| `CommandReadings.WordsAreRegistered` | HidHideCLI/src/Commands.cpp:95-116 | Each of these words has its handler, and no other word has it |
| `CommandReadings.ListWordsAreRegistered` | HidHideCLI/src/Commands.cpp:95-116 | The same for the words about the lists |
| `CommandReadings.ReportWordsAreRegistered` | HidHideCLI/src/Commands.cpp:95-116 | The same for the words that report |
| `CommandReadings.AcceptedForms` | HidHideCLI/src/Commands.cpp:124-150 | Exactly which commands are accepted, by their words and operands |
| `CommandReadings.ErrorsAreRead` | HidHideCLI/src/Commands.cpp:124-150 | Exactly which error each refused command meets |
| `CommandReadings.EffectsAreRead` | HidHideCLI/src/Commands.cpp:186-313 | What any number of commands leave, read off their words: the last cloak-on or cloak-off and the parity of the toggles behind it, the last inv-on or inv-off, and the entries put and not taken since |
| `CommandReadings.FinalIsRead` | HidHideCLI/src/CommandInterpreter.cpp:18-47 | A whole run leaves that of its counting commands, or everything as it was |
| `CommandReadings.CommitsIsRead` | HidHideCLI/src/CommandInterpreter.cpp:29-30 | A line commits if it parses, all of it is accepted, and nothing on it says cancel |
| `CommandReadings.CancelsIsRead` | HidHideCLI/src/Commands.cpp:186-190 | An interactive session is taken back exactly if an executed command says cancel |
| `CommandReadings.StateIsReplayed` | HidHideCLI/src/Commands.cpp:288-313 | The state commands print the command that brings their state about |
| `CommandReadings.ReportsAreRead` | HidHideCLI/src/Commands.cpp:219-313 | Which command prints what, and that the others print nothing |
| `CommandReadings.ListingIsRead` | HidHideCLI/src/Commands.cpp:219-250 | One line per entry, with the word that puts it there again and the entry in quotes |
| `FilterDriverProxy.FetchBlacklist` | HidHideCLI/src/FilterDriverProxy.cpp:53-62 | Size query, fill and decode yield the set of the driver's entries, which would survive being set |
| `FilterDriverProxy.FetchWhitelist` | HidHideCLI/src/FilterDriverProxy.cpp:73-81 | The same for the whitelist |
| `FilterDriverProxy.StoreBlacklist` | HidHideCLI/src/FilterDriverProxy.cpp:64-70 | The driver then holds what survives of the set |
| `FilterDriverProxy.StoreWhitelist` | HidHideCLI/src/FilterDriverProxy.cpp:84-90 | The same for the whitelist |
| `FilterDriverProxy.SurvivesClean` | HidHideCLI/src/FilterDriverProxy.cpp:53-90 | A configuration survives unchanged if and only if both its sets are clean |
| `FilterDriverProxy.Proxy.constructor` | HidHideCLI/src/FilterDriverProxy.cpp:117-134 | The cache is the driver's configuration with the application itself added or, under an inverse whitelist, removed, and the driver holds it at once |
| `FilterDriverProxy.ApplicationPasses` | HidHideCLI/src/FilterDriverProxy.cpp:127-133 | Whatever the sense of the whitelist, the application itself passes it, and nothing else changes |
| `FilterDriverProxy.Proxy.ApplyConfigurationChanges` | HidHideCLI/src/FilterDriverProxy.cpp:144-152 | The driver then holds what survives of the cache; with write-through nothing happens and the call fails |
| `FilterDriverProxy.Proxy.SetActive` | HidHideCLI/src/FilterDriverProxy.cpp:161-169 | Only that flag changes; without write-through the driver is untouched, with it cache and driver agree |
| `FilterDriverProxy.Proxy.SetInverse` | HidHideCLI/src/FilterDriverProxy.cpp:254-262 | The same for the inverse flag |
| `FilterDriverProxy.Proxy.SetBlacklist` | HidHideCLI/src/FilterDriverProxy.cpp:178-186 | The same for the whole blacklist |
| `FilterDriverProxy.Proxy.SetWhitelist` | HidHideCLI/src/FilterDriverProxy.cpp:216-224 | The same for the whole whitelist |
| `FilterDriverProxy.Proxy.BlacklistAddEntry` | HidHideCLI/src/FilterDriverProxy.cpp:189-196 | One entry more, under the same terms |
| `FilterDriverProxy.Proxy.BlacklistDelEntry` | HidHideCLI/src/FilterDriverProxy.cpp:199-207 | One entry less, under the same terms |
| `FilterDriverProxy.Proxy.WhitelistAddEntry` | HidHideCLI/src/FilterDriverProxy.cpp:227-234 | One entry more, under the same terms |
| `FilterDriverProxy.Proxy.WhitelistDelEntry` | HidHideCLI/src/FilterDriverProxy.cpp:237-245 | One entry less, under the same terms |
| `CommandInterpreter.Interpreter.AppClean` | HidHideCLI/src/Commands.cpp:192-202 | Exactly the absent applications leave the whitelist |
| `CommandInterpreter.Interpreter.AppList` | HidHideCLI/src/Commands.cpp:219-226 | Prints one line per whitelisted application, in order |
| `CommandInterpreter.Interpreter.DevList` | HidHideCLI/src/Commands.cpp:243-250 | Prints one line per hidden device, in order |
| `CommandInterpreter.Interpreter.ExecuteCommand` | HidHideCLI/src/Commands.cpp:186-313 | An accepted command changes configuration, cancellation and console as specified, and the driver only with write-through |
| `CommandInterpreter.Interpreter.ExecuteCommands` | HidHideCLI/src/CommandInterpreter.cpp:50-63 | Stops at the first refused command, with the effect of those before it |
| `CommandInterpreter.Interpreter.Start` | HidHideCLI/src/CommandInterpreter.cpp:18-47 | The loop over all lines; without write-through the driver gets what survives of the cache if the loop ended without error or cancellation, and is untouched otherwise |
| `CommandInterpreter.MainApplication` | HidHideCLI/src/HidHideCLI.cpp:12-31 | For every run, interactive ones included, the driver ends with what the constructor left or with what the words of the counting commands leave, and which is decided by the lines alone |
| `ExportImport.ListedLineReads` | HidHideCLI/src/Commands.cpp:243-250 | A printed line parses as that one command with that one argument |
| `ExportImport.ReplayLines` | HidHideCLI/src/Commands.cpp:229-250 | All printed lines are accepted and add exactly the printed entries |
| `ExportImport.ListedIsReplayed` | HidHideCLI/src/Commands.cpp:229-250 | A script of the printed lines, against any configuration, commits the union, and the driver reads it back if and only if all its entries are clean |
| `ExportImport.ExportThenImport` | HidHideCLI/src/Commands.cpp:229-250 | What one interpreter lists, run as a script against any device, ends with that device hiding the union |
| `ExportImport.HidingNothingWipes` | HidHideCLI/src/Commands.cpp:131-137 | Hiding the empty path commits, and the driver then hides nothing |
| `TraceSession.EtwTraceSession.Start` | Watchdog/EtwTraceSession.cpp:292-373 | Session and outcome under every pattern of failures; on success exactly the providers asked for are enabled, told one by one |
| `TraceSession.StartIsRead` | Watchdog/EtwTraceSession.cpp:343-370 | Session and outcome told by the system's answers alone, and which providers count |
| `TraceSession.ScopeAsks` | Watchdog/EtwTraceSession.cpp:240-267 | Driver providers unless only user space is recorded, the others unless only the driver is |
| `TraceSession.EtwTraceSession.Stop` | Watchdog/EtwTraceSession.cpp:375-398 | The session is gone, or the stop failed and it is kept |
| `TraceService.EventLog.TuneScopeChannels` | Watchdog/DiagnosticsTraceService.cpp:88-112 | The scope's channels up to the first that fails change, the others do not |
| `TraceService.ReachedAll` | Watchdog/DiagnosticsTraceService.cpp:88-112 | All of them do exactly if none fails |
| `TraceService.ReachedInOrder` | Watchdog/DiagnosticsTraceService.cpp:88-112 | Channel by channel: each is changed exactly if the scope has it and neither it nor one before it fails |
| `TraceService.DiagnosticsTraceService.Start` | Watchdog/DiagnosticsTraceService.cpp:183-260 | New state and reply of a start, for every pattern of failures |
| `TraceService.DiagnosticsTraceService.Stop` | Watchdog/DiagnosticsTraceService.cpp:262-298 | New state and reply of a stop |
| `TraceService.DiagnosticsTraceService.DiscardCapture` | Watchdog/DiagnosticsTraceService.cpp:319-380 | New state and reply of a discard |
| `TraceService.AlwaysConsistent` | Watchdog/DiagnosticsTraceService.cpp:183-380 | In every run, whatever fails: idle has no stamps; recording has a session, path, file name and only a start stamp; ready has no session, a path and both stamps |
| `TraceService.PathAlwaysKnown` | Watchdog/DiagnosticsTraceService.cpp:310-311 | In every run the reply that the path is unknown does not occur |
| `TraceService.OriginOfLastBegun` | Watchdog/DiagnosticsTraceService.cpp:214-257 | In every run, path, file name, scope, tuning and start stamp are those of the last start that began a recording |
| `TraceService.StartReplies` | Watchdog/DiagnosticsTraceService.cpp:183-260 | What each reply of a start means |
| `TraceService.StopReplies` | Watchdog/DiagnosticsTraceService.cpp:262-298 | What each reply of a stop means, and what it leaves |
| `TraceService.DiscardReplies` | Watchdog/DiagnosticsTraceService.cpp:319-380 | What each reply of a discard means, and what it leaves |
| `TraceService.DownloadServesLastRecording` | Watchdog/DiagnosticsTraceService.cpp:300-317 | In every run a download is served exactly while a finished recording is on disk, and what it serves is the file given to the last start that began a recording |
| `TraceService.StartConserves` | Watchdog/DiagnosticsTraceService.cpp:223-253 | A start keeps the channels right if and only if tuning does not stop half-way and a trace that fails to start has all channels restored |
| `TraceService.StopConserves` | Watchdog/DiagnosticsTraceService.cpp:279-288 | A stop keeps them right if and only if all are restored |
| `TraceService.DiscardConserves` | Watchdog/DiagnosticsTraceService.cpp:323-357 | The same for a discard |
| `TraceService.AlwaysConserved` | Watchdog/DiagnosticsTraceService.cpp:183-380 | In every run without channel failures the channels at maximum visibility are exactly the scope's while recording with tuning, and none otherwise |
| `TraceService.ChannelsWhileRecording` | Watchdog/DiagnosticsTraceService.cpp:88-112 | The same channel by channel: the driver's is up exactly while the driver or everything is recorded with tuning, the two of user space while user space or everything is |
| `TraceService.DiscardRestores` | Watchdog/DiagnosticsTraceService.cpp:347-357 | After a stop whose restore failed, a discard puts that recording's channels back |
| `TraceService.FailedStartLeaks` | Watchdog/DiagnosticsTraceService.cpp:223-253 | After a start that did not keep the channels, the same channels stay at maximum visibility under every sequence of stops and discards |
| `TraceService.FirstStartCanLeak` | Watchdog/DiagnosticsTraceService.cpp:88-112 | A first start whose second channel fails leaves the first at maximum visibility under every sequence of stops and discards |
| `TraceService.BlockedForever` | Watchdog/EtwTraceSession.cpp:364-370 | In every run the service is idle while holding a session if and only if the rollback of an earlier start failed to stop it; so no later request reaches a recording |
| `TraceService.StepBlocks` | Watchdog/EtwTraceSession.cpp:292-373 | One request ends there exactly if it began there, or is a start that gets as far as the trace, is refused a provider and cannot stop the session |
| `TraceService.FirstStartCanBlock` | Watchdog/EtwTraceSession.cpp:361-370 | A first start with one refused provider and a failing stop blocks the service under all later requests |
| `DeviceGroups.Cluster` | HidHideCLI/src/HID.cpp:399-406 | Insertion into the multimap, behind equal keys |
| `Multimap.CollectedOrdered` | HidHideCLI/src/HID.cpp:399-406 | A multimap is sorted by its key |
| `Multimap.CollectedOf` | HidHideCLI/src/HID.cpp:399-406 | The elements of each key keep the order in which they were added |
| `Multimap.CollectedKeeps` | HidHideCLI/src/HID.cpp:399-406 | No element is lost or doubled |
| `DeviceGroups.GatherGroup` | HidHideCLI/src/HID.cpp:412-437 | The inner loop over-runs the group by one and steps back onto its last device; devices, model and gaming flag are those of the whole group |
| `DeviceGroups.HidDevices` | HidHideCLI/src/HID.cpp:395-458 | The outer loop ends; the result is one entry per wanted group, sorted by friendly name, equal names in the order of the containers, each named after the texts of its own devices |
| `DeviceGroups.Partition` | HidHideCLI/src/HID.cpp:408-437 | For every enumeration each device is in exactly one group; a group is all devices of one container, no two groups share one, and a device without container stands alone |
| `DeviceGroups.ShowsKeptGroups` | HidHideCLI/src/HID.cpp:439-454 | The list shows all groups, or exactly those with a gaming device |
| `DeviceGroups.ListIsRead` | HidHideCLI/src/HID.cpp:395-458 | Every entry is named after its own devices, and a group has one exactly if all are asked for or some device in it is gaming |
| `DeviceGroups.GroupIsNamed` | HidHideCLI/src/HID.cpp:420-449 | A name is made of the pieces of vendor and product of all devices in order, each unless it is the same as one kept before, with one blank between any two; without a piece it is the last device's description |
| `DeviceGroups.ModelPicks` | HidHideCLI/src/HID.cpp:420-431 | The model is a selection of those pieces, each kept exactly if none kept before is the same |
| `DeviceGroups.MergeModelInformation` | HidHideCLI/src/HID.cpp:376-389 | Adds each part not yet known, in order |
| `DeviceGroups.SplitStringAtWhitespaces` | HidHideCLI/src/Utils.cpp:83-101 | The non-empty pieces between blanks |
| `DeviceGroups.SplitSpaced` | HidHideCLI/src/Utils.cpp:83-101 | A blank between two texts separates what they split into |
| `DeviceGroups.SplitPart` | HidHideCLI/src/Utils.cpp:83-101 | Text without a blank is one piece |
| `DeviceGroups.NameSplitsBack` | HidHideCLI/src/HID.cpp:442-449 | A name built from model information has no duplicates and splits back into it; without any it is the last device's description |

## Left out

- WDF request plumbing, IRQL, event logging and tracing: no logic of their own.
- `GetStatus` of the trace service (`Watchdog/DiagnosticsTraceService.cpp:168-181`): it copies four fields.
- The control device's reference counting (`HidHide/src/Logic.c:1022-1056`): the framework decides how its callbacks pair up.
- SessionBlacklist.SessionList.Splice: follows the comment at line 679; SessionBlacklist.SessionList.SpliceAsWritten is line 683.
- SessionBlacklist.SessionList.Add: rests on that splice; SessionBlacklist.SessionList.AddAsWritten is the request as written.
- Driver.ControlDevice.AddSessionBlacklist: rests on that splice; its written form is beside it.
- AccessControl.SessionAt: rests on that splice; AccessControl.AsWrittenUntilEntangled says how far it holds of line 683.
- AccessControl.HiddenIsBlacklisted: rests on that splice, as AccessControl.SessionAt does.
- AccessControl.VerdictFollowsRule: rests on that splice and takes an open as one step; AccessControl.VerdictAsWritten and OpenReads.AcrossFollowsRule say what holds otherwise.
- What the driver does once its session list holds the address of a variable of a finished call: undefined, so the run as written ends there.
- What `WdfStringCreate` makes of a descriptor whose maximum length has wrapped: whether it succeeds is given, and if it does its content is taken by length.
- OpenReads.AcrossFollowsRule: reads its parts off whole events; OpenSections takes the swap and flush of the whitelist and the two lock sections of an exit apart.
- ConfigStore.SetRoundTrip: has no bound on the length of one string; it speaks of strings that fit a UNICODE_STRING, as the registry reader's limit is not part of this model.
- MultiString.RegistryKeeps: has no such bound either.
- MultiString.RegistryRoundTrip: has no such bound either.
- The check at `HidHide/src/Logic.c:751` takes the whitelist collection before the lock: fetching and evaluating are one step here.
- Registry reloads that fail (`HidHide/src/Logic.c:879-881` returns without a flush): reloads and registry writes are taken to succeed.
- A registry value that does not end in two terminators is read up to its last complete string; what `WdfRegistryQueryMultiString` does with it is not part of this model.
- Convergence of registry and memory for the two flags: `SetActive` and `SetInverse` store their argument instead of reading it back (`HidHide/src/Logic.c:964-968`), so it is not claimed.
- The tree methods return the new value of the caller's pointer instead of writing through a pointer to a pointer; the detaching of a node is a method of its own.
- `HidHideVerifyInternalConsistency` and `BstAddCount`: one fixed input, and a count.
- CommandInterpreter.MainApplication: does not model failing driver calls, which are exceptions that end the program; both encodings fit the strsafe limit.
- CommandInterpreter.Interpreter.ExecuteCommand: does not model what help, version, dev-all and dev-gaming print, because it leaves no trace in the configuration.
- File-system paths are compared as strings; `std::filesystem::path` treats some different strings as the same path.
- The code-unit translation of standard input and output, and the volume queries behind `FileNameToFullImageName`: given by `Platform`.
- TraceSession.EtwTraceSession.Start: does not model the property block it fills, whose two copies fit by construction, nor the checks inside `TryStopStaleOurSession`, whose answer is given.
- SetupAPI, CfgMgr and HID queries, the MFC client, the installer and the watchdog's HTTP handler.
