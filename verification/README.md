# Verified models of the tooling's stateful cores

This project models, in Dafny, the parts of the virtual-phone tooling that hold state, do exact byte work or must
round-trip, and proves what they promise over all inputs and all runs. Each component has a specification file
(functions on values), proof files, and, where the program works by changing things in place, a file of methods and
classes whose loops and field updates are proved against that specification.

| component | files |
|---|---|
| byte-exact surgery on the Apple device tree | `PowerPassthrough*.dfy` |
| flag-preserving device-tree codec with keyed edits | `DtPatch*.dfy` |
| normalising device-tree codec | `DtFixup*.dfy` |
| native input daemon: contacts, 32-slot ring, recovery, timeline | `DvmHid*.dfy` |
| older input path: coalescing queue and stop-and-wait link | `Relay*.dfy` |
| page-table walkers, chunked readers, instance search | `Page*.dfy`, `DartLayout.dfy`, `Frozen*.dfy` |
| signed shared-cache pages | `SignedPages*.dfy` |
| A64 assembler, exception handler and branch scanner | `Hvf*.dfy` |
| A64 switch interpreter | `Dcp*.dfy` |
| restore command lines | `RestoreArgv*.dfy` |
| witnessed serial upload | `SerialUpload*.dfy` |
| kernel frame chains | `FrameChains.dfy` |
| shared vocabulary | `Results.dfy`, `Bytes.dfy`, `Arithmetic.dfy`, `Utf8.dfy`, `Utf8Text.dfy` |

`dafny verify dfyconfig.toml` checks the whole project.

## How the models are set up

- Exceptions and error exits are values of `Result` or `Option`. No operation demands of its caller more than the
  program does; malformed, truncated and unmapped inputs take the program's own error paths.
- Unsigned words are non-negative numbers with the reduction written out; the A64 assembler and its machine use
  bit-vectors of the register width. A negative operand is reduced as the source language reduces it.
- Clocks, host times, service failures, the bytes of physical memory, path resolution, `cksum` and SHA-256 are
  parameters. Runs are sequences of events: every interleaving of reader, worker, notification callback and recovery
  is a run, and so is every loss or repetition of a record on the input link.
- Floating-point coordinates are real numbers.

## Where the code does less than it seems to

Each of these is a lemma about the code as it is: an input on which the promise fails, and the condition under which it
holds, in both directions.

- A device tree is refused exactly for the reasons in `GenerateAcceptsIff`; one of them is a node without a readable name
  in a branch that `generate` never touches (`NamelessBranchIsRejected`).
- `find` does not go back: with two siblings of one name it follows the first into a dead end although the second leads
  to the node asked for (`FirstSiblingHides`), and that is the only way it misses one (`MissedIff`).
- A wheel batch drags the finger the wrong way, or not at all, exactly when the pointer is inside the margin it should
  be dragged into (`WheelGoesItsWayIff`).
- "Never stack two contacts" fails around a recovery. Between the reset of the ring and the announcement of the recovery
  records are still queued: a finger put down there survives into the fresh services (`RecoveryWindowStacksContacts`),
  and a finger already down is moved or lifted there without a down in front (`HeldFingerBreaks`). The new services start
  on a stream that `held` describes exactly when the ring they find holds no touch, if a finger was down at the reset,
  or does not end inside a contact, if none was (`RecoveryIsCleanIff`). Outside the window a record keeps the promise
  exactly when it does not meet a full ring in one of the listed ways (`HandleTracksIff`), and runs made of such records
  and such recoveries keep it throughout (`ContactsAcrossRecoveries`).
- Event timestamps can run backwards when host times do, but need not: a stamp cut at a clock that lags stays in order
  (`BackwardHostTimes`). They are in order exactly when every record that stamps on an earlier base is placed by it no
  earlier than the last stamp (`LineOrderedIff`, `TimestampsOrderedIff`).
- Only the start of a task read is checked: a request that runs past 2^43 goes on with the bytes from address zero
  (`ReadCrossesLimit`).
- A DART request returns something exactly when every word that holds one of its bytes is mapped (`DartRead`), so an
  unaligned one also needs the rest of the words its pieces end in.
- The normalising codec is a normaliser exactly on trees whose decoded values are settled (`SecondPassIff`). A node named
  `<NULL>` and a text that spells a number made of letters are not (`NamedNothing`, `NumberOfLetters`).
- A property name of fewer than 32 characters can need more than 32 bytes, and the record then shifts
  (`WideNameShiftsTheRecord`). A printable tree comes back from the flag-preserving codec exactly when its names hold no
  NUL and fit 32 bytes and its values stay below the flag bit (`DecodeEncodeIff`); a strictly parsed buffer comes back
  exactly when its name tails and padding are zero (`EncodeDecodeIff`), which `DirtyNameIsLost` lacks; and a buffer that
  ends before its last record does never comes back (`TruncatedIsLost`).
- A restored line, restored again, is one direct restore exactly when the disk in between has no comma in its path and,
  should the line have a serial socket, what the paths in between leave behind a comma reads as an endpoint itself
  (`RestoresComposeIff`). Every endpoint of a restored line is the one asked for exactly when the disk's path, and with
  a serial socket also the socket's and the log's, have no comma (`RestoredIsDirected`, `RestoredNamesIff`); those of a
  boot command are the run's own exactly when its directory has none (`BootNames`).
- A restored line boots as the captured one without pid file and daemon option exactly when all drives carry the text
  `id=ans,` before if and only if they do after (`BootOfRestoredIff`); it boots as the captured line itself exactly when
  that line, where it boots, had neither option, and both boot or neither does (`BootUnchangedIff`). A drive whose
  `id=ans` is its last part can gain or lose that text with its disk's name (`LastMarkerChangesBoot`); with another part
  behind the marker it cannot (`BootOfRestored`).
- A patched page is the one whose hash was written exactly when no hash slot changes a byte of it (`PageAsHashedIff`). In
  a file whose signature begins inside a patched page, the slot of another page can lie there, and the tool accepts it
  (`SlotInAnotherPage`); a page-aligned signature rules that out (`AlignedSignatureIsClear`).
- Something can reach the guest at all exactly when the helper has not yet taken a later sequence number
  (`HelperHearsIff`).
- The interpreter masks an index but not the sum. A load reads at the address it names exactly when the sum stays below
  2^64 and the range lies in the image (`LoadReadsItsWordIff`); below the image a load reads from the image's end
  (`LoadIff`), and a negative index on an image address never loads (`NegativeIndexNeverLoads`). Translating a fixup word
  twice is translating it once only under the condition of `RebaseTwiceIff`.
- An accepted upload path may name its staging root itself, when nothing behind the root's text is a name
  (`SafeStaysBelow`).
- A witnessed upload is not yet a right one. A part stays right exactly when nothing is written over it behind its
  marker, and the join is the blob's text exactly when no stray text lies among the parts (`UploadDelivers`); one lost
  character of a redirect is enough for that, with every marker genuine (`ShortenedPathIsStray`).
- Part names sort as numbers exactly up to 999999 parts (`NamesAscendIff`).
- The frame-chain report omits exactly the links that no link reaches and that reach none (`ReportOmitsOnlyLoneLinks`),
  such as the one of `LoneLinkIsOmitted`.

## Model

| member | source | states |
|---|---|---|
| PowerPassthroughProofs.CodecIsLossless | tools/re/power_passthrough_dt.py:114-152 | parser and printer are inverse on every byte string and every tree: a buffer parses to a tree if and only if the tree is well formed, packable and prints as that buffer |
| PowerPassthroughProofs.StringPropertyReads | tools/re/power_passthrough_dt.py:98-168 | a record built from ASCII name and UTF-8 text is a well-formed record and decodes to exactly that text |
| PowerPassthroughProofs.GenerateAcceptsIff | tools/re/power_passthrough_dt.py:205-256 | `generate` succeeds if and only if the source parses, has one readable `arm-io`, no provider there, room in its child count, and readable names below every other root child |
| PowerPassthroughRejected.NamelessBranchIsRejected | tools/re/power_passthrough_dt.py:229-234 | a concrete tree to which the provider can be added and which the tool yet refuses, for a nameless node in another branch |
| PowerPassthroughProofs.GenerateIsSurgical | tools/re/power_passthrough_dt.py:199-256 | the output is the source with one counter word, that of `arm-io`, incremented and the encoded leaf inserted exactly at the end of `arm-io`'s encoded subtree; every other byte is kept in order |
| PowerPassthroughProofs.GenerateTwiceConflicts | tools/re/power_passthrough_dt.py:191-256 | running the tool on its own output always ends in the provider conflict |
| PowerPassthroughProofs.LeafPassesContract | tools/re/power_passthrough_dt.py:214-228 | a node grown by the provider leaf passes every check the output contract makes on that node |
| PowerPassthroughProofs.ContractOnGrown | tools/re/power_passthrough_dt.py:205-241 | on a grown tree the whole output contract passes if and only if every node below the other root children has a readable name |
| PowerPassthroughContract.ContractIff | tools/re/power_passthrough_dt.py:205-241 | over every two trees: the contract accepts the second exactly when the first has one `arm-io` and the second is the first with one provider leaf at the end of it, with the names that are compared or searched readable |
| PowerPassthroughContract.AcceptedIsGrown | tools/re/power_passthrough_dt.py:205-241 | an output the contract accepts is the original with exactly one node added, and that node has no children and only the name and device type of the provider |
| PowerPassthroughContract.HardwareNamesAreSpelled | tools/re/power_passthrough_dt.py:224-225 | the properties the leaf may not have, by their texts |
| PowerPassthroughContract.LeafBytes | tools/re/power_passthrough_dt.py:155-177 | the 120 bytes of the inserted leaf, written out: two properties, no children, the texts `name`, `device_type` and `charger,passthrough` |
| PowerPassthroughLoops.ReadNode | tools/re/power_passthrough_dt.py:114-136 | the loops that advance the offset and append to lists compute the specified tree, end offset and error |
| PowerPassthroughLoops.WriteNode | tools/re/power_passthrough_dt.py:146-152 | extending one buffer record by record and child by child gives the specified print |
| PowerPassthroughLoops.Run | tools/re/power_passthrough_dt.py:244-256 | the whole tool, loop by loop, yields what the specification of `generate` yields |
| PowerPassthroughNodes.TreeNode.Find | tools/re/power_passthrough_dt.py:180-181 | on heap objects, the list of direct children with a name, or the first unreadable name's error, as in the tree they stand for |
| PowerPassthroughNodes.TreeNode.Append | tools/re/power_passthrough_dt.py:202 | appending to one node's child list makes the leaf the last child and changes nothing else of the subtree |
| PowerPassthroughNodes.Graft | tools/re/power_passthrough_dt.py:199-202 | an append to a grandchild list, seen from the root: only that child's subtree grew, all sibling objects keep their value |
| PowerPassthroughNodes.FindPlace | tools/re/power_passthrough_dt.py:184-196 | the one `arm-io` child of the heap tree, or the error of a missing, repeated or already served one |
| PowerPassthroughNodes.AddProviderInPlace | tools/re/power_passthrough_dt.py:199-202 | in-place mutation of the object tree gives the specified tree, and leaves it untouched on every error |
| DvmHidProofs.RingGrowth | tools/input/dvm_hid.c:381-393 | the ring grows by as many operations as the record attempts, cut at 32, keeping what was queued; with at most 30 queued no push is refused and no reply is `F` |
| DvmHidProofs.ConservationOverRuns | tools/input/dvm_hid.c:381-460 | in every run, recoveries included: pushed = reported + at most one in dispatch + queued + discarded, as sequences and in push order between discards |
| DvmHidProofs.RunConserves | tools/input/dvm_hid.c:427-460 | conservation is kept by every step of every run from every state that has it |
| DvmHidProofs.ScrollIsOneContact | tools/input/dvm_hid.c:363-378 | a wheel batch is one whole contact when no contact is open, and breaks the stream when one is |
| DvmHidPushes.ScrollIsStraight | tools/input/dvm_hid.c:363-378 | the ten posts of a wheel batch: down at the pointer, eight equal steps along the height, the last already at the end, and up there |
| DvmHidPushes.WheelEndsAt | tools/input/dvm_hid.c:363-370 | the drag ends a twentieth of the height per notch away, at most eight notches, cut at the margins of a fiftieth |
| DvmHidPushes.WheelGoesItsWayIff | tools/input/dvm_hid.c:356-370 | positive notches drag down and negative ones up exactly while the pointer is outside the margin they drag into |
| DvmHidProofs.HandleTracksIff | tools/input/dvm_hid.c:479-517 | after a record, `held` and the held position still describe the stream of handed-over touches if and only if the record was not one of the listed ones that meet a full ring |
| DvmHidProofs.RoomLosesNothing | tools/input/dvm_hid.c:479-517 | two free slots keep every record, of any kind and epoch, from losing a contact |
| DvmHidPushes.PushesTellTheRecord | tools/input/dvm_hid.c:381-517 | every operation a record pushes, in the record's own numbers: first, where the record ends a held contact, its lift at the remembered place; then a touch at a/32767, b/32767 with the edges of its kind, a wheel batch there, or the button a with the state b; nothing else, and cut at 32 |
| DvmHidPushes.HeldTellsTheRecord | tools/input/dvm_hid.c:479-517 | which records open, keep and close the remembered contact, and that it is remembered where the last down, move or lift says |
| DvmHidPushes.AnswerTellsTheOutcome | tools/input/dvm_hid.c:479-517 | the reply is `N` exactly for records that need services there are none for, and `F` exactly when the ring has no room for what the reply speaks of |
| DvmHidPushes.GestureStartsItsClock | tools/input/dvm_hid.c:492-511 | a down and a button become the base of later stamps and carry the base reading themselves, or the event reading where that is earlier or there is no host time |
| DvmHidPushes.EveryPushHasItsLine | tools/input/dvm_hid.c:381-549 | in every run, each operation ever queued is what some line of the run says, or lifts the finger exactly where the latest down or move line before it put it |
| DvmHidPushes.TouchesStayOnDisplay | tools/input/dvm_hid.c:363-477 | over every run of lines that pass the range checks, no touch of any operation, wheel drags included, is posted off the display |
| DvmHidProofs.ContactsOverQuietRuns | tools/input/dvm_hid.c:436-517 | over every recovery-free run without such a loss, the popped-then-queued touches are a legal contact stream, open exactly when `held`, at the held position |
| DvmHidProofs.LegalStreamIsContacts | tools/input/dvm_hid.c:363-393 | a stream the contact automaton accepts is a list of whole contacts (down, moves, up) and at most one unfinished contact |
| DvmHidProofs.ContactsAreLegal | tools/input/dvm_hid.c:363-393 | every list of whole contacts is accepted and leaves no contact open |
| DvmHidProofs.RecoveryWindowStacksContacts | tools/input/dvm_hid.c:399-445 | a concrete run in which a recovery is in progress leaves two downs without an up between them in the ring; `RecoveryIsCleanIff` is the condition for all of them |
| DvmHidRecovery.RecoveryIsCleanIff | tools/input/dvm_hid.c:399-445 | for every window from the reset of the ring to the end of the recovery, with any records and notifications in between: the new services start on a stream that `held` describes if and only if the ring holds no touch (a finger was down at the reset) or its last touch is a lift (none was) |
| DvmHidRecovery.CleanIffNotHeld | tools/input/dvm_hid.c:437-445 | in a window that began between contacts, while services are ready and the ring has room, that is so if and only if no finger is held |
| DvmHidRecovery.HeldFingerBreaks | tools/input/dvm_hid.c:437-517 | from every state with a held finger, a move between the reset and the recovery leaves the new services a move without a down |
| DvmHidRecovery.ContactsAcrossRecoveries | tools/input/dvm_hid.c:399-517 | over every run, outages and recoveries included, that loses no contact to a full ring and whose recoveries start clean: each pair of services is handed a legal stream of its own, and the newest one is what `held` and the held position describe |
| DvmHidRecovery.ContactsFromStartUp | tools/input/dvm_hid.c:280-294 | the same from start-up, with any records that come before the services are up |
| DvmHidFailures.RecoveryIsDueIff | tools/input/dvm_hid.c:437-458 | in every run, recovery is asked for exactly when a notice or the second of two failed dispatches in a row asked for it and no new services came since |
| DvmHidTimeline.TimestampsNeverDecrease | tools/input/dvm_hid.c:313-320 | over every run with ordered positive host times, an ordered positive clock and no overflow, all queued timestamps ascend and none exceeds the clock |
| DvmHidTimeline.TimelineMonotone | tools/input/dvm_hid.c:313-320 | on one base, later host time and later clock never give an earlier timestamp |
| DvmHidTimeline.TimestampValue | tools/input/dvm_hid.c:313-320 | without overflow the 64-bit computation is base plus elapsed ticks over unbounded integers, cut at the clock, and the clock itself without a usable base |
| DvmHidOrder.LineOrderedIff | tools/input/dvm_hid.c:313-320 | from any ordered state, with no hypothesis on host times or overflow: the stamps stay in order after a record if and only if it pushes nothing on its old base, or that base is not usable for its host time, or the base places it no earlier than the last stamp |
| DvmHidOrder.TimestampsOrderedIff | tools/input/dvm_hid.c:381-517 | over every run with an ascending clock, the pushed stamps are in order and below the clock if and only if that holds at every record |
| DvmHidOrder.MarkIsElapsed | tools/input/dvm_hid.c:316-318 | without overflow the place a base gives is the base plus the elapsed ticks |
| DvmHidOrder.BackwardHostTimes | tools/input/dvm_hid.c:313-320 | runs of one finger whose host times run backwards: the stamps are out of order or not, depending on the clock alone |
| DvmHidDaemon.RingPush | tools/input/dvm_hid.c:382-385 | writing the slot at head + length modulo 32 appends to the queue the ring stands for |
| DvmHidDaemon.RingPop | tools/input/dvm_hid.c:446-448 | advancing the head removes exactly the oldest operation |
| DvmHidDaemon.RingAt | tools/input/dvm_hid.c:324-325 | the k-th queued operation lies k slots behind the head, around the end |
| DvmHidDaemon.Daemon.Queue | tools/input/dvm_hid.c:381-388 | the array ring with head and length refines the bounded queue: appended, or refused and unchanged |
| DvmHidDaemon.Daemon.Release | tools/input/dvm_hid.c:389-393 | lifting the held contact clears `held` even when the ring refuses the operation |
| DvmHidDaemon.Daemon.HandleRecord | tools/input/dvm_hid.c:479-517 | the record handler on fields and ring array refines the specified transition and reply, whose operations, contact and answer `PushesTellTheRecord`, `HeldTellsTheRecord` and `AnswerTellsTheOutcome` give in the record's own numbers |
| DvmHidDaemon.Daemon.Turn | tools/input/dvm_hid.c:437-448 | the worker's locked turn: either the ring is emptied for recovery or the oldest operation leaves it |
| DvmHidDaemon.Daemon.Finish | tools/input/dvm_hid.c:456-458 | the failure counter after a dispatch, and the request for recovery after two in a row |
| DvmHidDaemon.Daemon.BeginRecovery | tools/input/dvm_hid.c:399-405 | only the announced state changes, with everything the reader queued meanwhile kept |
| DvmHidDaemon.Daemon.AttemptRecovery | tools/input/dvm_hid.c:406-425 | a failed attempt changes nothing; a successful one forgets the contact, the request and the failures |
| DvmHidDaemon.Daemon.EndOfInput | tools/input/dvm_hid.c:519-549 | the reader's end releases an open contact through the same queue |
| PageTableProofs.EnumerationAgreesWithWalk | tools/re/frozen_objc_instances.py:19-35 | for every coherent way of reading memory, every root and address: the yielded intervals ascend and are disjoint, one that contains the address gives the walk's physical address, and in the heap ranges one exists if and only if the walk succeeds |
| PageTableProofs.EnumerationIsPruned | tools/re/frozen_objc_instances.py:24-34 | no interval is listed that does not reach into one of the two heap ranges |
| PageLayout.WrittenIff | tools/re/physical_task_memory.py:87-105 | the layout theorem: the tables under a root write down a map from pages to frames, in the fields of their table, block and page descriptors, if and only if the walk of every address gives its place in the frame of its page, and nothing where it has none; the top sixteen and low ten bits of the root and the bits from 43 of the address change nothing |
| PageLayout.TaskSees | tools/re/physical_task_memory.py:87-106 | through tables that write down a map the task sees, byte for byte, the frames of that map |
| PageReaders.WalkWithinPage | tools/re/physical_task_memory.py:94-103 | from any table and level, addresses of one 16 KiB page are all mapped, linearly, or all unmapped |
| PageReaders.WalkIsLinear | tools/re/physical_task_memory.py:93-105 | the three-level walk moves by exactly the offset inside a page |
| PageReaders.WalkWrapsAt43Bits | tools/re/physical_task_memory.py:94-95 | addresses 2^43 apart walk alike, so the space repeats above its limit |
| PageReaders.Read | tools/re/physical_task_memory.py:87-106 | the chunked reader returns exactly the bytewise-translated memory, or fails exactly when some byte is unmapped or unreadable, or the request is out of bounds |
| PageReaders.ReaderAgreesWithEnumeration | tools/re/physical_task_memory.py:87-106 | in the heap ranges the task reader sees the bytes that the enumeration maps |
| PageReaders.ReadCrossesLimit | tools/re/physical_task_memory.py:87-95 | a request past 2^43 returns the bytes up to there followed by those from address zero, and fails exactly when either part does |
| PageReaders.Translate | tools/re/physical_task_memory.py:93-103 | the level loop computes the specified walk |
| PageReaders.DartRead | tools/re/dart_read.py:31-59 | the DART reader returns exactly the bytewise-translated memory, and returns something if and only if every word that holds a byte of the request is mapped; for word-aligned requests that is whenever the bytes are |
| PageReaders.DartTranslate | tools/re/dart_read.py:47-57 | the level loop computes the specified 3- or 4-level DART walk, which `DartWrittenIff` characterises by what the tables write down |
| DartLayout.DartWrittenIff | tools/re/dart_read.py:45-58 | the layout theorem: the t8110 tables at the register's address write down a map from pages to frames, frame number above ten bits and valid bit, eleven index bits a level, if and only if the walk of every device address gives its place in the frame of its page, and nothing where it has none |
| DartLayout.DeviceSees | tools/re/dart_read.py:45-60 | through tables that write down a map the device sees, byte for byte, the frames of that map |
| FrozenInstances.NeedleFindsExactly | tools/re/frozen_objc_instances.py:38-47 | for a class with clear low 3 and high 16 bits, the five-byte needle with its alignment and low-byte tests hits exactly the aligned words whose masked isa is the class |
| FrozenInstances.ScanRegion | tools/re/frozen_objc_instances.py:41-47 | the find loop collects all those words of a region, ascending, once each |
| FrozenInstances.IndexPages | tools/re/frozen_objc_instances.py:48-50 | the page dictionary answers each page query with the same hits in the same order as filtering by range |
| FrozenMemory.DumpIsCoherent | tools/re/warm_boot_postmortem.py:40-44 | captures of one physical memory read coherently: parts of a readable range read the same |
| FrozenMemory.UserIsBytewise | tools/re/warm_boot_postmortem.py:61-80 | a task read in stretches as large as the mapping entry returns exactly the task's memory byte by byte |
| FrozenMemory.OneStretchIff | tools/re/warm_boot_postmortem.py:61-80 | a read inside one mapped stretch succeeds if and only if the stretch is mapped and its bytes lie in one capture |
| FrozenMemory.ReadUser | tools/re/warm_boot_postmortem.py:61-80 | the loop that fills the output computes the specified read, including its failures |
| FrozenInstances.Instances | tools/re/frozen_objc_instances.py:38-64 | the generator with its index yields the rows of the plain nested search over the captures, and fails exactly when a table cannot be read |
| FrozenInstances.SearchIsSoundAndComplete | tools/re/frozen_objc_instances.py:38-64 | a row with an address and a physical hit is yielded if and only if the hit is a class word of a capture, the address maps to it, and the whole read there succeeds out of the captures |
| SignedPagesProofs.OverlapCheckIsExact | tools/input/prepare_guarded_cache_patch.py:43-49 | sorting and comparing neighbours rejects an edit set if and only if some two edits share a byte |
| SignedPagesAccepts.ReviewedIff | tools/input/prepare_guarded_cache_patch.py:21-50 | an edit set is reviewed exactly when it has one to thirty-two items of which no two meet, each behind the header, inside one page, as long as and different from what it replaces, and met in the file; the edits are the items in order |
| SignedPagesAccepts.ParseIff | tools/input/prepare_display_policy.py:31-85 | the parser answers a CodeDirectory exactly when the signature's bytes describe it: magics, declared lengths, an index without repeated slots, ad-hoc flags, SHA-256 over 16 KiB pages, a hash table inside it, and the page and code end asked for |
| SignedPagesAccepts.PagesIff | tools/input/prepare_guarded_cache_patch.py:95-110 | the page loop succeeds exactly when every page it meets is whole, covered and hashes to its slot as the file came |
| SignedPagesAccepts.StageIff | tools/input/prepare_guarded_cache_patch.py:78-113 | a file and a specification are staged, with this CodeDirectory, exactly when the header places the signature, the items are reviewable, the CodeDirectory covers them and their pages are as signed |
| SignedPagesProofs.WriteAllAt | tools/input/prepare_guarded_cache_patch.py:104-114 | after writing compatible edits, every byte is its edit's byte, or the old byte where no edit reaches |
| SignedPagesProofs.AnyOrderSameFile | tools/input/prepare_guarded_cache_patch.py:114-131 | the order and repetition of the writes do not matter |
| SignedPagesProofs.UndoRestores | tools/input/prepare_guarded_cache_patch.py:128-131 | writing the `before` bytes back in any order restores the file |
| SignedPagesProofs.TouchedPagesExact | tools/input/prepare_guarded_cache_patch.py:95 | the page list holds exactly the pages the edits touch, once each, ascending |
| SignedPagesStaged.PatchIsOrderFreeAndReversible | tools/input/prepare_guarded_cache_patch.py:82-114 | for an accepted edit set with the code limit at or below the signature: edits and slot payloads are pairwise apart, any order of writes gives the same file, any order of undoing restores the source, and no other byte changes |
| SignedPagesStaged.PageAsHashedIff | tools/input/prepare_guarded_cache_patch.py:104-111 | a page of the patched file is the page that was hashed if and only if no slot payload changes a byte in it |
| SignedPagesWitness.SlotInAnotherPage | tools/input/prepare_guarded_cache_patch.py:82-114 | for every hash that tells two pages apart, a file with header, signature and CodeDirectory that the tool accepts and patches on two pages, after which the second page is not the one whose hash is in its slot |
| SignedPagesStaged.TouchedPageMatchesSlot | tools/input/prepare_guarded_cache_patch.py:95-111 | every touched page that no slot reaches into hashes, in the patched file, to the slot written for it |
| SignedPagesStaged.AlignedSignatureIsClear | tools/input/prepare_guarded_cache_patch.py:86-100 | a page-aligned signature above the code keeps every touched page clear of slots |
| SignedPagesStaged.PatchedDirectory | tools/input/prepare_guarded_cache_patch.py:93-111 | the CodeDirectory found in the patched file is byte for byte the buffer the loop built |
| SignedPagesStaged.SecondRunStops | tools/input/prepare_guarded_cache_patch.py:37-39 | a second run over the patched file stops with a preimage mismatch |
| SignedPagesStaged.PayloadShape | tools/input/prepare_guarded_cache_patch.py:95-111 | each page's payload lies in that page's slot, takes the original directory's hash to the changed page's, even though slots are overwritten as the loop goes |
| SignedPagesLoops.ReviewEdits | tools/input/prepare_guarded_cache_patch.py:29-49 | the review loop and the neighbour scan accept and reject, with the same first error, as specified |
| SignedPagesLoops.ReadSlots | tools/input/prepare_display_policy.py:50-57 | the loop-filled slot dictionary, or the duplicate-slot error |
| SignedPagesLoops.ChangePage | tools/input/prepare_guarded_cache_patch.py:104-108 | overwriting array slices edit by edit gives the specified page |
| SignedPagesLoops.RewriteSlots | tools/input/prepare_guarded_cache_patch.py:95-111 | the page loop over a directory buffer updated in place gives the specified payloads, buffer and errors |
| DtPatchExact.DecodeEncodeIff | tools/dt_patch.py:85-112 | every printable tree comes back whole, ending where its print ends, if and only if its names hold no NUL and fit 32 bytes and its values stay below the flag bit |
| DtPatchExact.TruncatedIsLost | tools/dt_patch.py:85-112 | a tree decoded from a buffer that ends too early never encodes to that buffer |
| DtPatchProofs.DecodeEncode | tools/dt_patch.py:85-112 | decoding an encoded well-formed tree gives the tree back with its flags and exact lengths |
| DtPatchProofs.WfTreeDecodes | tools/dt_patch.py:85-112 | the same wherever the encoding lies in a larger buffer, consuming exactly its length |
| DtPatchProofs.StrictNodeDecodes | tools/re/power_passthrough_dt.py:114-136 | on everything the strict parser accepts the lenient one sees the same tree and end offset |
| Utf8Text.BadLengthIsLongest | tools/dt_patch.py:90 | each replacement character stands for the longest run of bytes that begins some character's encoding, or for one byte |
| Utf8Text.ValidEncodes | tools/dt_patch.py:90 | valid bytes are the encoding of the text they decode to |
| DtPatchProofs.EncodeDecodeIff | tools/dt_patch.py:85-112 | re-encoding a strictly parsed buffer gives it back if and only if all name tails and paddings are zero |
| DtPatchExact.DirtyNameIsLost | tools/dt_patch.py:90-107 | a strictly parsed buffer with one byte behind a name's NUL is not given back |
| DtPatchEdits.SetTouchesFirst | tools/dt_patch.py:60-71 | setting a key changes the value of the first property of that name only, keeps its flag and every other property, and appends exactly when the key is new |
| DtPatchEdits.SetLaws | tools/dt_patch.py:66-78 | setting twice is setting once; deleting a freshly added key restores the list |
| DtPatchEdits.DeleteDropsFirst | tools/dt_patch.py:73-78 | deleting drops the first property of that name, moves the later ones up by one, and changes no other key's value |
| DtPatchPaths.LocateIff | tools/dt_patch.py:48-134 | `find` answers the node at a path exactly when each node on the path is the first child of the name asked for of the node before it |
| DtPatchPaths.SpelledOnce | tools/dt_patch.py:54-134 | a path of names means at most one node |
| DtPatchPaths.NoNodeIff | tools/dt_patch.py:127-134 | it gives up exactly where the names spelled so far reach a node none of whose children bears the next name |
| DtPatchPaths.MissedIff | tools/dt_patch.py:54-58 | when it gives up, a node of the names asked for exists all the same exactly when a later sibling of the same name as a node on its way leads to one |
| DtPatchPaths.FirstSiblingHides | tools/dt_patch.py:54-58 | such a tree: the first of two siblings `a` is followed and hides the node `a/b` under the second |
| DtPatchEdits.EditIsLocal | tools/dt_patch.py:127-134 | an edit at one path keeps every other node's properties and the shape of the tree |
| DtPatchEdits.EditSurvivesRoundTrip | tools/dt_patch.py:66-134 | find, set, encode and decode, at the path the names spell through first children: the result shows that one change and nothing else |
| DtPatchEdits.WideNameShiftsTheRecord | tools/dt_patch.py:105-107 | a name of few characters and many bytes breaks the record layout: a concrete case the length check admits, for which `DecodeEncodeIff` is the condition on all trees |
| DtPatchEdits.EndsAligned | tools/dt_patch.py:85-100 | decoding stops a multiple of four behind its start, on every buffer |
| DtPatchNodes.Node.Set | tools/dt_patch.py:66-71 | the in-place update of the property list is the specified one |
| DtPatchNodes.Node.Delete | tools/dt_patch.py:73-78 | the in-place removal takes out the first property of that name and says whether there was one |
| DtPatchNodes.Node.Lookup | tools/dt_patch.py:60-64 | the first value under a key |
| DtPatchNodes.FindNode | tools/dt_patch.py:127-134 | following child objects by name ends at the object each of whose ancestors and itself is the first child of its name, or fails when no path is spelled so |
| DtPatchNodes.SetAtPath | tools/dt_patch.py:66-134 | a keyed edit through object references changes exactly the node the names spell through first children, and nothing when there is none |
| DtPatchNodes.OneChanged | tools/dt_patch.py:43-46 | when the objects of a tree are distinct, updating one object's list is an edit at one path |
| DtPatchNodes.ReadNode | tools/dt_patch.py:85-100 | decoding builds fresh, pairwise distinct objects that stand for the specified tree |
| DtPatchNodes.WriteNode | tools/dt_patch.py:103-112 | encoding the object tree gives the specified bytes |
| DtFixupProofs.ValueStableIff | dt_fixup.py:64-73 | a decoded value is written the same way twice if and only if it is settled, a condition on its text alone |
| DtFixupStrict.FirstReadAgrees | dt_fixup.py:75-101 | on every buffer the strict parser accepts, whatever its flags and lengths: the first read succeeds exactly when every name field and every text is UTF-8, stops at the same byte, and gives every node one entry for each of its records' names, in the order of their first records, with the value of the last |
| DtFixupStrict.RecordAgrees | dt_fixup.py:83-92 | one record: its own name, the reading of its own padded payload, and the strict parser's end |
| DtFixupStrict.ValueMeans | dt_fixup.py:64-73 | a value from its key and bytes alone: the text up to the first zero byte, `<NULL>`, the shortest hexadecimal numeral of the little-endian number, or the bytes |
| DtFixupStrict.ValueRefusedIff | dt_fixup.py:40-73 | a value is refused exactly when it is a node's name and no text's encoding |
| DtFixupStrict.ProbablyStringIff | dt_fixup.py:43-62 | bytes pass for a string exactly when they are a printable ASCII text of three or more characters with zeros behind it |
| DtFixupProofs.NumberRereads | dt_fixup.py:746-749 | a value written as a 4- or 8-byte number survives unless the number's bytes read as text that is shorter than they are |
| DtFixupProofs.PaddedReads | dt_fixup.py:40-41 | text padded with any number of zeros reads back as that text |
| DtFixupTree.FirstPassProduces | dt_fixup.py:75-101 | decoding yields unique keys and values of the produced kinds; from trees without reserved texts, settled ones |
| DtFixupTree.EncodedNodeReads | dt_fixup.py:75-101 | reading an encoded subtree anywhere consumes exactly its encoded length and gives each value as it rereads |
| DtFixupTree.SecondPassIff | dt_fixup.py:735-784 | a second decode/encode pass reproduces the first pass's bytes if and only if every decoded value is settled |
| DtFixupWitness.OneTextIff | dt_fixup.py:43-101 | for every one-text tree as it is stored: a second pass keeps it if and only if the text is settled under its key |
| DtFixupWitness.NamedNothing | dt_fixup.py:64-73 | a node named `<NULL>` is written differently by the second pass |
| DtFixupWitness.NumberOfLetters | dt_fixup.py:746-749 | the text `u32:0x41414141` is written as four letters, which the second pass reads as a text and writes longer |
| DtFixupTree.OrdinaryTreesAreNormalised | dt_fixup.py:43-101 | without texts starting `u32:` or `u64:` or equal to `<NULL>`, a second pass changes nothing |
| DtFixupTree.NodeForced | dt_fixup.py:761-784 | equal bytes of a tree and its reread tree force every value in it to be settled |
| DtFixupTree.SettledRewrites | dt_fixup.py:761-784 | a tree of settled values rereads and encodes to the same bytes |
| DtFixupLoops.ReadNode | dt_fixup.py:75-101 | the loop that consumes slices and fills a dictionary gives the specified node and size, errors included; `FirstReadAgrees` says which node that is |
| DtFixupLoops.WriteNode | dt_fixup.py:761-784 | the growing buffer with its alignment checks gives the specified bytes or error |
| RestoreArgvCompose.RestoresComposeIff | tools/checkpoint_common.py:250-334 | for every well-formed line accepted with distinct disks: restoring the restored line equals one direct restore if and only if the disk in between has no comma in its path and, should the line have a serial socket, the paths in between leave nothing behind |
| RestoreArgvCompose.RestoreSameOutcome | tools/checkpoint_common.py:323-328 | with distinct disks a line is accepted for one target if and only if it is for another |
| RestoreArgvCompose.RestoresCompose | tools/checkpoint_common.py:250-334 | with comma-free paths in between, restores always compose, acceptance included |
| RestoreArgvTheorems.DriveComposesIff | tools/checkpoint_common.py:250-263 | an ANS drive can be restored through a disk in between if and only if that disk's path has no comma |
| RestoreArgvTheorems.ChardevComposesIff | tools/checkpoint_common.py:296-308 | a socket can be redirected through endpoints in between if and only if every piece their paths leave behind a comma reads as an endpoint itself |
| RestoreArgvTheorems.RestoredLine | tools/checkpoint_common.py:271-334 | a restored line is program, walked options and tail, is well formed again, and names the same serial devices |
| RestoreArgvFrame.OthersAreKept | tools/checkpoint_common.py:280-321 | every unrelated option keeps its value and its place among the others |
| RestoreArgvFrame.RestoredIsDirected | tools/checkpoint_common.py:280-334 | a restored line starts paused, and exactly one `-incoming`, the last pair, names the saved state; every endpoint in it is the requested one if and only if the disk's path and, with a serial socket, the socket's and the log's have no comma |
| RestoreArgvEndpoints.RestoredNamesIff | tools/checkpoint_common.py:280-334 | the same option by option: neither `-pidfile` nor `-qmp` is left, and every monitor, saved state, debugger, serial log, boot disk and serial socket in the line is the one asked for, if and only if those paths have no comma |
| RestoreArgvBoot.BootOfRestoredIff | tools/warm_boot_probe.py:20-41 | booting a restored line is booting the captured one without its pid file and daemon option if and only if all drives carry `id=ans,` before exactly when all do after |
| RestoreArgvBoot.BootOfRestored | tools/warm_boot_probe.py:20-41 | that is so on every line in which each ANS drive has another part behind its marker |
| RestoreArgvBoot.KeptIff | tools/warm_boot_probe.py:29-33 | a well-formed line boots if and only if every drive carries `id=ans,`, and there is one way to fail |
| RestoreArgvEndpoints.BootNames | tools/warm_boot_probe.py:20-41 | a boot command, from any line: no saved state, debugger, pause or older endpoint in front and every drive replaced; at the end a monitor, a QMP socket and a serial line; they and the drive split into the files of the run's directory if and only if that has no comma |
| RestoreArgvBoot.BootUnchangedIff | tools/warm_boot_probe.py:20-41 | the two boot commands are equal if and only if, where the captured line boots, it has neither `-pidfile` nor `-daemonize` and the restored one boots, and where it does not, neither does the restored one |
| RestoreArgvBoot.LastMarkerChangesBoot | tools/checkpoint_common.py:250-263 | concrete lines whose drive ends in `id=ans`: one boots only after its restore, the other only before |
| RestoreArgvProofs.DriveTwice | tools/checkpoint_common.py:250-263 | replacing the drive file twice is replacing it once, through a comma-free path |
| RestoreArgvProofs.ChardevTwice | tools/checkpoint_common.py:296-308 | redirecting a socket twice is redirecting it once, when the paths in between leave nothing behind |
| RestoreArgvLoops.ReplaceFile | tools/checkpoint_common.py:250-263 | overwriting the first `file=` slot of the split list gives the specified drive or error |
| RestoreArgvLoops.RestoreCommandLine | tools/checkpoint_common.py:266-334 | the index loop with its flags yields the specified line or the specified error |
| RestoreArgvLoops.Boot | tools/warm_boot_probe.py:20-41 | the skipping loop yields the specified boot command, including the error for an unmarked or missing drive |
| RelayProofs.AppliedIsPrefix | tools/input/relay.py:103-153 | over a link that loses and duplicates records both ways: applied packets are a prefix of those sent, each once, in ascending sequence, and acked <= applied <= sent <= acked + 1 |
| RelayProofs.NothingAppliedWhenStale | tools/input/dvm_input.c:251-270 | a helper whose last sequence is above the relay's first one never applies anything, in any run |
| RelayProofs.HelperHearsIff | tools/input/dvm_input.c:251-270 | some run applies something if and only if the helper's last sequence is not above the relay's first |
| RelayHelper.AnswersIff | tools/input/dvm_input.c:249-270 | after any records the helper is silent exactly to one that is malformed or not later than all before, and answers the others: always well to a ping, with refusal to a tap while a finger is down, else as the event service did |
| RelayHelper.HelperIs | tools/input/dvm_input.c:249-270 | after any records the helper holds the latest number seen, and a finger exactly when the latest live touch that was taken and posted is a press |
| RelayProofs.CoalescingKeepsEdges | tools/input/relay.py:17-31 | sent-then-queued events are an ordered selection of those that arrived holding the first and last of every same-button run, and the queue never exceeds 64 |
| RelayProofs.AtMostTwoPerRun | tools/input/relay.py:23-31 | no three neighbours in the queue have the same button state |
| RelayProofs.GuestSeesThePresses | tools/input/relay.py:103-153 | end to end, the guest's press/release sequence is a prefix of the user's, and what is kept has all of it |
| Relay.RelayLoop.Arrive | tools/input/relay.py:17-31 | replacing or appending on the shared queue is the specified step, errors included |
| Relay.RelayLoop.Send | tools/input/relay.py:123-153 | at most one packet in flight: the oldest record leaves with the next sequence number, or nothing happens |
| Relay.RelayLoop.Reply | tools/input/relay.py:108-121 | only an acknowledgement of the packet in flight counts, and a failure ends the relay |
| Relay.HelperLoop.Line | tools/input/dvm_input.c:251-270 | a malformed or old record changes nothing and gets no answer; any other moves the sequence on and is answered once |
| HvfProofs.BranchInvertedIff | hvf-probe/hvf_probe.c:259 | the processor reads an encoded branch as its distance if and only if that is a multiple of four within 2^27 bytes |
| HvfProofs.ScannerAgrees | tools/re/kxref.py:33-40 | the scanner's sign extension reads every B word as the processor does |
| HvfProofs.ScannerInvertsIff | tools/re/kxref.py:33-40 | the scanner inverts the encoder on exactly the distances the encoder can express |
| HvfProofs.SysFieldIsUnique | hvf-probe/hvf_probe.c:245-249 | different system registers never share operand bits |
| HvfProofs.MrsReads | hvf-probe/hvf_probe.c:250 | the word decodes as a read of that system register into that register |
| HvfProofs.MsrReads | hvf-probe/hvf_probe.c:251 | the word decodes as a write of that system register from that register |
| HvfProofs.MovzReads | hvf-probe/hvf_probe.c:252 | the word decodes as a zeroing move of that half-word |
| HvfProofs.MovkReads | hvf-probe/hvf_probe.c:253 | the word decodes as a keeping move of that half-word |
| HvfProofs.StrReads | hvf-probe/hvf_probe.c:254 | the word decodes as a 64-bit store at base plus offset |
| HvfHandler.MoveRuns | hvf-probe/hvf_probe.c:270-276 | executed, the four emitted words leave any 64-bit constant in the register and change nothing else |
| HvfHandler.SlotBranches | hvf-probe/hvf_probe.c:415-416 | each of the sixteen vector slots branches to the handler |
| HvfHandler.HandlerServes | hvf-probe/hvf_probe.c:417-426 | executed word by word for any ESR and ELR, the handler stores both at their doorbells, returns to ELR for classes 0x15 to 0x17 and to ELR + 4 otherwise, and keeps all registers but its three scratch ones |
| HvfHandler.VectorsServe | hvf-probe/hvf_probe.c:413-427 | the same from any slot of a table, within fifteen instructions |
| HvfHandler.InstalledVectorsServe | hvf-probe/hvf_probe.c:428-431 | both installed tables serve their own level's exceptions at their own doorbells |
| HvfAssembler.Assembler.Emit | hvf-probe/hvf_probe.c:243 | one word is placed at the cursor, and the cursor moves four bytes |
| HvfAssembler.Assembler.Mov64 | hvf-probe/hvf_probe.c:270-276 | four words at the cursor, everything outside them unchanged |
| HvfAssembler.Assembler.GenVectors | hvf-probe/hvf_probe.c:413-427 | after the emitting loop the table lies in memory as specified, and nothing below it changed |
| HvfAssembler.Assembler.InstallVectors | hvf-probe/hvf_probe.c:428-431 | assembling the second table leaves the first one whole |
| DcpInterpreterProofs.CondIsComparison | tools/re/dcp_dtable.py:107-136 | after the interpreter's subtraction each condition is the signed or unsigned integer comparison it names, for all operands and both widths |
| DcpInterpreterProofs.AdditionFlags | tools/re/dcp_dtable.py:116-125 | after its addition carry is unsigned overflow, overflow is signed overflow, and N and Z describe the reduced sum |
| DcpInterpreterProofs.StepWritesOnly | tools/re/dcp_dtable.py:139-258 | an executed instruction changes at most its destination register, zero-extended for w-writes |
| DcpInstructions.BitwiseLeaves | tools/re/dcp_dtable.py:197-200 | each bit the instruction leaves is the conjunction, disjunction or exclusion of its operands' bits |
| DcpInstructions.ShiftLeaves | tools/re/dcp_dtable.py:201-204 | each bit it leaves is the one `count` places away, zero where there is none; a negative count is refused |
| DcpInstructions.MovkLeaves | tools/re/dcp_dtable.py:160-166 | sixteen bits become those of the immediate, all others stay |
| DcpInstructions.MovLeaves | tools/re/dcp_dtable.py:154-159 | the register holds the operand, cut to its width |
| DcpInstructions.ArithLeaves | tools/re/dcp_dtable.py:167-196 | the register holds first operand plus or minus the shifted or extended second at the instruction's width; the flags, where set, are those of the difference or the sum |
| DcpInstructions.CselLeaves | tools/re/dcp_dtable.py:205-206 | the first operand where the condition holds, the second elsewhere |
| DcpInstructions.CsnegLeaves | tools/re/dcp_dtable.py:207-209 | the first operand where the condition holds, elsewhere the number that cancels the second |
| DcpInstructions.CsetLeaves | tools/re/dcp_dtable.py:210-211 | one where the condition holds, zero elsewhere |
| DcpInstructions.CcmpLeaves | tools/re/dcp_dtable.py:212-219 | the flags of the difference where the condition holds, elsewhere the four bits of the immediate |
| DcpInstructions.AdrLeaves | tools/re/dcp_dtable.py:220-223 | the address, cut to the register's width |
| DcpInstructions.LoadLeaves | tools/re/dcp_dtable.py:224-281 | the word at base plus index, least byte first, sign-extended or not, or the error |
| DcpInstructions.BranchGoes | tools/re/dcp_dtable.py:232-251 | where each branch goes: a compare-and-branch by the register being zero, a test-and-branch by that bit, a register branch to its number, an authenticated one through the fixup word |
| DcpInstructions.RetReturns | tools/re/dcp_dtable.py:252-253 | a return answers the address that register zero names |
| DcpInterpreterProofs.StepKeepsSound | tools/re/dcp_dtable.py:100-105 | an executed instruction keeps every register below 2^64 |
| DcpInterpreterProofs.RunKeepsSound | tools/re/dcp_dtable.py:139-258 | so does every state of every run |
| DcpInterpreterProofs.RangeByOneSubtraction | tools/re/dcp_dtable.py:107-125 | one 32-bit subtraction and one unsigned comparison accept exactly base <= name < base + n |
| DcpInterpreterProofs.SwitchChecksRange | tools/re/dcp_dtable.py:167-236 | the interpreted head of a switch passes exactly those names on, with their index, and sends all others to the default |
| DcpInterpreterProofs.TableJumps | tools/re/dcp_dtable.py:220-246 | an interpreted jump table goes to the table plus the sign-extended entry of the index |
| DcpInterpreterProofs.SwitchDispatches | tools/re/dcp_dtable.py:139-258 | a whole switch, for every name: default outside the range, the name's own entry inside |
| DcpInterpreterProofs.RunAfter | tools/re/dcp_dtable.py:139-145 | a run is its first n instructions followed by a run from where they end |
| DcpInterpreterProofs.RebaseTwiceIff | tools/re/dcp_dtable.py:58-67 | translating a fixup word twice is translating it once if and only if the word is already an address, is no fixup, or has an offset that stays in the kernel's 4 GiB |
| DcpInterpreterProofs.LoadIff | tools/re/dcp_dtable.py:45-52 | a load succeeds if and only if its range lies in the image, or below it by no more than the image's length; it gives the bytes there, or those as far from the end |
| DcpInterpreterProofs.EffectiveIsNamedIff | tools/re/dcp_dtable.py:260-281 | the computed address is base plus index modulo 2^64 if and only if the unreduced sum stays below 2^64: for a negative index, if and only if base plus index is negative |
| DcpInterpreterProofs.LoadReadsItsWordIff | tools/re/dcp_dtable.py:260-281 | a load reads at the address it names if and only if the sum does not leave 64 bits and the range lies in the image |
| DcpInterpreterProofs.LoadsByPosition | tools/re/dcp_dtable.py:224-231 | the two load instructions, for every operand: the bytes at that position, sign-extended or cut, into the register, or the error |
| DcpInterpreterProofs.NegativeIndexNeverLoads | tools/re/dcp_dtable.py:260-281 | a load at an image address plus a negative index fails on every image of fewer than 2^63 bytes, because only the index is masked; the condition for all loads is `LoadReadsItsWordIff` |
| DcpEmulator.Emu.Write | tools/re/dcp_dtable.py:92-105 | reading a written register back gives the value cut to its name's width, its 64-bit name shows nothing above that, and every other register reads as before |
| DcpEmulator.Emu.Compute | tools/re/dcp_dtable.py:107-136 | after an in-place subtraction every condition is the comparison it names; after an addition carry and overflow are those of the unsigned and the signed sum; the result is the reduced one |
| DcpEmulator.Emu.Execute | tools/re/dcp_dtable.py:145-257 | one instruction on fields that its writes and flag computations change in place: the specified step, or the specified error; the lemmas of `DcpInstructions` give the value each instruction leaves |
| DcpEmulator.Emu.Interpret | tools/re/dcp_dtable.py:139-258 | the bounded loop over fields returns what the specified run returns, or its error |
| SerialUpload.Send | tools/serial.py:376-392 | filling, sending and resetting the batch emits every part exactly once, in order, in full batches and at most one short last one |
| SerialUploadProofs.Base64RoundTrip | tools/serial.py:361 | decoding the encoding of any blob gives the blob; the text is whole groups of four (section 4 of RFC 4648) |
| SerialUploadProofs.PiecesLaws | tools/serial.py:376-378 | the pieces join to the text, none is empty or too long, and all are multiples of four when the step is |
| SerialUploadProofs.NamesAscendIff | tools/serial.py:379 | the part names are in string order if and only if there are at most 999999 of them |
| SerialUploadProofs.PartPathsAscend | tools/serial.py:379 | within that bound a later part has a later name |
| SerialUploadTransfer.LinesFit | tools/serial.py:361-387 | for every blob and accepted path, every transmitted line is at most 252 bytes and every chunk a positive multiple of four |
| SerialUploadTransfer.PartsStayInStaging | tools/serial.py:251-256 | every part file of an accepted upload lies below the staging root its path names |
| SerialUploadPaths.SafeStaysBelow | tools/serial.py:251-256 | followed component by component, an accepted path names a place at or below its staging root, and the root itself exactly when nothing behind the root's text is a name |
| SerialUploadPaths.PartsStayBelow | tools/serial.py:251-379 | every part file of an accepted upload lies strictly below the root its path names |
| SerialUploadPaths.RefusedIff | tools/serial.py:251-256 | below a root exactly the root itself and the paths with a `..` component are refused |
| SerialUploadPaths.UpLeaves | tools/serial.py:256 | one such component is enough to leave the root |
| SerialUploadTransfer.RetriesLeaveNoTrace | tools/serial.py:309-336 | whatever lost or damaged lines did to any file: once a batch is done each of its parts has been witnessed in the last attempt, is right if and only if nothing else was written over it since, and files nothing wrote to are as before |
| SerialUploadTransfer.RunBatch | tools/serial.py:320-336 | the attempt loop over one file system ends as specified |
| SerialUploadTransfer.TransferWitnessed | tools/serial.py:376-392 | when all batches are done, the marker of every part has appeared |
| SerialUploadTransfer.Upload | tools/serial.py:275-392 | an upload is refused exactly for an unsafe path, a directory that is not ASCII or a path that leaves no room; otherwise its batches carry exactly the blob's parts, with the path's directory and chunk size, and end as specified |
| SerialUploadJoin.JoinGivesTheBlobIff | tools/serial.py:402-405 | with every part right, the files the glob meets join in name order to the Base64 text if and only if no stray text lies among them |
| SerialUploadJoin.UploadDelivers | tools/serial.py:361-405 | for every accepted path whose markers all appeared without collision: all parts are right if and only if none was written over behind its marker, and then the guest's join is the blob's text if and only if nothing stray lies in the part directory |
| SerialUploadJoin.ShortenedPathIsStray | tools/serial.py:320-336 | one character lost from a redirect, then a good second attempt: every marker genuine, no part disturbed, and the join still meets stray text |
| SerialUploadJoin.PartsAreGlobbed | tools/serial.py:346-379 | every part file is met by the guest's glob |
| SerialUploadJoin.GlobAnswers | tools/serial.py:346-403 | whatever the guest did, the glob has an answer: the matching files, each once, in name order |
| FrameChains.ReadLinks | tools/re/live_task_threads.py:107-112 | the pass over the stack image collects exactly the 16-aligned frames whose parent ascends inside the stack and whose return address is a kernel one |
| FrameChains.LinkIff | tools/re/live_task_threads.py:19-112 | a saved pair is a link by the addresses its two words name: the kernel address of their low 48 bits whatever the tag, nothing for zero |
| FrameChains.TagsDoNotMatter | tools/re/live_task_threads.py:19-112 | two images that agree in the address bits and in which words are zero have the same links |
| FrameChains.Follow | tools/re/live_task_threads.py:115-119 | following parents ends and gives the specified chain |
| FrameChains.KernelChains | tools/re/live_task_threads.py:107-122 | the reported chains are those of two or more frames from every start, once each, longest first |
| FrameChains.ChainIsLinked | tools/re/live_task_threads.py:114-119 | consecutive frames of a chain are real links, ascending, and the last one's parent is no link |
| FrameChains.EveryLinkIsOnAChain | tools/re/live_task_threads.py:114-119 | before short chains are dropped every link lies on the chain of some link without a predecessor |
| FrameChains.ReportOmitsOnlyLoneLinks | tools/re/live_task_threads.py:114-122 | a link is missing from the report if and only if no link goes to it and it goes to none |
| FrameChains.LoneLinkIsOmitted | tools/re/live_task_threads.py:114-121 | a stack image with one link, which no chain of the report holds |
| FrameChains.InsertPlace | tools/re/live_task_threads.py:122 | a chain is placed behind every chain at least as long, those of its own length included, and before every shorter one |
| FrameChains.InsertLaws | tools/re/live_task_threads.py:122 | placing a chain by length keeps the order and the chains |

## Left out

- TimestampsNeverDecrease: does not cover a tick product beyond 64 bits, where the C arithmetic wraps; `TimestampValue` states the bound.
- ContactsOverQuietRuns: covers stretches without recoveries; `ContactsAcrossRecoveries` covers the others.
- RecoveryIsCleanIff: a second start-up inside a window is left out, because start-up happens once.
- EnumerationAgreesWithWalk: outside the heap ranges only intervals that were yielded are compared with the walk, because the enumeration prunes there on purpose.
- TouchedPageMatchesSlot: needs the page clear of slots, which `AlignedSignatureIsClear` gives for page-aligned signatures, and `SlotInAnotherPage` shows to be needed.
- ScannerAgrees: distances are 64-bit words as in the processor, where the scanner's integers are unbounded; BL differs from B in the top bit only and ADRP is not modelled.
- UploadDelivers: takes an emptied part directory as given, excludes a `cksum` collision by hypothesis, and does not let a marker of one attempt arrive during the next.
- EncodeDecodeIff: for buffers the strict parser accepts; of the others only truncated ones are covered (`TruncatedIsLost`).
- HandlerServes: the machine has the emitted instruction classes, registers, doorbell stores and the exception return, not the whole architecture.
- StepKeepsSound: starts from decoded instructions; disassembly text is not parsed, and negative immediates of the bit operations are reduced modulo 2^64 before the operation.
- ScrollIsStraight: covers a wheel batch whose first post succeeds; one whose first post fails posts nothing more and is one failed report.
- DartRead: the stream's control registers are parameters: the table register's value, and three or four levels.
- StageIff: the texts of a specification are not part of it, as the next line says; its byte strings arrive decoded.
- File names, purpose texts, helper replacement and the installer script of the guarded cache patch; the fixed replacement and the trust-cache output of `prepare_display_policy.py`.
- The `fixup_*` policy writes of `dt_fixup.py`, which are single assignments; its dictionary of properties is an ordered list with unique keys, and its tree is a value.
- Aliased nodes: the object trees of the codecs are trees, as the parsers build them.
- `int(text, 0)` is a parameter with the facts the printer's own output needs; `Path.resolve` is an arbitrary function.
- `sscanf` scanning, overlong lines and 64-bit sequence overflow on the input link; scripted taps, swipes, Home presses and pings of `relay.py`; its timeout is the relay's giving up.
- The `--validate` mode of the daemon, HID event construction and the services behind it: a dispatch succeeds or fails.
- The GXF stub and the translation tables that `install_fixed_code` also writes, and the probes themselves.
- The shell commands that prepare, join, check and remove upload files, and the upload of an empty file, for which the guest's glob matches nothing.
- Threads' user-space chains and the JSON report of `live_task_threads.py`.
- Of `warm_boot_postmortem.py` only physical and task reads: kernel translation through the monitor, the process list and its reports are left out; captures start at word boundaries.
- Recursion limits, sockets, files, processes, clocks and SHA-256 internals.
