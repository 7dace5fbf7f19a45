# Graph switching, argument parsing and their neighbours in GlusterFS

A Dafny 4.11 model of seven parts of this GlusterFS tree, with proofs about them.

* **Graph switching in libgfapi** (`api/src/glfs-resolve.c`, `glfs-master.c`, `glfs.c`). A mount has an
  active, a next and an old translator graph, each with a reference count. `GraphState` gives the
  atomic steps that threads take on the mount, one step for each stretch of code between taking
  `fs->mutex` and giving it up, and one for sending PARENT_DOWN, which happens after the mutex was given up; a thread
  that gives the mutex up around a network call is "in flight".
  `GraphSafety` proves the invariant of every interleaving, `GraphHandover` what follows from it for
  operations, handles and the working directory, and `GraphExamples` gives reachable states in which
  stronger claims fail. `Mount` has the mount as an object whose methods follow the source; each method is
  proved to perform a run of those steps.
* **The argp parser** (`argp-standalone/argp-parse.c`). `ArgvRotate` is the in-place rotation of two
  blocks of argv. `ArgpSpec` says what a parse is meant to do with no permuting at all, `ArgpParser` is the
  parser object that permutes argv as it goes and is proved to do the same, `ArgpPermute` and
  `ArgpWholeParse` say what a parse comes to as a whole, when it permutes argv or demands options first, and
  `ArgpRefusal` when an option that its own parser does not know is an error. `ArgpSweep` is about the calls around a parse, `ArgpTable` about option lookup, `ArgpGroups` about the table of groups made from a tree of argps,
  `ArgpInputs` about the inputs that parents hand to children, and `ArgpFamily` about the order in which they are called.
* **The argp help index** (`argp-standalone/argp-help.c`). `HelpIndex` builds the entries and the shared
  string of short options, and compares what is listed with what the parser dispatches.
* **The argp usage patterns** (same file). `UsageOdometer` is the odometer over the tree of argps that puts
  out every combination of alternative argument lines.
* **The directory read cache** (`api/src/glfs-fops.c`). `DirCache` compares cached batches with a plain cursor.
* **Path resolution** (`api/src/glfs-resolve.c`). `PathTree` has pathnames, `PathResolve` the loop, recursion and
  inode cache of the code. `PathWalk` shows that this comes down to a walk in which the contents of a link replace its
  name. `PathPosix` has resolution as section 4.13 (Pathname Resolution) of POSIX.1-2017 Base Definitions describes it on
  strings, with both of the choices the section leaves for an empty link. `PathAgreement` proves exactly where the two agree.
* **The brick order check** (`cli/src/cli-cmd-volume.c`, `cli-cmd-parser.c`): `BrickOrder`.

Code that updates things in place is modelled by classes, arrays and loops, and proved against functions on
values; code that only computes is modelled by functions. Network calls, callbacks of the application,
backend batches, address lookups and what the event thread does meanwhile are parameters.

## What the code does otherwise than one might expect

Most of these are lemmas; where a claim fails, the exact condition under which it holds is proved beside it.

* The graph that `glfs_active_subvol` hands out need not be the one it made active: a CHILD_UP during the switch can
  leave another graph in the next slot. After a switch the two agree exactly if that slot names the graph of the switch when
  the slots move, which it does again if the graph is superseded and comes up once more (`HandedIsActiveIff`,
  `HandedGraphNeedNotBeActive`, `SupersededAndReadmitted`).
* A graph that is superseded before it was ever active is torn down without being marked as switched, and can
  come back (`SupersededGraphCanReturn`). One that was marked cannot: a graph without references stays so in every run
  exactly if it was marked (`DownForGoodIff`).
* `glfs_subvol_done` sends PARENT_DOWN after it has given the mutex up. If the graph comes back in between, PARENT_DOWN
  reaches a graph that is active and in use (`ActiveGraphIsSentDown`). A PARENT_DOWN still to be sent can reach the graph
  only without references exactly if the graph was marked as switched (`SentDownUnusedIff`).
* In the last lookup of a superseded switch the graph being left is not marked yet, so that a CHILD_UP on it
  makes it the next graph (`SwitchedGraphCanBeNext`).
* An object handle resolves into the active graph, which is the caller's exactly if that one is still active
  (`ObjectIsInCallersGraphIff`).
* `glfs_fchdir` ignores the result of setting the working directory and reports success (`Fchdir`).
* `argp-standalone/argp.h:180-184` offers a parser that accepts ARGP_KEY_ARGS a way to take fewer than all remaining
  arguments, by moving `next` itself; the code sets `next` to argc in any case. `argp-standalone/argp.h:170` says that no
  call follows ARGP_KEY_ERROR; the code still sends ARGP_KEY_FINI (`GroupSeesParse`). The model follows the code.
* A short option leaves `arg_ebadkey` as it is, where a long one clears it. When arguments are delivered in order, a
  short option that its own parser does not know ends the parse as if all had gone well, exactly if the last argument or
  long option before it is an argument (`RefusalIsSwallowedIff`, `SwallowedRefusal`).
* If groups that do not know an argument move `next` to argc all the same, a later group that takes the argument leaves
  `next` one past argc, and the parse ends with too many arguments (`ParseArg`, `Finalize`).
* A documentation entry that carries a printable key hides a later option from the parser but not from the help
  (`DocEntryBreaksAgreement`, `HelpShorts`).
* A level of the usage odometer is a signed char; with more than 128 lines in one ARGS_DOC the usage loop never
  ends (`UsageStopsIff`).
* Path resolution forgets slashes at the end of a path or of a link: it finds a file under its name with a slash, and the
  starting directory for the null path. A link whose contents are empty or several slashes leaves the type unfilled, so
  that a following component is refused (`AgreesIff`, `GoodLinksIff`, `NullPathAndSlashedFile`).
* A name that is missing after a link gives the return code 0 without an inode (`MissAfterLink`, `ZeroMeansInodeIff`),
  which is why results are stated in terms of the inode.
* The brick order check walks a ring; it is right for all addresses exactly if the last replica set lacks at most
  one brick (`RightIff`). Volume creation multiplies stripe and replica count in 32 bits; it lets only whole sets through
  exactly if what is left is a multiple of the replica count, or is -2^31, of which no brick count is a multiple
  (`WholeSetsIff`, `OverflowCutsSets`), and divides by zero if nothing is left (`DividesByZeroIff`).

## Model

| member | source | states |
|---|---|---|
| `GraphState.NextToMigrate` | api/src/glfs-resolve.c:719-729 | the walk over open fds stops at the first one with a gfid, and skips only ones without |
| `GraphState.RefreshInode` | api/src/glfs-resolve.c:76-117 | an inode moved to another graph keeps its gfid and lies in that graph; one already there never fails |
| `GraphState.MigrateFdSafe` | api/src/glfs-resolve.c:551-653 | an fd moved to another graph keeps its gfid and flags and lies in that graph |
| `GraphSafety.ApplyKeepsInv` | api/src/glfs-resolve.c:677-946 | every step of every thread keeps the invariant: exact counters, slots in order, what a thread in flight relies on |
| `GraphSafety.RunKeepsInv` | api/src/glfs-resolve.c:738-841 | so does every run, whatever the interleaving |
| `GraphSafety.ReachableStatesAreCounted` | api/src/glfs-resolve.c:738-841 | in every reachable state `winds` of each graph is the number of its holders, of the slots that name it and of drops not yet executed |
| `GraphSafety.SetupKeepsInv` | api/src/glfs-master.c:42-73 | a new graph, superseding another or not, keeps the invariant also in the middle of a switch |
| `GraphSafety.CommitKeepsInv` | api/src/glfs-resolve.c:778-790 | moving the slots at the end of a switch loses no reference, even if the next graph is not the one looked up |
| `GraphHandover.HandedGraphIsAlive` | api/src/glfs-resolve.c:793-818 | a graph is handed to an operation only with a reference on it, and gains exactly one |
| `GraphHandover.LastReferenceIsUnused` | api/src/glfs-resolve.c:821-838 | only a release decides on PARENT_DOWN, and then the graph is not active, as the source asserts, and nobody refers to it |
| `GraphHandover.DownSentExactlyByNotify` | api/src/glfs-resolve.c:835-839 | PARENT_DOWN is sent only by a thread that took the last reference, once for each time, at any later moment |
| `GraphHandover.RevivedExactlyBySetup` | api/src/glfs-master.c:44-65 | a graph without references gets one exactly by a CHILD_UP on a graph that was never switched away from |
| `GraphHandover.RetiredGraphStaysDown` | api/src/glfs-resolve.c:806-835 | once switched away from and without references, no run raises the count again or decides on another PARENT_DOWN |
| `GraphHandover.DownForGoodIff` | api/src/glfs-master.c:44-65 | a graph without references stays so in every run if and only if it was switched away from |
| `GraphHandover.SentDownUnusedIff` | api/src/glfs-resolve.c:835-839 | a PARENT_DOWN decided on but not sent reaches the graph without references in every run if and only if it was switched away from |
| `GraphHandover.SlotsNeverLoseAReference` | api/src/glfs-resolve.c:778-780 | what leaves a slot goes to the next slot or to a pending drop; the old slot is empty when a switch commits |
| `GraphHandover.FrozenWhileInFlight` | api/src/glfs-internal.h:149-161 | until a thread in flight resumes, only steps that do not go through glfs_lock run, and active and old graph, cwd, open fds and fds stay as they are |
| `GraphHandover.FlightCanResume` | api/src/glfs-resolve.c:58-73 | the thread in flight, and no other, can take the mutex back, with all it needs still there |
| `GraphHandover.HandleKeepsIdentity` | api/src/glfs-resolve.c:656-735 | over any run of switches and of moves that succeed or fail, a bound handle keeps its gfid and flags |
| `GraphHandover.ResolvedFdIsInHeldGraph` | api/src/glfs-resolve.c:677-710 | a resolved fd lies in the graph its caller holds, which is alive, whichever graph is active by then |
| `GraphHandover.GottenCwdIsInActiveGraph` | api/src/glfs-resolve.c:879-909 | a working directory handed out lies in the active graph and has the stored gfid |
| `GraphHandover.SwitchesKeepCwd` | api/src/glfs-resolve.c:759-785 | no run without a cwd set changes the gfid of the working directory |
| `GraphHandover.ReachableSwitchesKeepCwd` | api/src/glfs-resolve.c:844-876 | the same from every reachable state, also in the middle of a switch |
| `GraphHandover.HandedIsActiveIff` | api/src/glfs-resolve.c:745-790 | whenever a graph is handed out it is the active one if and only if no switch was needed, or the next slot names the graph of the switch when the slots move |
| `GraphHandover.ObjectIsInCallersGraphIff` | api/src/glfs-resolve.c:911-946 | an object keeps its gfid, and is in its caller's graph if and only if it was there or that graph is active; the object itself is repointed exactly then |
| `GraphHandover.HeldGraphIsNotTornDown` | api/src/glfs-resolve.c:793-841 | over every run of all threads, a graph on which one hold is left keeps a reference, and no PARENT_DOWN is decided on; those decided on earlier may still arrive |
| `GraphExamples.HandedGraphNeedNotBeActive` | api/src/glfs-resolve.c:778-790 | a reachable state in which the graph handed out is not the active one |
| `GraphExamples.SupersededAndReadmitted` | api/src/glfs-master.c:44-65 | a reachable state in which a graph superseded during the switch came up again, and is handed out and active |
| `GraphExamples.SupersededGraphCanReturn` | api/src/glfs-master.c:44-73 | a reachable state in which a graph is next after its PARENT_DOWN |
| `GraphExamples.ActiveGraphIsSentDown` | api/src/glfs-resolve.c:835-839 | a reachable state in which PARENT_DOWN is still to be sent to a graph that is active and held, and the state in which it was |
| `GraphExamples.CwdIsResetAfterSupersession` | api/src/glfs-resolve.c:778-785 | a reachable state in which the cwd found for the switch is not in the graph made active |
| `GraphExamples.SwitchedGraphCanBeNext` | api/src/glfs-resolve.c:806-810 | a reachable state in which a graph is next and marked switched |
| `Mount.Glfs.GraphSetup` | api/src/glfs-master.c:29-76 | the setup step; the superseded graph is returned for its release |
| `Mount.Glfs.LockedSubvolDone` | api/src/glfs-resolve.c:830-838 | the release step, and the count it leaves: zero exactly if nobody refers to the graph, which is then not active |
| `Mount.Glfs.SubvolDone` | api/src/glfs-resolve.c:821-841 | the release step and, exactly if it took the last reference, PARENT_DOWN after whatever the event thread does in between |
| `Mount.Glfs.Syncop` | api/src/glfs-internal.h:149-161 | a network call: setups happen meanwhile, and only next slot and counters change |
| `Mount.Glfs.MigrateOpenfds` | api/src/glfs-resolve.c:713-735 | the walk over the open fds performs the migration steps up to the commit, in list order |
| `Mount.Glfs.CommitSwitch` | api/src/glfs-resolve.c:778-790 | the commit, with the further lookup of the cwd if the graph was superseded |
| `Mount.Glfs.SwitchGraphs` | api/src/glfs-resolve.c:738-791 | a whole switch is a run of steps; it yields nothing or the graph that was next at its start |
| `Mount.Glfs.LockedActiveSubvol` | api/src/glfs-resolve.c:799-812 | the locked part as a run of steps: one hold more, the graph of the old slot taken out for its release |
| `Mount.Glfs.ActiveSubvol` | api/src/glfs-resolve.c:793-818 | a run of steps that keeps the invariant and ends with the caller holding the graph, the mount free to lock, handles and cwd denoting the same files |
| `Mount.Glfs.ResolveFd` | api/src/glfs-resolve.c:677-710 | the fd is in the caller's graph; the handle is repointed exactly if that graph is active |
| `Mount.Glfs.GetCwd` | api/src/glfs-resolve.c:879-909 | the cwd in the active graph or none, nothing stored |
| `Mount.Glfs.SetCwd` | api/src/glfs-resolve.c:844-876 | the cwd becomes the given directory in the active graph, or stays on failure |
| `Mount.Glfs.ResolveInode` | api/src/glfs-resolve.c:911-946 | an object's inode in the caller's graph or in the active one, with the object repointed only into the caller's |
| `Mount.Glfs.Fsync` | api/src/glfs-fops.c:967-997 | a whole operation: the call goes to the held graph with an fd in it, and no hold is left over, whether it got a graph, an fd or neither |
| `Mount.Glfs.Fchdir` | api/src/glfs-fops.c:2764-2805 | a whole operation that sets the cwd to the directory of the fd or leaves its gfid, and reports success also when the cwd could not be set |
| `ArgvRotate.Rotate` | argp-standalone/argp-parse.c:812-867 | for all block lengths argv ends with the two blocks swapped, each in its order, all else untouched; it terminates |
| `ArgvRotate.SwappingKeepsElements` | argp-standalone/argp-parse.c:812-867 | a rotation is a permutation |
| `ArgpTable.FindShort` | argp-standalone/argp-parse.c:318-338 | the first option with the key, or none if there is none |
| `ArgpTable.MatchOption` | argp-standalone/argp-parse.c:349-372 | exact if the name ahead of '=' is the option's, partial if a proper prefix of it |
| `ArgpTable.FindLongMeans` | argp-standalone/argp-parse.c:374-421 | the first exact match, else the only partial match, else none |
| `ArgpSpec.DeliverMeans` | argp-standalone/argp-parse.c:755-801 | the first group that knows the argument takes it, after all before it refused it alone and with all that follow; that group alone is credited, with one or with all |
| `ArgpParser.Parser.Exchange` | argp-standalone/argp-parse.c:812-867 | the rotation with the indices of the skipped segment relocated |
| `ArgpParser.Parser.ParseArg` | argp-standalone/argp-parse.c:755-801 | the loop over groups delivers as specified, credits the taker, always advances on success, to one past argc at most, and leaves args_only as it was |
| `ArgpParser.Parser.EndOfArgv` | argp-standalone/argp-parse.c:1027-1047 | skipped arguments are rotated to the end and become what is left, or the parse ends |
| `ArgpParser.Parser.SkipArgument` | argp-standalone/argp-parse.c:1058-1077 | permuting past an argument keeps the specified outcome |
| `ArgpParser.Parser.Quote` | argp-standalone/argp-parse.c:1091-1113 | `--` ends the options; skipped arguments are moved behind it |
| `ArgpParser.Parser.ShortOption` | argp-standalone/argp-parse.c:952-1012 | one letter of a cluster, with the rest of the cluster or the next argument as its value |
| `ArgpParser.Parser.LongOption` | argp-standalone/argp-parse.c:1115-1189 | a long option, with its '=' part or the next argument as its value |
| `ArgpParser.Parser.ParseNext` | argp-standalone/argp-parse.c:935-1200 | every way through makes lexicographic progress, keeps the indices in order and argv a permutation, and keeps the specified outcome |
| `ArgpParser.Parser.ParseLoop` | argp-standalone/argp-parse.c:1247-1249 | the loop terminates in all orderings for parsers that do not move `next` back, and ends as the left-to-right specification says |
| `ArgpParser.Parser.Finalize` | argp-standalone/argp-parse.c:659-748 | the closing calls: NO_ARGS and END exactly if all of argv was consumed and nobody objects, SUCCESS or ERROR, FINI to every group; the result, and where argv was left |
| `ArgpParser.ArgpParse` | argp-standalone/argp-parse.c:1207-1253 | the calls of a whole parse are INITs, work and closing; argv is a permutation; calls, argv and the index left are as specified; an error or an option refused with `arg_ebadkey` clear is the result; an index other than argc is an error unless asked for; INIT goes to all groups, or up to the first that fails |
| `ArgpParser.GroupSeesParse` | argp-standalone/argp-parse.c:617-748 | one group sees INIT, its options and arguments, then NO_ARGS, END and the outcome at most once each, and one FINI last |
| `ArgpSweep.GroupSeesClosing` | argp-standalone/argp-parse.c:659-748 | what one group sees of the closing calls |
| `ArgpFamily.ParseKeepsFamilyOrder` | argp-standalone/argp-parse.c:617-740 | for groups made from a tree, INIT reaches a parent before its child, and END, SUCCESS and FINI reach the child before its parent |
| `ArgpFamily.ParseTree` | argp-standalone/argp-parse.c:1207-1253 | the same of the calls of a whole parse of a tree, whose groups mirror the tree; the groups that get their INIT, up to the first that fails, get their inputs from their parents |
| `ArgpInputs.HandDown` | argp-standalone/argp-parse.c:629-636 | an initialised group fills its own slots of the shared vector and no other |
| `ArgpInputs.InitInputs` | argp-standalone/argp-parse.c:619-637 | every group that is reached finds in its parent's slot the input its parent handed down, until a parser fails |
| `ArgpRefusal.FlagInScan` | argp-standalone/argp-parse.c:935-1185 | when a scan in order stops at an option its parser does not know, `arg_ebadkey` is as the elements before the option tell: set by an argument, cleared by a long option |
| `ArgpRefusal.RefusalIsSwallowedIff` | argp-standalone/argp-parse.c:1010-1011 | of a whole parse that stops so: the flag is set if and only if arguments are delivered in order and the last argument or long option is an argument |
| `ArgpRefusal.ParseRefused` | argp-standalone/argp-parse.c:659-748 | such a parse reports EINVAL and an error to all groups if the flag is clear, and is otherwise closed as one that went well |
| `ArgpRefusal.SwallowedRefusal` | argp-standalone/argp-parse.c:1010-1011 | `a -x` with a parser that does not know its own `x` ends with the flag set and all of argv consumed; `-x` alone does not |
| `ArgpPermute.ScanFollowsPlan` | argp-standalone/argp-parse.c:935-1200 | with accepting parsers the scan makes the planned option calls and leaves the planned partition |
| `ArgpPermute.ArgsAreDelivered` | argp-standalone/argp-parse.c:755-801 | the other arguments are delivered one by one in order |
| `ArgpPermute.OptionsFirstParse` | argp-standalone/argp-parse.c:935-1200 | calls are options left to right, then arguments set aside, then those behind the end of the options; argv is the stable partition |
| `ArgpPermute.StrictPlanKeepsOrder` | argp-standalone/argp-parse.c:1079-1082 | when the first argument ends the options, that partition is argv as it was |
| `ArgpWholeParse.WholeOutcome` | argp-standalone/argp-parse.c:1247-1249 | the same as the outcome of the parser from its start on argv |
| `ArgpWholeParse.ParseOptionsFirst` | argp-standalone/argp-parse.c:1207-1253 | the same of a whole in-place parse of an array |
| `ArgpGroups.Converter.ConvertOptions` | argp-standalone/argp-parse.c:436-488 | exactly the counted groups, which mirror the tree; parents first, slices of child inputs disjoint and within the count, no slot shared |
| `ArgpGroups.MirrorIsPreorder` | argp-standalone/argp-parse.c:489-491 | groups that mirror a tree are its argps in pre-order, as many as were counted |
| `ArgpGroups.Converter.ConvertChildren` | argp-standalone/argp-parse.c:479-485 | the same of the loop over the children |
| `HelpIndex.CursorTest` | argp-standalone/argp-help.c:551-574 | the character test at the cursor tells options that keep their letter from shadowed ones |
| `HelpIndex.MakeEntry` | argp-standalone/argp-help.c:475-498 | one entry is an option and its aliases, pointing at its first letter |
| `HelpIndex.MakeHol` | argp-standalone/argp-help.c:437-503 | the index of one argp covers its options, and its string holds the letters that are not shadowed |
| `HelpIndex.HolAppend` | argp-standalone/argp-help.c:834-919 | merging gives the index of both, the first shadowing the second |
| `HelpIndex.ArgpHol` | argp-standalone/argp-help.c:1365-1384 | the index of a whole tree |
| `HelpIndex.ShortIterate` | argp-standalone/argp-help.c:551-574 | iterating an entry gives its visible, unshadowed options in order, each with the option it is an alias of |
| `HelpIndex.SortedEntriesPartition` | argp-standalone/argp-help.c:824-830 | however entries are sorted, every option lies in exactly one |
| `HelpIndex.ShortsHoldEachKeyOnce` | argp-standalone/argp-help.c:437-503 | the string holds the printable keys of all options, each once |
| `HelpIndex.SameOptions` | argp-standalone/argp-parse.c:436-488 | help index and parser table go through the same options in the same order |
| `HelpIndex.ListShorts` | argp-standalone/argp-help.c:551-574 | going through the entries in any order, by their pointers into the shared string, lists every visible option that keeps its letter, each once |
| `HelpIndex.VisibleIsDispatchedIff` | argp-standalone/argp-help.c:437-503 | such a list agrees with find_short_option on all visible options if and only if documentation entries are harmless |
| `HelpIndex.HelpShorts` | argp-standalone/argp-help.c:1365-1384 | the list made for a tree from its merged index and string, under any sorting, is what the parser dispatches if and only if documentation entries are harmless |
| `HelpIndex.DocEntryBreaksAgreement` | argp-standalone/argp-parse.c:318-338 | a documentation entry with a key makes the two differ |
| `UsageOdometer.ValueInjective` | argp-standalone/argp-help.c:1409-1462 | the reading of the odometer tells choices of lines apart |
| `UsageOdometer.UsageAdvances` | argp-standalone/argp-help.c:1443-1461 | a call adds its advance to the mixed-radix reading, and carries out when that wraps |
| `UsageOdometer.UsageKeepsLevels` | argp-standalone/argp-help.c:1388-1462 | a call leaves a valid level vector of the same length, whatever the number of lines |
| `UsageOdometer.ArgsUsage` | argp-standalone/argp-help.c:1409-1462 | in place: exactly argp_args_levels slots consumed, their digits turned as specified, the pattern of the old digits put out, no other slot touched |
| `UsageOdometer.NextPattern` | argp-standalone/argp-help.c:1443-1461 | the next reading, or after the last one all levels zero |
| `UsageOdometer.PrintUsages` | argp-standalone/argp-help.c:1600-1648 | the loop prints every combination of lines exactly once and stops with all levels zero |
| `UsageOdometer.UsageStopsIff` | argp-standalone/argp-help.c:1427-1458 | the loop stops if and only if no ARGS_DOC has more than 128 lines |
| `DirCache.DirStream.Seekdir` | api/src/glfs-fops.c:1806-1831 | a seek to a position puts the cursor there, and keeps the cache exactly if that has the entry to go on with |
| `DirCache.DirStream.Telldir` | api/src/glfs-fops.c:1799-1803 | the offset told is that of the cursor |
| `DirCache.DirStream.EntryRefresh` | api/src/glfs-fops.c:1855-1915 | the cache becomes a batch from the cursor on, is emptied at the end, and stays on an error |
| `DirCache.DirStream.EntryNext` | api/src/glfs-fops.c:1918-1942 | the next entry of the stream, its end, or an error that leaves the cursor; the backend is asked exactly if the cache has nothing |
| `DirCache.RunOps` | api/src/glfs-fops.c:1799-1942 | any sequence of reads, tells and seeks with any batch sizes behaves like a plain cursor |
| `DirCache.ReadsFollowTheStream` | api/src/glfs-fops.c:1918-1942 | between seeks no entry is skipped, repeated or out of order |
| `DirCache.SeekUndoes` | api/src/glfs-fops.c:1799-1831 | seeking to a told offset returns to where it was told |
| `PathResolve.Resolver.ResolveComponent` | api/src/glfs-resolve.c:220-312 | the child and its type, from the cache or by a lookup, and a cache that still agrees with the tree |
| `PathResolve.Resolver.ResolveAt` | api/src/glfs-resolve.c:315-454 | inode, type, parent and return code do not depend on cache or forced lookups; terminates on every tree |
| `PathResolve.ResolveKind` | api/src/glfs-resolve.c:358-445 | the type reported is that of the inode, or unfilled only through an improper link or path |
| `PathResolve.InodeMeansZero` | api/src/glfs-resolve.c:439-445 | an inode comes with the return code 0 |
| `PathResolve.MissAfterLink` | api/src/glfs-resolve.c:366-404 | a name missing behind a link leaves the return code 0 without an inode |
| `PathWalk.ResolveIsSound` | api/src/glfs-resolve.c:348-422 | resolving a path and going on is a walk in which links' contents replace their names, relative ones from their directory, absolute ones from the root |
| `PathWalk.ResolveIsComplete` | api/src/glfs-resolve.c:348-422 | whatever that walk gets to, with anything after it, resolution finds, and reports as a directory if something follows |
| `PathWalk.ResolveIsFlat` | api/src/glfs-resolve.c:315-454 | for every tree, path and depth an inode is found if and only if that walk gets to it |
| `PathWalk.ParentIsPrefix` | api/src/glfs-resolve.c:424-437 | a parent that is set is where the walk of all but the last component leads, and the name is the last component |
| `PathWalk.LinkToItself` | api/src/glfs-resolve.c:377-407 | a link that leads to itself yields no inode |
| `PathWalk.ZeroMeansInodeIff` | api/src/glfs-resolve.c:366-453 | where no directory holds every name, the return code 0 always comes with an inode if and only if no proper link walks to a directory |
| `PathPosix.PosixPathIsPathname` | api/src/glfs-resolve.c:315-454 | the reference on filenames is the resolution of section 4.13 on the string, with null path, trailing slashes and contents put ahead of the rest |
| `PathAgreement.AgreesIff` | api/src/glfs-resolve.c:329-445 | where links are good, the code agrees with POSIX on a path if and only if it is not null and, if it ends in a slash, names a directory |
| `PathAgreement.GoodLinksIff` | api/src/glfs-resolve.c:348-445 | agreement on all other paths holds if and only if every link has components or is the root, and ends in a slash only where it leads to directories |
| `PathAgreement.AgreementIsWithPathname` | api/src/glfs-internal.h:17 | where they agree, what is found is what section 4.13 finds, and all it finds through no more links than the limit |
| `PathAgreement.NullPathAndSlashedFile` | api/src/glfs-resolve.c:335-349 | the code finds something for the null path and for a file's name with a slash, section 4.13 nothing |
| `PathAgreement.SlashIsForgotten` | api/src/glfs-resolve.c:393-404 | a link that ends in a slash but leads to a file is found by the code alone |
| `PathAgreement.NullLinkIsFound` | api/src/glfs-resolve.c:336-340 | an empty link is found by the code where POSIX resolution fails on it |
| `PathAgreement.ImproperLinkIsLost` | api/src/glfs-resolve.c:341-421 | an empty link or one of several slashes, followed by a dot, is found by POSIX alone |
| `PathAgreement.SameDirectories` | api/src/glfs-resolve.c:412-421 | where links are good, what walks to a directory in the code does so in POSIX |
| `BrickOrder.CompareAddrinfo` | cli/src/cli-cmd-volume.c:185-211 | match, no match or error exactly as the addresses are shared, when all have a numeric form |
| `BrickOrder.CompareWithinSet` | cli/src/cli-cmd-volume.c:289-301 | a brick is compared with those after it in its set |
| `BrickOrder.CheckBrickOrder` | cli/src/cli-cmd-volume.c:217-303 | okay, bad or failed, by the pairs the loops compare on the ring |
| `BrickOrder.RightIff` | cli/src/cli-cmd-volume.c:276-303 | bad exactly if two bricks of one set share an address, for all addresses, if and only if the last set lacks at most one brick |
| `BrickOrder.WholeSetsIff` | cli/src/cli-cmd-parser.c:343-399 | for all 32-bit counts, only whole replica sets get through if and only if the wrapped product is a multiple of the replica count or is -2^31 |
| `BrickOrder.DividesByZeroIff` | cli/src/cli-cmd-parser.c:343-386 | creation divides by zero if and only if 2^32 divides the product |
| `BrickOrder.WholeSetsWithoutOverflow` | cli/src/cli-cmd-parser.c:343-399 | which holds when stripe times replica fits 32 bits |
| `BrickOrder.OverflowCutsSets` | cli/src/cli-cmd-parser.c:343-399 | counts whose product overflows and that let a cut set through, and counts that refuse every number of bricks |

## Left out

- ARGP_LONG_ONLY, ARGP_IN_ORDER flags read from the environment, help filters, translation, message printing and process exit in argp.
- Capacity of the `short_opts` string that the parser allocates.
- The order that `hol_entry_cmp` sorts by; sorting is any rearrangement of the entries.
- `hol_entry_short_iterate` stops when its callback says so; the model lets it run to the end.
- Progress and deadlock freedom of the graph switch, which depend on the event thread; safety only is proved.
- Inode tables, lookups, opens, lock healing and readlink themselves: each is a result that is passed in, with the contract that a lookup by gfid gives an inode with that gfid.
- `glfs_fini`, file reads and writes, extended attributes, asynchronous calls and the retry loops of the file operations.
- Reference counts of inodes and fds, and memory allocation failures.
- ArgpParser.Parser.ParseLoop: the outcome is tied to the specification for parsers that leave `next` alone; for parsers that move it forward termination, permutation and the shape of the calls are proved.
- ArgpParser.Parser.ParseNext: parsers that move `next` back are not modelled, as the loop then need not end; a parser that itself moves `next` past argc is taken to move it to argc, as the source would then read beyond argv.
- ArgpRefusal.RefusalIsSwallowedIff: an option of a group that has no parser at all is refused without a call, and is not covered.
- ArgpInputs.InitInputs: what a parser leaves in its children's slots is a function of its number and input; the calls themselves are in the parse.
- ArgpParser.ArgpParse: a group with a parser but no option list is given an empty list, where the source would read a null pointer; a letter that is not ASCII is an unknown option, where the source would stop at an assertion.
- DirCache.DirStream.Seekdir: seeks go to 0 or to an offset that the directory has, as the system call demands.
- Mount.Glfs.Syncop: a PARENT_DOWN that another thread sends meanwhile changes no field of the mount and is not part of the run.
- Mount.Glfs.Fsync: while the call is under way only the event thread acts; what all threads may do meanwhile is the subject of `HeldGraphIsNotTornDown`.
- PathPosix.PosixPathIsPathname: a pathname that begins with exactly two slashes is taken like any other that begins with a slash; limits on the length of names and paths are not modelled.
- PathResolve.Resolver.ResolveAt: the tree does not change during a resolution, and lookups fail only for names that are not there.
- BrickOrder.CheckBrickOrder: what the user answers to a question is not part of the model.
- The other CLI commands, argp's formatted output stream, and the RPC layer.
