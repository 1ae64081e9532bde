# Crash-state simulation, modelled and proved

The system records what a program does to files, breaks the recorded system calls into micro ops, compiles
each micro op into small disk ops, and replays chosen subsets of those to see what a crash could leave
behind. These files model that pipeline and prove what it promises. A file system is a map from (directory
inode, name) to nodes and a map from inodes to bytes; inodes without a name live on, as they do in the
`.inodes` directory of the replayer. A byte is a known byte or garbage.

| files | what they model |
|---|---|
| `FileBytes`, `FileSystem`, `Slicing` | bytes with `ftruncate` and positioned writes, trees and paths, the two slicing modes |
| `MicroOps`, `DiskOps` | the two languages and their interpreters, `replay_micro_ops` and `replay_disk_ops` |
| `Compiler`, `GetDiskOps` | the disk ops of a micro op as functions, and `get_disk_ops` with its loops, proved to compute them |
| `Agreement`, `TraceMarks` | the two interpreters against each other, over all traces and all options; what is synced and said |
| `ReplayInvariants` | what holds of every tree the two interpreters can make, and when they raise |
| `CrashStates`, `RenameLabels`, `Overwrites`, `Omissions`, `OmittedDirectories` | what prefixes and subsets of disk ops leave, and what the reporter calls it |
| `BlockWriter` | the block-wise writer of zeros and garbage |
| `Structs`, `ReplayCache` | the comparison of rows, and the cache of replayed rows that relies on it |
| `CrashPoints`, `Splitting`, `Replayer`, `Specifier` | numbering of disk ops, splitting, the editor of crash points, and the scripts that drive it |
| `WriteCalls`, `Descriptors`, `ByteDump` | write calls from the traced process to micro ops, with descriptors that share a position |
| `AddressRanges`, `MemoryRegions`, `RegionArray`, `RegionTables`, `Coalescer`, `MappedFiles` | mapped memory: the reader's table, the tracer's slot array, both over one run of calls, the joining of writes, and what all of it leaves in files |
| `XattrEscape`, `TcbTable`, `MmapCache` | three tables and buffers of the system-call tracer |

`dafny verify dfyconfig.toml` checks everything.

## How to read it

Code that works by loops and assignments is given as methods and classes, each proved equal to a function;
the functions carry the theorems. `None` (or `false`, or a named outcome) stands for an exception, a failed
assertion or an exit of the program.

A trace is *well formed* when each op fits the state it is recorded in: recorded sizes, inodes, parents and
link counts are the real ones, new inodes are new, an append starts at the end of the file, and data lies
inside its dump. Nothing is assumed about options: splits may be any positive number, and every op may have
its own.

Where the code and what it is meant to do part ways, the model follows the code, and the exact condition is
proved:

- A rename whose destination is another name of the same file does nothing, but its disk ops remove a name
  (and truncate the file when the recorded link count is one), as in `RenameOfAliasedName`. `ReplayersAgree`
  shows that this is the only source of disagreement between the two replayers.
- The reporter's labels for cut-short renames say that the source still exists while the old destination is
  truncated; it does not, as the expanded form removes the source first. The test for a rename to a new name
  compares with an op name that does not occur, so the list of such a rename is shifted by one and every
  label is wrong (`LabelIsRightIff`). A truncate is labelled by the parity of the index whether it grows or
  shrinks the file; the label is right exactly when the file grows or the index is odd
  (`TruncLabelIsRightIff`).
- `remove_overlaps` of the reader compares the start of the region where it means the end, and loses what
  lies above the hole (`ExactIff`, `LostTail`). The tracer's own version keeps both sides (`CarvedMapped`).
  So the two tables agree over a run exactly when no fixed mapping ends strictly inside a region; otherwise
  writes above it are recorded and come to nothing (`TablesAgreeIff`, `WhatIsLost`).
- A mapping may run past the end of its file, and a byte stored there is written to the replayed file, which
  grows; POSIX never writes such a byte. The replayed files are the process's exactly when no store lies
  behind the end of its file (`StoresArePosixIff`, `StoreBehindTheEnd`).
- dup2 of a descriptor onto itself does nothing in POSIX; the tracker drops the descriptor and makes no ops
  for it afterwards. It knows the process exactly as long as there is no such call (`RunIsKnownIff`).
- A truncate whose larger size is a multiple of the page size is labelled as crossing a boundary even if it
  lies within one page (`TruncAcrossBoundary`).
- Splitting an op behind the end point moves the end point to a later op (`SplitKeepsEndPoint`).
- A zero-length write behind the end of a file becomes a truncate that grows it, and one inside a file
  fails an assertion; all other calls are the POSIX write (`WriteIsPosixIff`).
- A replay that raises leaves its rows in the cache, so that the same rows succeed the next time. A cached
  call is right exactly when it does not extend failed rows by something that works on the left-over tree
  (`CallIsReplayIff`, and over runs `CallsAreReplaysIff`).
- The trimmed NUL of an extended attribute is found by reading a byte that may have been overwritten
  (`TrimIff`), and printed backslashes are not escaped (`RoundTripIff`).
- The slot array of mapped regions runs full in `remove_overlaps` exactly when all 2000 slots are in use and
  one region reaches out of the hole on both sides (`RemoveOverlaps`).
- The binary search of the map cache starts one entry too high and can take left-over memory for an entry
  (`FoundIsMeaningIff`, `StaleEntry`).

## Model

| member | source | states |
|---|---|---|
| `FileBytes.PWriteSplit` | diskops.py:375-378 | Two writes side by side are one write of the joined bytes, wherever the end of the file lies. |
| `FileBytes.ResizeThenWrite` | simulate_crashes.py:533-545 | Setting the size to the end of an append and then writing there leaves the old file (cut or filled with zeros) followed by exactly the new bytes. |
| `Slicing.SlicesChain` | diskops.py:42-53 | The slicing loop stops, and its slices are non-empty, contiguous, start at `start` and end at `end`. |
| `Slicing.ChainDisjoint` | diskops.py:42-53 | Slices are in ascending order and do not overlap. |
| `Slicing.ChainCovers` | diskops.py:42-53 | Every byte of the range lies in a slice. |
| `Slicing.CountModeBound` | diskops.py:44-52 | Count mode makes at most `splits` slices. |
| `Slicing.CountModeEven` | diskops.py:44-52 | Its slices all have the size of an even split, rounded up, but for the last one, which is not larger. |
| `Slicing.AlignedSlices` | diskops.py:49-50 | In aligned mode the first and the last byte of a slice lie in one block, and every slice but the last ends on a block boundary. |
| `Slicing.AcrossBoundary` | error_reporter/error_reporter.py:259-264 | The reporter's "across_boundary" test of writes and appends holds exactly when aligned slicing with that block gives at least two slices, for any block size. |
| `Slicing.TruncAcrossBoundary` | error_reporter/error_reporter.py:265-269 | Its test of truncates compares the two sizes: it holds exactly when aligned slicing gives at least two slices or the larger size is a multiple of the block. |
| `DiskOps.ReadDumpSplit` | diskops.py:371-374 | Inside the dump a read gives as many bytes as asked for, and two reads side by side are one read. |
| `DiskOps.ReadDumpAt` | diskops.py:371-374 | A read at the end of the dump, or behind it, is short: it gives the bytes that are there. |
| `DiskOps.ReplayConcat` | diskops.py:275-382 | Replaying a list is replaying its front and then its back, failures included. |
| `DiskOps.ReplayOnFile` | diskops.py:300-380 | Truncates and writes of one inode change the bytes of that inode as the same list applied to the bytes alone, and nothing else in the tree. |
| `DiskOps.ReplayOnInode` | diskops.py:197-207 | The same for an inode that has no file yet: the first op makes an empty one, and all ops work on it. |
| `MicroOps.WellFormedStep` | simulate_crashes.py:519-553 | Every well-formed micro op succeeds and leaves a valid tree. |
| `MicroOps.MicroConcat` | simulate_crashes.py:519-553 | Replaying micro ops is replaying the first part and then the second. |
| `FileSystem.AgreeIsSameTree` | simulate_crashes.py:451 | States with equal entries, equal directories and equal bytes of all files that have a name look the same at every path: what `diff -ar` compares. |
| `FileSystem.ResolveAgrees` | diskops.py:277-298 | Paths lead to the same nodes in two states with the same entries. |
| `FileSystem.OnlyName` | diskops.py:95-101 | An inode whose link count is one has only that name, so taking its bytes away harms no other path. |
| `GetDiskOps.EmitSlice` | diskops.py:55-79 | The loop body appends the one, two or three disk ops of its slice, in the right order, in all three modes of the loop. |
| `GetDiskOps.Invert` | diskops.py:86-91 | Reversing the list and then exchanging the two sizes of every op yields the shrinking sequence. |
| `GetDiskOps.SliceLoop` | diskops.py:42-84 | The loop with its running start, remainder and dump offset emits exactly the ops of all slices. |
| `GetDiskOps.TruncDiskOps` | diskops.py:18-93 | Growing, shrinking and appending: the emitted list is the one whose effect is proved below; equal sizes give none. |
| `GetDiskOps.UnlinkDiskOps` | diskops.py:95-101 | The bytes are taken away exactly when the last name goes, and the name goes last. |
| `GetDiskOps.OverwriteDiskOps` | diskops.py:143-158 | The second slicing loop emits exactly the slices of the overwrite, each with its own part of the dump. |
| `GetDiskOps.RenameDiskOps` | diskops.py:111-132 | The seven-part list of a rename, plain or expanded. |
| `GetDiskOps.GetDiskOps` | diskops.py:16-184 | For every kind of micro op the imperative compiler returns the specified list, whose every prefix is characterized by the crash results; it fails exactly on a write of nothing. |
| `Compiler.GrowEffect` | diskops.py:65-73 | Garbage and then zeros in every slice: together one write of zeros over the range. |
| `Compiler.AppendEffect` | diskops.py:60-79 | Zeros, garbage and data in every slice: together one write of the dumped bytes. |
| `Compiler.ShrinkEffect` | diskops.py:55-58 | The reversed, exchanged truncates leave the file cut to the final size. |
| `Compiler.TruncEffect` | diskops.py:133-134 | A compiled truncate is `ftruncate`, in either direction, for every mode and number of splits. |
| `Compiler.AppendTwiceEffect` | diskops.py:137-138 | The doubled list of the expanded form has the effect of the single one. |
| `Compiler.OverwriteAllEffect` | diskops.py:139-158 | A compiled overwrite is one write of the dumped bytes at its offset. |
| `Agreement.UnlinkExactly` | diskops.py:95-101 | On any tree, replaying a compiled unlink removes the one name, and empties the file exactly when the recorded link count is one. |
| `Agreement.TruncExactly` | diskops.py:133-134 | On any tree, a replayed truncate resizes the one file and changes nothing else. |
| `Agreement.AppendExactly` | diskops.py:135-138 | On any tree, a replayed append puts the dumped bytes at the end of the one file. |
| `Agreement.OverwriteExactly` | diskops.py:139-158 | On any tree, a replayed overwrite is one positioned write into the one file. |
| `Agreement.TailExactly` | diskops.py:121-132 | What each prefix of the five link and unlink ops at the end of an expanded rename leaves of the two names. |
| `Agreement.RenamePlainExactly` | diskops.py:111-126 | What a replayed plain rename leaves: names and bytes, aliasing of source and destination included. |
| `Agreement.RenameExpandedExactly` | diskops.py:111-132 | The same for the expanded form. |
| `Agreement.RenameExactly` | diskops.py:111-132 | Both forms in one statement, from any tree the rename was recorded in. |
| `Agreement.RenameAgrees` | simulate_crashes.py:528-529 | From agreeing trees, a safe rename and its disk ops lead to agreeing trees. |
| `Agreement.UnlinkAgrees` | simulate_crashes.py:524-525 | From agreeing trees, an unlink and its disk ops lead to agreeing trees, also when other names or held inodes remain. |
| `Agreement.NewNameAgrees` | simulate_crashes.py:520-527 | The same for creat, link, mkdir and rmdir. |
| `Agreement.NewBytesAgree` | simulate_crashes.py:530-546 | The same for truncate, append and write. |
| `Agreement.OpAgrees` | simulate_crashes.py:519-553 | The same for every well-formed micro op that is not an unsafe rename. |
| `Agreement.TraceAgrees` | simulate_crashes.py:435-454 | The same for whole traces, each op compiled with its own splits, mode and expansion. |
| `Agreement.DirectoriesStay` | simulate_crashes.py:528-529 | Paths of directories keep their meaning when only file entries change. |
| `Agreement.RenameDisagrees` | diskops.py:111-132 | An unsafe rename (destination is the same file, unless expanded onto the very same name) is refused by nobody, changes nothing by itself, and its disk ops always lead to a visibly different tree. |
| `Agreement.RenameOfAliasedName` | diskops.py:111-132 | One such input, well formed, in a valid tree, for any options: renaming one of the two names of a file to the other. |
| `Agreement.WellFormedPrefix` | simulate_crashes.py:440-449 | Every prefix of a well-formed trace is well formed, runs, and leaves the rest well formed. |
| `Agreement.CompileConcat` | simulate_crashes.py:441-444 | The disk ops of a trace split at every micro op. |
| `Agreement.FirstUnsafeRename` | simulate_crashes.py:435-454 | At the first unsafe rename of a trace the two replays differ. |
| `Agreement.ReplayersAgree` | simulate_crashes.py:435-454 | Main result: for every well-formed trace and any choice of options, the two replayers show the same tree after every prefix if and only if the trace has no unsafe rename. |
| `CrashStates.AppendPrefix` | diskops.py:48-84 | Every prefix of one pass over an append: finished slices hold data, the current one is as labelled. |
| `CrashStates.AppendPass` | diskops.py:135-138 | The same for the second pass, on a file that already holds the data. |
| `CrashStates.OnTree` | diskops.py:300-380 | Any selection of the disk ops of a truncate, append or write changes the bytes of its own file and nothing else in the tree. |
| `CrashStates.AppendCrash` | error_reporter/error_reporter.py:310-313 | Main result for appends, on whole trees: every non-empty prefix, single or doubled, leaves the old bytes, then data, then one slice that is zeros, garbage or data by index modulo 3, and then nothing or, in the second pass, the later data. |
| `CrashStates.ShrinkPrefix` | diskops.py:86-91 | Every prefix of a shrink cuts the file at a slice boundary. |
| `CrashStates.ShrinkCrash` | diskops.py:55-58 | Main result for shrinks, on whole trees: every prefix leaves a prefix of the old file, never shorter than the final size, and strictly shorter with every further op. |
| `CrashStates.GrowPrefix` | diskops.py:65-73 | Every prefix of a growing truncate, slice by slice. |
| `CrashStates.GrowCrash` | error_reporter/error_reporter.py:317-318 | Main result for growing truncates, on whole trees: the old bytes, zeros, and one slice that is garbage or zeros by index modulo 2; the file ends with it. |
| `CrashStates.TruncLabelIsRightIff` | error_reporter/error_reporter.py:317-318 | For every truncate of a file without garbage: the prefix leaves garbage at the end if and only if the file grows and the index is even, so the label is right if and only if the file grows or the index is odd. |
| `CrashStates.UnlinkPrefix` | diskops.py:95-101 | Part of the ops that take a name away: no name changes, and of the file its first bytes are left: all of them if it has other names, and otherwise strictly fewer with every op, and none before the name goes. |
| `CrashStates.UnlinkCrash` | diskops.py:107-108 | Main result for unlinks: the tree after every prefix of the compiled ops, exactly in names, and in bytes as above; at the end the name is gone, and the file empty if it was the last name. |
| `CrashStates.DestTruncates` | diskops.py:117-118 | Taking the old destination away cuts its bytes only, strictly with every op, until its name goes; a file with other names keeps all of them. |
| `CrashStates.RenameCrash` | diskops.py:111-132 | Main result for expanded renames: after every prefix, however many truncate slices there are, exactly which names exist; no file but the old destination is touched, and that one keeps its bytes if it has other names and otherwise loses some with every op until its name goes. |
| `CrashStates.PlainRenameCrash` | diskops.py:111-126 | Main result for plain renames: the same for every prefix of the three-part list. |
| `CrashStates.RenameSixStates` | diskops.py:113-132 | The prefixes reach the six combinations of the two names, and which prefix reaches which. |
| `CrashStates.OtherNamesStay` | diskops.py:111-132 | No prefix disturbs a third name. |
| `RenameLabels.Labels` | error_reporter/error_reporter.py:275-302 | The table the reporter fills and sorts, text by text, including the case that its test never recognizes and that shifts the list by one. |
| `RenameLabels.LabelIsRightIff` | error_reporter/error_reporter.py:275-302 | A rename label, with what it says of the bytes of the replaced file, is true of the replayed tree exactly when a file is replaced and the index is at least n - 6, or is 0 while there are truncates; for a rename to a new name no label is true. |
| `RenameLabels.LabelPartsIff` | error_reporter/error_reporter.py:275-302 | Part by part: when what a label says of the old name is true, and when what it says of the new name and its bytes is. |
| `Overwrites.SomeParts` | diskops.py:148-158 | What any list made of the slices of an overwrite does to a byte: new if some slice of the list covers it, old otherwise. |
| `Overwrites.OrderDoesNotMatter` | diskops.py:367-380 | Two lists with the same slices, in any order and with repetitions, leave the same tree. |
| `Overwrites.Permutation` | diskops.py:148-158 | Any permutation of the slices is the whole overwrite. |
| `Overwrites.OmitSlice` | error_reporter/standardized_specifier.py:79-85 | Leaving slice j out gives the target tree except that the bytes of slice j of the file are the old ones. |
| `Omissions.OmittedName` | diskops.py:275-299 | Main result for a name that is made and taken away: leaving out the op that makes it changes neither whether the replay raises nor the tree it shows, whatever happens to bytes and other names in between and whatever follows, as the replayer makes unknown inodes itself. |
| `Omissions.OmittedCreat` | error_reporter/standardized_specifier.py:53-86 | Create, write, rename with the creat left out shows the tree of the full list, for both forms of the rename and whatever it replaces. |
| `Omissions.OmittedCreatResult` | diskops.py:197-207 | And the new name leads to all the bytes that were written, although the file was never made. |
| `OmittedDirectories.OmittedMkdir` | diskops.py:218-227 | With a mkdir left out, a replay of ops on files raises exactly when the full one does, names made inside the directory included; every path that does not go through the directory shows what it shows in the full replay, and the others show nothing. |
| `TraceMarks.MarksStay` | diskops.py:163-174 | However a trace is compiled, its disk ops sync exactly the bytes that the recorded calls synced, and say exactly what was said, in the same order. |
| `ReplayInvariants.ReplayStaysSane` | diskops.py:275-382 | Over any list of rows, well placed or not: names lead to inodes that exist and belong to known directories, no directory has two names, no inode gets lost, and inodes that no row writes to keep their bytes. |
| `ReplayInvariants.StepNames` | diskops.py:277-299 | What every successful row does to names, on any tree: one name made or replaced, one name gone, or nothing. |
| `ReplayInvariants.StepLeavesNoOrphans` | diskops.py:284-299 | A directory whose name is deleted, or taken by another directory, leaves the tree. |
| `ReplayInvariants.RaisesIff` | diskops.py:275-382 | When each kind of row raises: stale and held inodes, files and directories in each other's place, directories linked twice or over full ones, missing dumps. |
| `ReplayInvariants.AnyRunValid` | simulate_crashes.py:519-553 | Over any micro ops, recorded on that tree or not, a plain replay that succeeds leaves a valid tree. |
| `ReplayInvariants.AnyStepFrame` | simulate_crashes.py:519-553 | Ops on names change the bytes of no file, and ops on bytes change no name and one file only. |
| `ReplayInvariants.MicroRaisesIff` | simulate_crashes.py:519-553 | When each kind of micro op raises, in terms of what its paths lead to. |
| `BlockWriter.InnerBlocks` | diskops.py:315-319 | Rounding up the start and down the length gives whole blocks inside the range. |
| `BlockWriter.Plan` | diskops.py:310-342 | For every offset and every count above 4096 all assertions hold and the three runs cover the range contiguously, with less than a block at either end; blocks are larger above 4 MiB. |
| `BlockWriter.SpecialWrite` | diskops.py:309-364 | The up to three `dd` runs, or the single write, have the effect of one write of the range, and are contiguous pieces of it. |
| `Structs.DecodeEncode` | diskops.py:57-78 | The fields of a disk op, with any bookkeeping fields beside them, give the op back. |
| `Structs.KnownFields` | diskops.py:10-11 | The names and numbers that tell rows apart: kinds, entry types and special writes. |
| `Structs.EqSameEffect` | mystruct.py:42-55 | Rows that compare equal, from the left, mean the same disk op, whatever hidden fields they carry. |
| `Structs.EqSymmetricIff` | mystruct.py:31-55 | The comparison looks at the fields of its left side only: it holds the other way round too if and only if the right side has no further field, neither itself nor a plain one in the structs directly inside it. |
| `Structs.EqIgnores` | mystruct.py:31-55 | What the comparison does not look at: further fields of the right side, and structs inside the structs of either side. |
| `Structs.CompiledRowsSymmetric` | diskops.py:178-183 | On rows as the compiler builds them, of micro ops with the same fields for one kind, the comparison is symmetric. |
| `ReplayCache.RowsEqSameOps` | diskops.py:260 | Equal lists of rows mean equal lists of disk ops. |
| `ReplayCache.LeftOverTree` | diskops.py:275-382 | What a replay that raises leaves behind: the tree with everything done before the row that raised. |
| `ReplayCache.CallIsReplay` | diskops.py:255-273 | From a consistent cache a call returns what a replay from the snapshot returns, and leaves a consistent cache when it succeeds. |
| `ReplayCache.SoundStays` | diskops.py:255-388 | From any start, good replay or failed one, every call leaves the globals of a good replay or of a failed one. |
| `ReplayCache.CallIsReplayIff` | diskops.py:255-388 | Main result for one call: on every cache that can come up, the result is the replay from scratch if and only if the call does not extend rows that failed by something that works on the left-over tree. |
| `ReplayCache.SpoiledHit` | diskops.py:260-262 | A hit on rows that failed hands out nothing but wrong trees (from scratch it fails), and leaves the cache in that state. |
| `ReplayCache.CallAfterFailure` | diskops.py:260-262 | After a call that raised, the same rows asked again always succeed, and rows that extend them give what the extension gives on the left-over tree; from scratch all of them fail. |
| `ReplayCache.CallsAreReplaysIff` | diskops.py:255-388 | Main result: over any run of calls, call i hands out what a replay of its own rows from scratch gives if and only if it does not reuse a failure. |
| `ReplayCache.CallsAreReplays` | diskops.py:255-388 | A check for the caller that suffices: when no call extends the rows of a call that just failed, every result is the replay from scratch. |
| `ReplayCache.FreshCall` | diskops.py:263-269 | A miss never depends on the cache. |
| `ReplayCache.CachedReplayer.Replay` | diskops.py:255-388 | The imperative version with its two globals: new globals and result are those of the specification, right if and only if no failure is reused. |
| `CrashPoints.SingleOrder` | simulate_crashes.py:376-382 | Flat numbers order pairs lexicographically, micro ops without disk ops included. |
| `CrashPoints.DoubleIsInverse` | simulate_crashes.py:367-375 | Converting a flat number to a pair and back gives the number. |
| `CrashPoints.SingleIsInverse` | simulate_crashes.py:367-382 | Converting a pair to a flat number and back gives the pair. |
| `CrashPoints.DopsDouble` | simulate_crashes.py:367-375 | The walk fails exactly beyond the last disk op, and otherwise yields the inverse of the numbering. |
| `CrashPoints.DopsSingle` | simulate_crashes.py:376-382 | The accumulating loop yields the flat number, -1 for no pair, and counts all disk ops for a line beyond the trace. |
| `CrashPoints.KeptAllButOne` | simulate_crashes.py:187-194 | With one flag set, exactly that op is missing from the replay. |
| `CrashPoints.EndOfLine` | simulate_crashes.py:151-154 | A crash point at the end of a micro op replays whole micro ops. |
| `CrashPoints.BuildToReplay` | simulate_crashes.py:187-194 | The nested loops build the flat list up to the crash point without the omitted ops. |
| `CrashPoints.FlatSetFlag` | simulate_crashes.py:344-350 | Setting or clearing a flag changes one row of the flat list and no numbering. |
| `CrashPoints.ReplayWithoutOne` | error_reporter/standardized_specifier.py:79-85 | Omitting op i, ending at op j and including i again: the replay is ops 0 to j without i, and the flags are as before. |
| `Splitting.SplitEvenly` | simulate_crashes.py:275-300 | Splitting by a size ends, partitions range and dump offsets, and makes parts of that size but for the last. |
| `Splitting.SplitByList` | simulate_crashes.py:285-300 | Splitting by a list of sizes ends even with zeros in the list, partitions the range, and takes the sizes in order. |
| `Splitting.Split` | simulate_crashes.py:268-300 | All three ways of splitting; by count there are at most that many parts. |
| `Splitting.PartsMeaning` | simulate_crashes.py:532-546 | Replaying the parts does what replaying the op does; for appends the file grows part by part. |
| `Splitting.SplitKeepsMeaning` | simulate_crashes.py:268-300 | In any trace, replacing the op by its parts leaves the result of the plain replay unchanged, failures included. |
| `Splitting.PartsWellFormed` | simulate_crashes.py:268-300 | Parts of a well-formed op, one after the other, are well formed, so they can be compiled again. |
| `Replayers.Replayer.constructor` | simulate_crashes.py:99-130 | A new editor holds the compiled trace, ends after its last op, omits nothing and has saved itself. |
| `Replayers.Replayer.DopsGenerate` | simulate_crashes.py:318-327 | The chosen micro ops get fresh disk ops, and the end point moves to the last of them when its micro op is among them. |
| `Replayers.Replayer.EndAt` | simulate_crashes.py:151-154 | The crash point replays all kept ops of the micro ops up to i. |
| `Replayers.Replayer.DopsOmit` | simulate_crashes.py:344-347 | Sets one flag; output ops are never omitted. |
| `Replayers.Replayer.Load` | simulate_crashes.py:163-170 | Restores exactly what was saved; fails exactly when nothing was. |
| `Replayers.Replayer.SplitOp` | simulate_crashes.py:268-300 | The parts take the place of the op with copies of its disk ops, and the end point moves by the number of lines gained. |
| `Replayers.Replayer.DopsReplay` | simulate_crashes.py:185-195 | Replays the kept ops up to the crash point. |
| `Replayers.KeptIsCompiled` | simulate_crashes.py:318-327 | The disk ops of freshly generated lines are the compiled trace. |
| `Replayers.EndedReplayAgrees` | simulate_crashes.py:435-454 | Ending a freshly generated well-formed trace after a micro op shows the tree the plain replay shows there. |
| `Replayers.SplitKeepsEndPoint` | simulate_crashes.py:273-300 | The end point stays on the same op exactly when the split op is at or before it or is split into one part; a split behind it drags it along. |
| `Replayers.SplitKeepsCrashPoint` | simulate_crashes.py:268-300 | With the end point at or behind the op, the plain replay up to it is unchanged by the split. |
| `Specifier.OmitAndStop` | error_reporter/standardized_specifier.py:71-85 | The inner loop: one replay for each op behind the dropped one up to the limit, in ascending order, sync ops excepted, and all flags restored. |
| `Specifier.OmitOne` | error_reporter/standardized_specifier.py:53-86 | For any limits, the replays are the pairs of a selected op and a later stop, each once and in ascending order; each is the list up to the stop with just that op missing, and all flags are clear at the end. |
| `Specifier.SelectedOfCompiled` | error_reporter/standardized_specifier.py:54-69 | Which disk ops of a freshly compiled micro op are left out: of an append those that write data, of a growing truncate those that write zeros, of a shrinking one the last, of others all, of syncs and output none. |
| `Specifier.StopsAtPair` | error_reporter/standardized_specifier.py:75-77 | Replays stop at every disk op that belongs to no sync. |
| `Specifier.PrefixRun` | error_reporter/standardized_specifier.py:7-18 | One replay for every disk op of a considered kind, in ascending order, with all ops up to it. |
| `Specifier.ReplayUpTo` | error_reporter/standardized_specifier.py:15-16 | The crash point at flat number n replays the first n + 1 ops. |
| `Specifier.ReplayWithoutLine` | error_reporter/standardized_specifier.py:29-45 | With all ops of one micro op omitted, the crash point at the end of a later one replays what it would if the first was not in the trace. |
| `Specifier.OmitLine` | error_reporter/standardized_specifier.py:29-50 | The body of the loop over micro ops: the replays it makes, each once and in ascending order, and the flags restored. |
| `Specifier.OmitOneMicroOp` | error_reporter/standardized_specifier.py:21-51 | For any limits, the replays are the pairs of a dropped micro op and a later stop whose last disk op does not lie behind the limit, each once and in ascending order; each replays the trace without that op, and all flags are clear at the end. |
| `Specifier.LastWholeIff` | error_reporter/standardized_specifier.py:34-38 | The computed last line is right: a line lies at or before it exactly when its last disk op lies at or before the limit. |
| `Specifier.SelectedLines` | error_reporter/standardized_specifier.py:22-44 | Which freshly compiled micro ops are left out, and at which replays end: those with disk ops; syncs and output are never left out, and nothing ends at a sync. |
| `Specifier.WithoutLineAgrees` | error_reporter/standardized_specifier.py:21-51 | When the trace without the op could have been recorded, such a replay shows the tree that the plain replay without the op shows. |
| `WriteCalls.WriteIsPosix` | conv_micro.py:486-514 | For every position, size and count above zero: the micro ops are well formed, replay to the POSIX write (gap of zeros, overwrite, extension), and the tracked size is the file's. |
| `WriteCalls.WriteIsPosixIff` | conv_micro.py:486-514 | For every call: it is accepted and its micro ops are the POSIX write if and only if there is something to write or the position is the end of the file. A zero-length write inside the file fails an assertion, and one behind the end grows the file. |
| `WriteCalls.TrackedSizeIsRightIff` | conv_micro.py:501-512 | The tracker's own copy of the file has the right size if and only if there was something to write or no gap. |
| `WriteCalls.WriteIsSynced` | conv_micro.py:494-514 | With O_SYNC every byte written, and no other, is synced, each part right behind the op that writes it; without it nothing is. |
| `WriteCalls.WriteToDisk` | diskops.py:133-158 | From the call to the disk: compiled in any way and replayed as disk ops, the call leaves the POSIX bytes in an otherwise equal tree. |
| `WriteCalls.CallIsPosix` | conv_micro.py:466-516 | One call of any kind on an open file: contents, position and size as in POSIX. |
| `WriteCalls.CallsArePosix` | conv_micro.py:430-516 | Over every run of writes, positioned writes, seeks and truncates, the micro ops give the POSIX contents and the tracker ends with the file's position and size. |
| `Descriptors.FileDescriptorTracker.NewMapping` | conv_micro.py:171-176 | A new descriptor gets an open file of its own; an existing one is refused. |
| `Descriptors.FileDescriptorTracker.SetEquivalent` | conv_micro.py:178-181 | A duplicate shares the open file of the old descriptor, so the later position of either is seen through both; refused exactly when the old one is unknown or the new one is in use. |
| `Descriptors.FileDescriptorTracker.Duplicate` | conv_micro.py:779-793 | dup2 and dup3: the new descriptor is dropped first, and then shares what the old one refers to, if that is still known. |
| `Descriptors.FileDescriptorTracker.SetPos` | conv_micro.py:202-204 | A new position is seen through exactly the duplicates of the descriptor. |
| `Descriptors.FileDescriptorTracker.Write` | conv_micro.py:466-516 | The write branch emits the specified micro ops, and its new tables are the specified ones: the new size, and the new position for exactly the duplicates (for none after positioned writes); it fails exactly on the rejected calls, and then changes nothing. |
| `Descriptors.FileDescriptorTracker.Decompose` | conv_micro.py:486-514 | The branch on numbers: the micro ops, the position behind the bytes and the new size, where the tracker does not grow its copy for a gap by itself. |
| `Descriptors.FdCallIsPosix` | conv_micro.py:430-516 | Main result for one call on any descriptor, duplications onto open descriptors included: the micro ops leave the POSIX bytes, and the tracker knows the process afterwards if and only if the call is not a dup2 of a descriptor onto itself. |
| `Descriptors.RunIsPosix` | conv_micro.py:430-516 | Over any run without such a call (writes, positioned writes, seeks, truncates, duplications, closes and opens) the micro ops are well formed and leave the POSIX bytes in every file, and every position and size is known at every point. |
| `Descriptors.RunIsKnownIff` | conv_micro.py:779-793 | Main result for descriptor tables: over any run, the tracker knows the process at every point if and only if no call duplicates a descriptor onto itself. |
| `Descriptors.SelfDupLosesCalls` | conv_micro.py:779-793 | After such a call the tracker makes no ops for calls on the descriptor. |
| `Descriptors.RunToDisk` | diskops.py:16-184 | From the calls to the disk: compiled in any way and replayed as disk ops, a run leaves the tree the process leaves. |
| `ByteDump.Tracer.DumpIov` | strace-4.8/io.c:153-197 | The buffers of a gathering write are dumped in order, and the returned total is their length. |
| `ByteDump.Tracer.TraceCalls` | strace-4.8/io.c:219-228 | Over a run of calls the dump is the concatenation, and the trace shows each call's total. |
| `ByteDump.Offsets` | conv_micro.py:907-925 | The reader's running sum gives each call the place where its bytes begin. |
| `ByteDump.OwnBytes` | conv_micro.py:918-925 | At that place, with that count, the dump holds exactly the bytes of the call. |
| `ByteDump.GatheredIsOneWrite` | conv_micro.py:472-474 | Writing the buffers one after another is writing their concatenation. |
| `ByteDump.CallIsReplayed` | conv_micro.py:466-514 | From the traced process to the file: the micro ops made with the reader's offset do what the buffers written one by one do. |
| `AddressRanges.OverlapIsSharing` | conv_micro.py:106-109 | The four-way overlap test of both trackers holds exactly when the two ranges share an address. |
| `MemoryRegions.MemregionTracker.FindOverlap` | conv_micro.py:102-118 | Finds an overlapping region exactly when there is one. |
| `MemoryRegions.MemregionTracker.Insert` | conv_micro.py:120-122 | Inserts exactly when nothing overlaps, and regions stay disjoint. |
| `MemoryRegions.MemregionTracker.RemoveOverlaps` | conv_micro.py:124-142 | The loop ends, regions stay disjoint, nothing overlaps the hole any more, and of every region that overlapped only the part below the hole is left, with its path, inode and offset (nothing, with whole_regions). |
| `MemoryRegions.ExactIff` | conv_micro.py:134-142 | The removal takes away exactly the addresses of the hole if and only if no region reaches beyond the end of the hole from inside it. |
| `MemoryRegions.LostTail` | conv_micro.py:138-142 | When one does, the address just above the hole was mapped and is lost. |
| `MemoryRegions.MemregionTracker.ResolveRange` | conv_micro.py:150-165 | Sorted disjoint pieces inside the range that cover exactly the mapped addresses of the range, each with its path, inode and file offset. |
| `MemoryRegions.MemregionTracker.MemoryWrite` | conv_micro.py:762-778 | The write ops are those of the resolved pieces, in order; they put byte d of the dump at the place of its address, under the path of its region, for exactly the mapped addresses of the write. |
| `MemoryRegions.MemregionTracker.MemorySync` | conv_micro.py:749-760 | The sync ops cover exactly the places, under the paths, of the mapped addresses of the range. |
| `RegionTables.ReaderEvent` | conv_micro.py:708-748 | The mmap and munmap branches: the assertion fails exactly when a watched mapping overlaps what is left, and otherwise what every address stands for afterwards: places of the new file from the call's offset on, what it stood for, or nothing. |
| `RegionTables.StoreAfterMmap` | conv_micro.py:762-778 | A store made through a new mapping reaches its own place of its own file. |
| `RegionTables.StepAgrees` | conv_micro.py:722-741 | One call on both tables: the reader's intervals stay among the tracer's, its assertion holds when the tracer's does, and from equal tables they stay equal if and only if the call is not a fixed mapping that ends strictly inside a region. |
| `RegionTables.ReaderStaysNested` | mtrace/mtrace.cpp:452-504 | Over any run that the tracer accepts, the reader never has a region of which the tracer would not record the writes. |
| `RegionTables.TablesAgreeIff` | conv_micro.py:708-748 | Main result for the two tables: over any run, the reader has at every point exactly the tracked regions of the watched files if and only if no fixed mapping ends strictly inside a region. |
| `RegionTables.WhatIsLost` | conv_micro.py:134-142 | From equal tables, the addresses the reader drops and the tracer keeps are exactly those above a fixed mapping, up to the end of the region it ends in. |
| `RegionTables.ThirdPageIsLost` | conv_micro.py:134-142 | One such input: a private page over the second of three shared pages. |
| `RegionArray.CarvedMapped` | mtrace/mtrace.cpp:127-132 | After carving, an address is mapped exactly when it was and is not in the hole. |
| `RegionArray.CarveOneStep` | mtrace/mtrace.cpp:117-133 | One round removes one overlapping interval and keeps what carving will finally give. |
| `RegionArray.RoundProgress` | mtrace/mtrace.cpp:115-134 | Every round lowers the number of overlapping intervals. |
| `RegionArray.CarvedSize` | mtrace/mtrace.cpp:115-134 | Carving makes at most one interval more. |
| `RegionArray.MemregionTracker.InsertSlot` | mtrace/mtrace.cpp:72-88 | The first hole or the next slot takes the interval; the capacity assertion fails exactly when all slots are in use. |
| `RegionArray.MemregionTracker.RemoveSlot` | mtrace/mtrace.cpp:90-96 | One interval less, whether the slot was the last or becomes a hole. |
| `RegionArray.MemregionTracker.FindOverlap` | mtrace/mtrace.cpp:98-113 | Yields a slot in use that overlaps, or -1 exactly when none does. |
| `RegionArray.MemregionTracker.CarveRound` | mtrace/mtrace.cpp:121-132 | One round on the array is one round on the set of intervals; fails exactly when two pieces are needed and only one slot is free. |
| `RegionArray.MemregionTracker.RemoveOverlaps` | mtrace/mtrace.cpp:115-134 | The loop ends with the exact carving of the set of intervals (or the removal of whole intervals), and fails exactly when the array is full and an interval reaches out of the hole on both sides. |
| `RegionArray.MemregionTracker.Insert` | mtrace/mtrace.cpp:136-141 | Which assertion fails, exactly when, and otherwise one interval more. |
| `RegionArray.MemregionTracker.AddressMapped` | mtrace/mtrace.cpp:155-161 | True exactly for the mapped addresses. |
| `RegionArray.MemregionTracker.OnMmap` | mtrace/mtrace.cpp:452-486 | With MAP_FIXED the overlap assertion never fails; when each assertion fails, and the intervals otherwise. |
| `RegionArray.MemregionTracker.OnMunmap` | mtrace/mtrace.cpp:489-504 | Every interval that overlaps goes as a whole, and no assertion can fail. |
| `Coalescer.StoreJoin` | mtrace/mtrace.cpp:319-321 | Two contiguous memory writes are one. |
| `MappedFiles.WritesGoThrough` | conv_micro.py:762-778 | The write ops of one recorded memory write are well formed, and their replay writes its bytes one after another through the mappings, several mappings of one place included; behind the end of a file this makes the file grow. |
| `MappedFiles.StoresArePosixIff` | conv_micro.py:733-741 | Bytes written in this way are what POSIX mmap has the process leave, where stores behind the end never reach the file, if and only if no store lies behind the end of its file. |
| `MappedFiles.StoreBehindTheEnd` | conv_micro.py:733-741 | One input for which they are not: a page of a file of one byte, and a store to its sixth byte, after which the replayed file has six bytes. |
| `MappedFiles.WritesAreStores` | conv_micro.py:762-778 | Main result for one memory write: its ops leave what the process leaves if and only if no byte lies behind the end of its file. |
| `MappedFiles.RecordsToOps` | conv_micro.py:907-925 | The same if and only if for a run of records at their running offsets in the dump. |
| `MappedFiles.TracedWritesToOps` | mtrace/mtrace.cpp:278-339 | Main result for mapped memory, from tracer to files: the micro ops made from the records, joined or not, are well formed, and leave in the files what the traced writes leave, byte by byte and in their order, if and only if none of the bytes lies behind the end of its file. |
| `MappedFiles.TracedWritesToDisk` | diskops.py:139-158 | Compiled in any way and replayed as disk ops, they show the tree that the process leaves. |
| `MappedFiles.LastStoreWins` | conv_micro.py:762-778 | In what the process leaves, a place inside a file ends with the value of the last store to any address that stands for it. |
| `MappedFiles.OtherStores` | conv_micro.py:762-778 | In what the process leaves, a place that no store reaches keeps its byte, and no file changes its size. |
| `Coalescer.ReadTrace` | conv_micro.py:907-925 | The reader's loop with its running offset computes the meaning of a record list. |
| `Coalescer.ReadLonger` | conv_micro.py:907-925 | Bytes dumped later do not change what earlier records mean. |
| `Coalescer.MwriteTracker.EmitWrite` | mtrace/mtrace.cpp:308-339 | Keeps: the records, flushed and open, read from the dump store exactly the bytes of all writes so far, in their order, so any memory ends the same; the dump is as long as the records say; which writes join the open record, and that unmapped ones leave no trace. |
| `Coalescer.MwriteTracker.Flush` | mtrace/mtrace.cpp:278-283 | The open record becomes a finished one; nothing read changes. |
| `XattrEscape.EmitByte` | strace-4.8/file.c:2507-2517 | One step writes the escape of its byte behind the cursor and leaves everything from the new cursor on as it was, the unread input included. |
| `XattrEscape.EscapeInPlace` | strace-4.8/file.c:2497-2521 | In the shared buffer the output is the escape of the original input, the cursor stays within 4 * size, and exactly when the value ends in NUL and has a printable byte the last four characters are dropped. |
| `XattrEscape.KnownEscapes` | strace-4.8/file.c:2508-2516 | The bounds of what is printed as it is, and the digits of the escapes around them. |
| `XattrEscape.TrimIff` | strace-4.8/file.c:2518-2521 | The trim gives the escape of the value without its NUL if and only if some byte is printable; otherwise the NUL test reads an overwritten byte. |
| `XattrEscape.LoneNul` | strace-4.8/file.c:2518-2521 | The one-byte value NUL is such a value: its escape is printed in full. |
| `XattrEscape.RoundTripIff` | strace-4.8/file.c:2508-2516 | Reading the escapes back gives the value if and only if the value contains no four bytes that look like an escape, as backslashes are not escaped. |
| `TcbTable.Table.Expand` | strace-4.8/strace.c:693-709 | Twice the entries; those in use, and their places, stay the same objects, and the new ones are free. |
| `TcbTable.Table.FindFree` | strace-4.8/strace.c:719-721 | The search always ends at a free entry, the first one. |
| `TcbTable.Table.Alloc` | strace-4.8/strace.c:712-745 | Always succeeds: one more process in use, all others unchanged and not moved, the table doubled exactly when it was full. |
| `TcbTable.Table.Drop` | strace-4.8/strace.c:748-784 | One process less and the count with it; an entry without a pid is left alone. |
| `TcbTable.Table.Lookup` | strace-4.8/strace.c:1926-1940 | Finds a process in use exactly when one has that positive pid. |
| `TcbTable.Table.LookupOrAlloc` | strace-4.8/strace.c:2088-2106 | An unknown process gets an entry when children are followed and is an error otherwise; pids stay unique and the other processes are untouched. |
| `TcbTable.Table.TakeEvent` | strace-4.8/strace.c:2088-2172 | Over the head of the trace loop the count, the unique pids and the places of entries are kept, and every other process keeps its entry, pid, output and column, as does the process of the event when there is no switch; after an exec event the old pid is gone and its entry carries on under the pid and output of the leader. |
| `TcbTable.Table.TakeOver` | strace-4.8/strace.c:2139-2165 | The execve switch: the leader's entry is dropped, and the thread has its pid, output file and column. |
| `MmapCache.FitsIsSorted` | strace-4.8/syscall.c:2929-2936 | Checking the last entry alone decides whether all entries stay sorted and disjoint. |
| `MmapCache.RejectedEarly` | strace-4.8/syscall.c:2920-2936 | A line that does not fit cannot be repaired by later lines. |
| `MmapCache.Cache.Build` | strace-4.8/syscall.c:2889-2951 | Accepts a listing exactly when its kept lines are sorted and disjoint and no cache exists; then the entries are the kept lines and there is room for one more. |
| `MmapCache.Cache.Store` | strace-4.8/syscall.c:2922-2944 | One line becomes an entry exactly when it fits, and the array is doubled in time. |
| `MmapCache.Cache.NormalizedAddr` | strace-4.8/syscall.c:2977-3009 | The search stays inside the allocation and ends; for an address that an entry holds it gives the name of the entry and, modulo the word size, the file offset plus the distance from the start; for one that neither an entry nor the memory behind them holds, nothing; exactly when all entries lie below the address it looks at that memory. |
| `MmapCache.Cache.Search` | strace-4.8/syscall.c:2981-3008 | The halving search: the entry that holds the address if there is one, and otherwise nothing or, when all entries lie below, the unused entry that happens to hold it. |
| `MmapCache.KeptAre` | strace-4.8/syscall.c:2908-2917 | An entry is made for exactly the lines that are not skipped. |
| `MmapCache.SkippedNames` | strace-4.8/syscall.c:2908-2917 | Empty names and names in brackets are skipped, a bracket at one end is not enough. |
| `MmapCache.FoundIsMeaningIff` | strace-4.8/syscall.c:2981-2987 | The answer is right if and only if the address is not above all entries while left-over memory behind them happens to hold it. |
| `MmapCache.StaleEntry` | strace-4.8/syscall.c:2981-2987 | A concrete listing, address and left-over entry for which a mapping is printed that does not exist. |

## Left out

- Directory renames, symbolic links, modes, owners and times: micro ops rename regular files, and trees are compared by names and bytes.
- Directory paths in `dirinode_map` are replaced by entries keyed by directory inode; a removed directory's inode is marked and any later use of it fails, so re-use of such an inode is not modelled.
- A directory placed over an existing name, a file and a directory under one name, and a directory made inside itself fail in the model, whatever the operating system would do.
- `override_data` and the fallocate branch: an empty dump file name cannot be replayed as a disk op, and the branch uses undefined names.
- Random garbage is one symbolic byte; contents are equal up to it.
- `math.ceil` and `math.floor` of a float division are exact integer divisions, which they are for sizes below 2^53.
- What a disk op that fails has done before it failed is not modelled; the cache keeps the tree before it.
- Inode numbers that the operating system hands out while replaying are named by the recorded ones.
- A write through a name that was removed, and a descriptor whose file was unlinked, are outside well-formed traces.
- `auto_test.ALCTestSuite`: which ops may be left out legally is a parameter (`limit`) of `OmitOne` and `OmitOneMicroOp`; in the latter the case that no op may follow, which ends the script with an exception, is excluded.
- The test for an op called `sync` in `prefix_run` never holds and has no counterpart; `dops_remove`, `remove`, `set_data`, exports, the listener and replays on several threads are not modelled.
- The call inside `_dops_verify_replayer` misses an argument, and the non-disk-op mode of `__replay_and_check` uses an undefined list: their intent is modelled.
- Lists and sets as fields of `Struct`, and hashing: disk ops have none of the former, and the comparison does not use the latter.
- Descriptor 0: the tracer passes over mappings made through it; every watched mapping is taken to be tracked.
- Pages wholly behind the end of a file, to which a store kills the process: such a store leaves no byte in the model. Files do not change size within one run of memory writes.
- Regions of the reader's table do not change within one run of records in `RecordsToOps`; runs between changes follow one another.
- Fork: the tracker copies descriptor tables where POSIX shares offsets; one process with duplicates is modelled. O_APPEND positions are not; an open gives the position it starts at.
- Text of paths (`original_path`), parsing of trace lines, and sorting of lines by time.
- Zero-length ranges of memory: `mwrite`, `msync`, `mmap` and `munmap` lengths are positive. Locks, threads and wrap-around at the end of the address space are not modelled in the two region tables.
- Clocks: a time is one number of microseconds; differences wrap at 2^64 as in the code.
- Tcb fields other than pid, use, output file and column; what is printed or closed when a process is dropped; signals and ptrace.
- Reading `/proc/<pid>/maps`: the listing is a sequence of parsed lines, and lines longer than the read buffer are not modelled. Memory behind the last entry holds any value.
- Failing allocations, and int overflow of table sizes.
