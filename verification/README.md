# OnceFS, verified

OnceFS is a log-structured filesystem. Every change becomes one block that carries a sequence number; two tables in
memory index the blocks; mounting sorts the tags of the container and replays them. File bytes are an overlay of data
blocks in sequence order, truncates trim only the index, and once the container is full obsolete blocks are written
over, which rewrites history. This project models those three layers in Dafny, in the form the program has them, and
proves what it may be relied on for, where that ends, and exactly why.

The layers, from the bottom:

* **`Orders`, `Arrays`, `Indexes`, `Tables`**: the sorted growable array of `lib/array.c` and the table of
  `lib/table.c`, as classes that change their buffers in place. The table refines a map keyed by the primary key.
* **`Records`, `Log`, `Lifetimes`, `Reuse`**: rows, records, comparators and filters; what each record does to memory;
  what later records make of one row; and when a record can be left out of the log without a replay noticing.
* **`Engine`, `Recovery`, `Shrinking`, `Space`**: the volume as a state machine that writes one block at a time, the
  allocator's choices, recovery of single writes, and block accounting.
* **`Trees`, `Renames`, `Entries`**: the directory tree, path resolution, and what renames, creates and deletes do to
  every path.
* **`Resolution`**: path resolution told by the rows alone: the chain a path follows and where it breaks off.
* **`FileData`, `Reading`, `FileShapes`, `FileSizes`, `Holes`**: the overlay refined to a plain map from position to byte,
  the window query, the lengths that reads and the size query report, and what makes a read stop short.
* **`Operations`, `Volume`**: the operations of `oncefs.c` on values, and the class `OnceFS` whose methods are proved
  against them, from path resolution to loading.
* **`Runs`, `Histories`, `FreshNames`, `RunFiles`, `MountedFiles`**: whole runs with remounts and reuse, in which every state is also a
  crash point: what a mount recovers and when it succeeds, what the disk still knows of the history, and what files show.
* **`Guarantees`, `WriteSizes`, `FileRenames`, `LinkGuarantees`, `Calls`**: the promises that several operations make
  together, and what any sequence of calls keeps, whatever the answers.
* **`Replies`**: what each call answers, told by paths, rows and the reported free blocks alone: when it succeeds, which
  error it gives otherwise, and what is then in the tables and on the disk.
* **`Scenarios`**: methods that make several calls on a volume, or on a volume and its remount, as the program's own
  tests do, with what they show proved for all inputs.
* **`Limits`, `ReuseLimits`**: concrete runs that show why the restrictions are there.

An operation's outcome is stated as a relation between the state before, the answer, and the state after. `Performs`
is the one for a single record: the record goes to the block the allocator picks, or there is none, the answer is
`ENOSPC` and memory keeps the effect that the code applies before it asks for a block (`Ahead`). The methods of the
class ensure these relations; `Calls.AnswerConsistent` shows that every call keeps `Consistent`, whether it succeeds or
fails (setting the time of the root and renaming it apart), `Calls.AnswerWrites` that a successful call is a sequence of
block writes, and `Calls.SessionIsRun` that such calls on a fresh volume are a run, so the theorems about runs apply to
the class.

Where the program does not keep a promise for all inputs, the project states when it does:

* a block write keeps the disk able to rebuild the live volume if and only if what it overwrites is harmless
  (`Recovery.WriteRecoverable`): for truncate records and node records that is a condition on the records around them
  (`Reuse.TruncateReuseExact`, `Reuse.EntryReuseExact`); for the rows alone only truncates matter
  (`Recovery.WriteKeepsRows`). Over whole runs the same conditions decide whether every state, or its rows, can be
  recovered (`Runs.RecoverableExact`, `Runs.RowsExact`);
* a write keeps a mountable disk mountable if and only if taking out the overwritten record revives no name that a later
  move goes to and the new record finds its own slot free (`Reuse.MoveReuseExact`, `Recovery.WriteMounts`), which decides
  for every run whether all its disks can be mounted (`Runs.MountsExact`);
* a mount shows of each file the fold of the records still on the disk (`MountedFiles.MountShowsDisk`), so a file shows
  its history throughout a run if and only if these said the same at every mount (`MountedFiles.FilesExact`); writing
  over a truncate leaves them doing so if and only if later records settle every position it had cut off
  (`MountedFiles.MissedCutExact`);
* what each call answers depends on the paths, the rows and the reported free blocks alone (`Replies`): a create or link
  that is not refused lacks space if and only if nothing is free, a write if and only if its data does not fit, and so
  on for every call;
* a delete lacks space if and only if nothing is reported free and its node has no live block (`Guarantees.DeleteAnswer`),
  and that happens in no run (`Guarantees.DeleteFitsInRun`);
* by its own conduct a caller can make sure of all this: files survive anything if no truncate is to more than before
  (`Guarantees.ShrinkingFilesSurvive`); every disk mounts, whatever was overwritten, if every rename goes to a name that
  nobody had (`FreshNames.FreshRunMounts`); and with a free block before each write everything is recovered
  (`Guarantees.CarefulCallerRecovers`);
* a mount brings the node counter back if and only if the highest number is still named on the disk (`Runs.CounterExact`);
* a rename keeps every entry reachable if and only if the destination is not inside the source
  (`Renames.RenameReachableExact`), and the file's bytes if and only if it goes to another path or had none
  (`FileRenames.RenameKeepsBytes`);
* the first record of a link survives the second if and only if two blocks were reported free
  (`LinkGuarantees.LinkStaysOnDisk`);
* the reported size is right if and only if no block reaches past the last one in the lookup order
  (`Guarantees.SizeExact`); a write, or a truncate, leaves it right if and only if a condition on where that block lies
  holds before (`WriteSizes.WriteSizeExact`, `WriteSizes.CutSizeExact`);
* all reads within a range get past every byte there if and only if the range has no hole of a whole payload with bytes
  behind it (`Holes.ReadsMissNothing`), and then they return the file to the byte, from any position and whatever blocks
  it lies in (`Guarantees.FileReadBack`);
* the length a read of one chunk reports is right if and only if some block counts for exactly the data there is and
  none that straddles the start counts for more (`FileShapes.ChunkExact`); that of a whole read of a gap-free file, if
  and only if this holds of the chunk that gets past the end (`Holes.SolidTotalExact`).

For each way in which these fail `Limits` or `ReuseLimits` has a run that gets there.

## Model

| member | source | states |
|---|---|---|
| Arrays.Array.Append | lib/array.c:60-82 | the entry goes behind the ones there are, which stay, also when the buffer has to grow |
| Arrays.Array.Resize | lib/array.c:42-58 | growing leaves the entries in use as they were and makes room for one more |
| Arrays.Array.Sort | lib/array.c:123-137 | afterwards the same entries are there, in the order of the comparison |
| Arrays.Array.FindSlot | lib/array.c:148-176 | binary search finds a place with nothing greater before it and nothing smaller behind it |
| Arrays.Array.InsertAt | lib/array.c:176-192 | everything from the place on moves back by one and the entry is put there |
| Arrays.Array.SortedInsert | lib/array.c:139-200 | a sorted array with one more entry is still sorted and holds exactly the old entries and the new one |
| Arrays.LookResult | lib/array.c:214-250 | the position where the search stops separates what comes before the match from the rest, seen from either side |
| Arrays.Array.FindIndex | lib/array.c:202-251 | for a filter that falls along the array: the least or, in reverse, the greatest matching position, and none exactly when nothing matches |
| Arrays.Array.Range | lib/array.c:275-292 | the visited positions are exactly the matching ones |
| Arrays.Array.Delete | lib/array.c:102-121 | compaction in place leaves the entries not dropped, in their order |
| Arrays.KeptFacts | lib/array.c:102-121 | compaction loses no kept entry, keeps no dropped one and makes no duplicate |
| Arrays.KeptSorted | lib/array.c:102-121 | compaction keeps a sorted array sorted |
| Indexes.InsertedShape | lib/table.c:54-69 | with a new row and its id in both indexes the table is the old map with one more key, the indexes sorted, duplicate-free lists of one set of ids |
| Indexes.RewrittenShape | lib/table.c:80-93 | rows rewritten under unchanged keys and indexes sorted again give the map with the rewritten rows |
| Indexes.DeletedShape | lib/table.c:220-264 | taking the matching ids out of both indexes removes exactly the matching keys although the rows stay |
| Indexes.SearchOutcome | lib/table.c:104-139 | what an index search finds is the least or greatest matching row of the map, or there is none |
| Indexes.WalkOutcome | lib/table.c:181-208 | a walk over the run that matched before it mutates exactly those rows, each once, whatever happens to their sort keys |
| Indexes.RunLists | lib/table.c:141-159 | the run of an index lists each matching row of the map exactly once |
| Indexes.ListsCount | lib/table.c:161-179 | listing each matching row once counts the matching keys |
| Tables.Table.Insert | lib/table.c:44-102 | inserting is a map update; without replacement an existing key changes nothing and is reported |
| Tables.Table.ReplaceRow | lib/table.c:80-93 | overwriting a live row of the same key replaces its value in the map |
| Tables.Table.AppendRow | lib/table.c:54-69 | a row with a new key adds that key to the map |
| Tables.Table.QueryFirst | lib/table.c:104-120 | the least matching row in the order of the index, or none when no row of the map matches |
| Tables.Table.QueryLast | lib/table.c:122-139 | the greatest matching row in the order of the index, or none |
| Tables.Table.QueryAll | lib/table.c:141-159 | every matching row once, in the order of the index, as a linear scan of the map would give |
| Tables.Table.QueryCount | lib/table.c:161-179 | the number of keys whose rows match |
| Tables.Table.Update | lib/table.c:181-208 | the rows that matched before the call are mutated once each, the others not, and the indexes are sorted again |
| Tables.Table.Delete | lib/table.c:220-264 | the matching keys are gone, the others stay, the rows stay behind, and no match is reported |
| Tables.Table.QueryOrderBy | lib/table.c:266-286 | the matching rows once each, sorted by the given comparison |
| Records.StrCmpOrder | oncefs.c:81-84 | strcmp is a total order whose ties are equal names |
| Records.StrCmpIsLexical | oncefs.c:81-84 | one name comes before another if and only if it is smaller at the first difference or a proper prefix |
| Records.NodesSound | oncefs.c:42-85 | both node comparators are total orders up to ties, and the primary one ties only on equal keys |
| Records.BlocksSound | oncefs.c:97-177 | both block comparators are total orders up to ties, and the primary one ties only on equal block ids |
| Records.NodeFiltersMonotone | oncefs.c:845-856 | every node filter, the children and node-number ones included, falls along the index it is used on |
| Records.BlockFiltersMonotone | oncefs.c:961-978 | every block filter, the widened window of reads and the tail window of truncates included, falls along the lookup index |
| Log.ReplayIsRebuild | oncefs.c:1505-1577 | a load that succeeds is the fold of all records in order, and only a move can make it fail |
| Log.LogUnique | oncefs.c:1487-1499 | sorting the tags can give only one log, whatever the order on the disk |
| Log.LogOfWrite | oncefs.c:363-384 | writing the newest record over a block takes that block's old record out of the log and puts the new one last |
| Lifetimes.LaterForm | oncefs.c:1334-1365 | what any later records make of a row: free after a delete, cut at the tightest truncate, otherwise as written |
| Lifetimes.RebuildRow | oncefs.c:1505-1577 | each row of a loaded volume is its record's row after the records behind it |
| Lifetimes.RebuildNode | oncefs.c:1522-1558 | each node of a loaded volume is what its own records make of it in order |
| Reuse.ObsoleteIsInvisible | oncefs.c:259-295 | overwriting an obsolete record changes nothing a replay rebuilds, apart from the contents of free rows |
| Reuse.TruncateReuseExact | oncefs.c:1360-1371 | a truncate record may be overwritten if and only if every older row is bounded as tightly by the other records |
| Reuse.EntryReuseExact | oncefs.c:302-310 | a node record may be taken over if and only if a later record settles the same row or an earlier one had left it the same |
| Reuse.MoveReuseExact | oncefs.c:1529-1546 | a log that replays still does without one record if and only if no later move goes to a slot that a row of that record's node would then hold |
| Engine.WriteSane | oncefs.c:363-384 | every block write keeps the rows in step with the blocks and records, whichever block is overwritten |
| Recovery.AppendExact | oncefs.c:1461-1584 | a record appended to a fresh block keeps the replay of the disk equal to memory |
| Recovery.CountersReturn | oncefs.c:1574-1581 | loading restores the next block and the next sequence number |
| Recovery.PickedIsObsolete | oncefs.c:275-295 | a block the allocator hands out again without takeover holds nothing the replay needs, truncates aside, as long as the rows can be recovered |
| Recovery.WriteKeepsOldFree | oncefs.c:1250-1264 | every write, whatever it overwrites, keeps each record older than a delete of its node in a free block |
| Runs.RunReclaims | oncefs.c:287-295 | whenever a delete record is reclaimed, in any state a run reaches, no older record of its node is left, and the overwrite changes nothing a replay rebuilds |
| Recovery.WriteRecoverable | oncefs.c:259-313 | every write to a block the allocator picks, takeovers included, keeps the disk able to rebuild the live volume if and only if what it overwrites is harmless |
| Recovery.OverwriteExact | oncefs.c:259-313 | leaving out the overwritten record is invisible if and only if it was an unneeded truncate, a settled or repeated node record, or neither |
| Recovery.WriteMounts | oncefs.c:1542-1543 | whatever memory and disk have lost of each other: a mountable disk stays so if and only if taking out the overwritten record revives no name for the moves behind it and the new record finds its slot free |
| Recovery.MountAfterWrite | oncefs.c:1542-1543 | as long as the live volume can be rebuilt, that comes down to the overwritten record having cleared no name that a later move, the new record included, goes to |
| Recovery.WriteKeepsRows | oncefs.c:259-313 | every write to a block the allocator picks keeps the rows recoverable if and only if no overwritten truncate is missed: a takeover does rows no harm |
| Recovery.NodeCounterExact | oncefs.c:338-342 | the disk gives the node counter back if and only if one of its records names the highest number; it never gives a greater one |
| Shrinking.ShrinkingCuts | oncefs.c:1360-1371 | if the truncates of a file on the disk never grow, no overwritten truncate is missed, whatever the allocator does |
| Space.SpaceConserved | oncefs.c:731-777 | reported free blocks and live node, data, truncate and move blocks are together all blocks |
| Space.FreeMeansSource | oncefs.c:731-777 | the status call reports a free block if and only if the allocator finds a fresh, free or delete block |
| Space.DeleteFreesItsBlocks | oncefs.c:1250-1264 | a delete raises the free count by exactly the live blocks of the node: its record costs nothing |
| Space.WriteKeepsOwned | oncefs.c:259-313 | every write, takeovers included, leaves each node of the table with a live block |
| Space.DeleteAlwaysFits | oncefs.c:1279-1301 | deleting a node with any live block finds a fresh block or one of those just freed |
| Space.DeleteFitsExact | oncefs.c:1279-1301 | the allocator has no block for a delete record if and only if nothing is reported free and the node has no live block |
| Runs.RunOwns | oncefs.c:259-313 | in every state of a run, whatever was overwritten or mounted, each node of the table has a live block |
| Trees.LegalKeepsTree | oncefs.c:518-562 | each single record keeps names unique per directory and within their buffer, every parent present and one entry per number |
| Trees.OnePath | oncefs.c:456-504 | a node resolves from one path only |
| Resolution.ResolveFinds | oncefs.c:456-504 | a path resolves to the row at the end of the chain its names lead along, directory by directory, and to nothing without one; the root is always there, with the times of the volume |
| Resolution.ResolveFails | oncefs.c:477-496 | the answer is EINVAL if and only if the path goes on behind something that is no directory or with an over-long name, ENOENT if and only if a directory on the way lacks the next name, and there is no other error |
| Renames.RenameLegal | oncefs.c:1160-1171 | both steps of a rename over a file are legal, so a crash between them leaves a tree |
| Renames.OtherPathsStay | oncefs.c:1130-1185 | after a rename paths not through the source or the destination keep their answer |
| Renames.SubtreeMoves | oncefs.c:1130-1185 | below the destination every path answers as it did below the source |
| Renames.SourceAfter | oncefs.c:1130-1185 | the old path no longer resolves |
| Renames.SwallowedIsLost | oncefs.c:1130-1151 | after a rename into its own subtree nothing that was at or below the source has a path |
| Renames.RenameReachableExact | oncefs.c:1130-1151 | a rename keeps every entry reachable if and only if the destination is not inside the source |
| Entries.CreatedPaths | oncefs.c:518-562 | a new entry is found at its path and every path not through it keeps its answer |
| Entries.CreateKeepsReachable | oncefs.c:574-628 | a create leaves every entry with a path from the root |
| Entries.PayloadOnNoPath | oncefs.c:654-665 | the payload row of a link changes the answer for no path |
| Entries.DeletedPaths | oncefs.c:1199-1248 | a deleted entry is gone from its path and every path not through it keeps its answer |
| Entries.DeleteKeepsReachable | oncefs.c:1202-1229 | a delete that found no children leaves every other entry with a path |
| FileData.WriteShows | oncefs.c:913-942 | every block write keeps each file equal to the plain map that the same record overrides or cuts |
| FileData.PickedHoldsNoData | oncefs.c:259-313 | the allocator never hands out a block with live data, not even in a takeover |
| FileData.ChunksWriteAll | oncefs.c:919-939 | however a write is cut into chunks, it means one override of the bytes it covers |
| FileData.AlikeShows | oncefs.c:1461-1584 | volumes that agree on their live rows show the same files |
| Reading.WindowMissesNothing | oncefs.c:961-978 | no block that covers a byte of the chunk is outside the widened window |
| Reading.OverlayIsFile | oncefs.c:1002-1043 | painting what the window lists in sequence order shows the newest live byte at every position |
| FileShapes.WritesByte | oncefs.c:913-942 | a sequence of records changes each byte of each file as the records mean, whatever blocks they went to |
| FileShapes.GriddedRead | oncefs.c:1064-1081 | a read over a freshly written range gets through all of it and reports less than one payload too much |
| FileShapes.ReadAfterWrite | oncefs.c:913-942 | whatever was there before, after a write its range shows exactly the data and the rest of the file is as it was |
| FileShapes.ChunkExact | oncefs.c:1021-1040 | the length reported for a chunk is the end of its data if and only if some block counts for exactly that and no block straddling the start counts for more |
| FileShapes.ChunkExactAtStart | oncefs.c:1021-1040 | with no block straddling the start: if and only if a block that starts there reaches the end of the data |
| FileShapes.StraddlingOverstates | oncefs.c:1035-1037 | a straddling block that reaches furthest always makes the length too great |
| FileShapes.AlignedRead | oncefs.c:1064-1081 | in a gap-free file whose blocks start on the payload grid a read from the grid reports exactly the bytes up to the end |
| FileSizes.SolidRead | oncefs.c:1064-1081 | the same for a file described by its bytes: the read stops exactly at the end of file |
| FileSizes.AppendStyleKept | oncefs.c:913-942 | appends and truncates keep a file gap-free with disjoint blocks |
| FileSizes.SizeIsExact | oncefs.c:803-818 | for such a file the size query gives the end, whatever blocks hold it |
| Holes.ReadsMissNothing | oncefs.c:1064-1081 | all reads within a range get past every byte of it if and only if it has no hole of a whole payload with a byte behind it |
| Holes.HolesAreShown | oncefs.c:957-1047 | the holes between the blocks are those of the plain file, so the caller can tell |
| Holes.HoleFreeTotal | oncefs.c:1064-1081 | over a range without holes a read is never short of its last byte and reports less than one payload too much |
| Holes.SolidTotal | oncefs.c:1064-1081 | for a gap-free file in any blocks a read from any position reports at least what there is and less than one payload more |
| Holes.SolidTotalExact | oncefs.c:1064-1081 | for a gap-free file in any blocks the length is right if and only if, in the chunk that gets past the end, some block counts for exactly the rest and none straddling its start for more |
| Operations.WroteConsistent | oncefs.c:363-384 | every legal record written keeps everything the operations rely on |
| Operations.AheadConsistent | oncefs.c:581-586 | so does an operation that found no block after it had changed memory |
| Operations.NewNodeLegal | oncefs.c:518-562 | the checks of a create are enough: parent present, name free, number unused |
| Operations.SecondLinkBlock | oncefs.c:678-679 | the second record of a link never fails: at worst it gets the block of the first |
| Operations.LinkCommitted | oncefs.c:667-685 | entering both rows first and writing the blocks afterwards is the same as two records in order |
| Operations.PruningMissesNothing | oncefs.c:1315-1374 | visiting only the blocks in the tail window trims and frees as visiting every block would |
| Operations.DeletedIsEffect | oncefs.c:1247-1264 | going through the operations one by one leaves no block of the node that is not free |
| Operations.MoveLegal | oncefs.c:1160-1171 | after the checks, and after the delete of a file in the way, the move is legal |
| Operations.WindowReach | oncefs.c:1035-1037 | blocks outside the window add nothing to the reported length |
| Operations.ChildrenListed | oncefs.c:845-861 | what the query of a directory lists is exactly the rows whose parent it is, in strictly ascending order of their names |
| Operations.SortedTagsAreLog | oncefs.c:1470-1499 | reading tags up to the first invalid one and sorting them gives the log of the readable blocks |
| Operations.ReadableIsAll | oncefs.c:1475-1485 | on the disk of a live volume that is every block with a record |
| Volume.OnceFS.constructor | oncefs.c:193-221 | a new object has empty tables, its counters at the start and the container untouched |
| Volume.OnceFS.ReuseBlock | oncefs.c:259-313 | a free block, else a delete block, else a node block of the same node, each the first in lookup order; otherwise no space |
| Volume.OnceFS.CreateBlock | oncefs.c:330-384 | a fresh block while there is one, else a reused one; its row is entered, the counters move on, and without space nothing changes |
| Volume.OnceFS.Commit | oncefs.c:584-592 | the row and the record of a block agree on disk and in memory |
| Volume.OnceFS.Land | oncefs.c:702-716 | any record goes to the block the allocator picks, or the answer is ENOSPC and memory is ahead of the disk |
| Volume.OnceFS.ResolvePath | oncefs.c:456-504 | the answer is that of the recursive definition: the first missing, over-long or non-directory component decides the error |
| Volume.OnceFS.InitNode | oncefs.c:518-562 | existing paths and bad parents are refused without change; otherwise the node has the next number, which is used up |
| Volume.OnceFS.SetFile | oncefs.c:574-595 | the node of the path is written as one record, or an error leaves the stated state |
| Volume.OnceFS.SetDir | oncefs.c:607-628 | the same for a directory |
| Volume.OnceFS.SetLink | oncefs.c:641-688 | the entry and its payload are written as two records in order, or none is |
| Volume.OnceFS.SetTime | oncefs.c:690-719 | both times change in one record unless the modification time is already the same; for the root, which has no row, one is entered with a parent and name that were never set |
| Volume.OnceFS.SetData | oncefs.c:913-942 | the data is written as chunks of at most one payload; without space a proper prefix of the chunks stays |
| Volume.OnceFS.DelDataRows | oncefs.c:1315-1374 | every data row of the node is trimmed or freed at the new size, its truncate rows are free, other nodes are untouched |
| Volume.OnceFS.DelData | oncefs.c:1388-1414 | a truncate of an existing file is one record; any other number is refused without change |
| Volume.OnceFS.DelNodeRows | oncefs.c:1231-1264 | every row of the node leaves the nodes table and every block of it is free |
| Volume.OnceFS.RemoveNode | oncefs.c:1199-1267 | with the check on a directory with children is refused without change |
| Volume.OnceFS.DelNode | oncefs.c:1279-1301 | deleting a file, link or empty directory is one record; a directory with children, the root included, is refused |
| Volume.OnceFS.MoveRow | oncefs.c:1094-1115 | the row moves if its new slot is free; otherwise nothing changes and the error tells a file from anything else |
| Volume.OnceFS.MoveNode | oncefs.c:1130-1185 | the checks in order, then a delete of the file in the way and a move, each one record; the root is moved as anything else |
| Volume.OnceFS.GetStatus | oncefs.c:731-777 | total and free blocks as the accounting defines them |
| Volume.OnceFS.GetNode | oncefs.c:790-824 | the resolved node, and for a file the end of its last block in lookup order |
| Volume.OnceFS.GetDir | oncefs.c:837-866 | a row of the table is listed if and only if its parent is the node, once, in the order of the names |
| Volume.OnceFS.HasChildren | oncefs.c:1202-1219 | true if and only if some row of the table has the node for its parent |
| Volume.OnceFS.GetLink | oncefs.c:879-898 | the payload of a link; other kinds are refused |
| Volume.OnceFS.Paint | oncefs.c:1002-1040 | exactly the bytes the block has in the range are copied to their places, and its reach is returned |
| Volume.OnceFS.GetChunk | oncefs.c:957-1047 | each buffer byte is the newest live byte of its position or unchanged; the length is the greatest reach of any block |
| Volume.OnceFS.GetData | oncefs.c:1064-1081 | the buffer holds the file up to the returned total, which is what chunk after chunk reports |
| Volume.OnceFS.LoadEffect | oncefs.c:1513-1572 | each record has the effect it had live; only a conflicting move fails, and then without change, with an error that tells a file in the slot from anything else |
| Volume.OnceFS.Load | oncefs.c:1461-1584 | the readable tags are sorted, and loading succeeds exactly when replaying them does, with its tables and counters |
| Operations.LoadIsMount | oncefs.c:1470-1499 | when sequence numbers are distinct, that is the mount of the readable disk, whatever order the sort saw the tags in; an error is that of a move whose slot was taken when the replay got there |
| Volume.Format | oncefs.c:1427-1448 | a formatted container has no valid block and the object over it is a fresh volume, ready for every operation when a fill fits its 16 bits |
| Volume.Open | oncefs.c:193-235 | opening a container without formatting is loading it into a new object |
| Runs.AppendOnlyRecovery | oncefs.c:1461-1584 | while nothing was overwritten, mounting after any record of a run, also inside an operation, gives exactly the memory and counters of that point, with a sound tree |
| Runs.MountRecovers | oncefs.c:1461-1584 | mounting a recoverable disk gives the same nodes, live rows, free places, block and sequence counters, and a state that is recoverable again |
| Runs.MountNumbered | oncefs.c:1574-1581 | the node counter of a mounted volume may be smaller than before but lies above every node and row number in it |
| Runs.CounterExact | oncefs.c:338-342 | in any state of a run: a mount brings the node counter back if and only if the highest number is still named on the disk |
| Guarantees.MountConsistent | oncefs.c:1461-1584 | so a mount of what can be recovered has everything the operations rely on |
| Runs.RecoverableExact | oncefs.c:259-313 | every state of a run can be recovered from its disk if and only if nothing still needed was overwritten |
| Runs.RowsExact | oncefs.c:1360-1371 | every state of a run has its rows recovered from its disk if and only if no overwritten truncate was missed, takeovers included |
| Runs.KeepingIsSafe | oncefs.c:302-310 | without takeovers that is the same as nothing still needed being overwritten |
| Runs.MountsExact | oncefs.c:1542-1543 | for every run, takeovers and missed truncates included: all its disks can be mounted if and only if every write kept the disk mountable |
| Runs.ReuseRecovery | oncefs.c:259-313 | after any run with safe reuse and remounts, moves included, a mount at any point rebuilds the live nodes, the non-free rows, the places of the free ones and the counters; and all mounts succeed if and only if no write revived a name |
| Runs.NoMovesReviveNothing | oncefs.c:1542-1543 | a run without renames revives nothing, so all its disks can be mounted |
| Histories.RunIsDated | oncefs.c:363-384 | in every reachable state each record on the disk is in the history, at the place its sequence number says |
| Histories.RunRemembers | oncefs.c:287-295 | in every reachable state, whatever was overwritten, a record whose node the history has deleted since is outlived by a delete record of that node |
| Histories.ShrinkingKeepsCuts | oncefs.c:1360-1371 | for a caller whose truncates never grow a file between its deletes no overwritten truncate is missed, takeovers included |
| Histories.ShrinkingIsSafe | oncefs.c:1360-1371 | such a caller, in a run that takes no node record over, reuses blocks safely |
| FreshNames.FreshRunMounts | oncefs.c:1542-1543 | if every move goes to a name that no entry had, apart from entries deleted for good, every disk of the run can be mounted, whatever was overwritten |
| FreshNames.FreshAndShrinkingRecovers | oncefs.c:1461-1584 | with truncates that never grow a file and no takeover besides, every mount recovers everything |
| Guarantees.CarefulCallerRecovers | oncefs.c:731-777 | the same with a free block reported before each write in place of the takeovers |
| RunFiles.FilesSurvive | oncefs.c:913-942 | after any run, takeovers included, each file shows exactly what its writes, truncates and deletes mean; only truncates overwritten before the last remount must not be missed |
| Guarantees.ShrinkingFilesSurvive | oncefs.c:913-942 | for a caller that never truncates a file to more than before, after any run with any takeovers and remounts |
| MountedFiles.MountShowsDisk | oncefs.c:1461-1584 | after any mount, whatever was overwritten, each file is the fold of the records still on the disk |
| MountedFiles.RunShows | oncefs.c:1461-1584 | after any run each file is what was written since the last mount, over what the disk told that mount |
| MountedFiles.FilesExact | oncefs.c:1461-1584 | a file shows its history at every point of a run if and only if at every mount the records left on the disk said of it what the history had made of it |
| MountedFiles.MountShowsHistory | oncefs.c:1461-1584 | in any state of any run a mount shows the file of the history if and only if the records left say the same |
| MountedFiles.MissedCutExact | oncefs.c:1360-1371 | overwriting a truncate leaves the records saying what the write means if and only if every position the truncate had cut off is settled by a later record |
| RunFiles.AppendedFilesStaySolid | oncefs.c:913-942 | a file only appended to and truncated stays gap-free with disjoint blocks, under the same condition |
| Guarantees.RecordsExtendRun | oncefs.c:363-384 | whatever records an operation wrote, the run goes on with exactly those |
| Runs.RunStaysSane | oncefs.c:363-384 | in every reachable state, takeovers and remounts included, the rows cover exactly the blocks in use |
| Guarantees.RunConservesSpace | oncefs.c:731-777 | in every state of a run, takeovers and remounts included, free and live blocks are together all blocks |
| Guarantees.FreeDecidesSource | oncefs.c:259-313 | the allocator stays clear of node records for a write if and only if the status call would count a free block after its effect |
| Guarantees.FreeRunTakesNothingOver | oncefs.c:731-777 | a run takes no node record over if and only if each of its writes still had a free block; a free block before each write is enough |
| Guarantees.RunCanBeOpened | oncefs.c:1461-1485 | every disk a run leaves can be handed to Open, which reads the whole log |
| Guarantees.DeleteAnswer | oncefs.c:1279-1301 | a delete answers ENOSPC if and only if nothing is reported free and its node has no live block; otherwise it returns exactly the node's live blocks |
| Guarantees.DeleteFitsInRun | oncefs.c:1279-1301 | after any run, with any takeovers and remounts, a delete of a node in the table never lacks space and returns exactly the node's live blocks |
| Guarantees.ReadYourWrite | oncefs.c:1064-1081 | reading the range just written puts exactly the written bytes in the buffer |
| Guarantees.FileReadBack | oncefs.c:1064-1081 | any file without a hole in the range is read back to the byte, from any position and whatever blocks it lies in |
| Guarantees.SolidReadBack | oncefs.c:1064-1081 | a gap-free file is read back to the byte from any position; the length is never short, less than one payload too great, and exact with blocks on the payload grid and a read from it |
| Guarantees.RunReadBack | oncefs.c:1064-1081 | after any run in which no overwritten truncate was missed before a remount, a range without holes is read back to the byte the history means |
| Guarantees.RunSolidTotal | oncefs.c:1064-1081 | and for a gap-free file the length is right to within a payload, or exactly when the writes and the read are on the grid |
| Guarantees.ExactEnd | oncefs.c:1315-1374 | a file written in one go and cut to n reads back as exactly its first n bytes |
| Guarantees.SizeReported | oncefs.c:803-818 | after any run that only appended to and truncated a file the size query is exact |
| Guarantees.SizeExact | oncefs.c:812-815 | the size query is right if and only if no block of the file reaches past the size it gives |
| WriteSizes.WriteSizeExact | oncefs.c:812-815 | after a write call the size query stays right if and only if its last chunk starts where the last block does, or behind it and the write reaches its end, or before it and the write stays within |
| WriteSizes.CutSizeExact | oncefs.c:1339-1352 | after a truncate the size query is right if and only if of the blocks that start below the cut none reaches, up to the cut, past the last one |
| WriteSizes.CutBehindLast | oncefs.c:1339-1352 | so a cut behind the start of the last block leaves a right size right |
| Guarantees.CreateFound | oncefs.c:574-628 | a successful create is found at its path, moves no other answer and leaves every entry reachable |
| Guarantees.DeleteGone | oncefs.c:1279-1301 | a successful delete empties its path, moves no other answer and leaves the other entries reachable |
| Guarantees.RenameDone | oncefs.c:1130-1185 | a successful rename leaves exactly the renamed node table |
| Guarantees.RenameMovesSubtree | oncefs.c:1130-1185 | a successful rename out of the source takes the whole subtree along and leaves the other paths and reachability alone |
| FileRenames.RenameBytes | oncefs.c:1160-1171 | a successful rename drops the bytes of the file in the way and leaves every other file as it was |
| FileRenames.RenameKeepsBytes | oncefs.c:1160-1171 | the renamed file keeps its bytes if and only if it goes to another path or had none |
| LinkGuarantees.LinkFound | oncefs.c:641-688 | a successful link is found at its path with its target stored, moves no other answer and leaves every entry reachable |
| LinkGuarantees.LinkStaysOnDisk | oncefs.c:302-310 | the first record of a new link is on the disk afterwards if and only if two blocks were reported free before |
| Calls.AnswerWrites | oncefs.c:363-384 | any call that succeeds, a rename included, has written some records in order and done nothing else |
| Calls.AnswerConsistent | oncefs.c:581-586 | any call, whatever its answer, leaves a state every other call may be made in |
| Calls.SessionIsRun | oncefs.c:363-384 | calls on a fresh volume that each succeed or change nothing are a run |
| Calls.SessionConservesSpace | oncefs.c:731-777 | after any calls, ENOSPC answers included, free and live blocks are together all blocks |
| Calls.TouchedKeepsReachable | oncefs.c:690-719 | setting the times of an entry leaves every entry with a path |
| Calls.SessionKeepsReachable | oncefs.c:1130-1151 | after any calls, failed ones included, among which no rename goes into its own source or to the root, every entry still has a path from the root |
| Replies.NoSpaceExact | oncefs.c:259-313 | the allocator has nothing to hand out if and only if nothing is reported free and the node has no node record to give up |
| Replies.ReuseExact | oncefs.c:259-313 | of the blocks to reuse free ones come first, then those of deletes, then the node's own records; among them the node number, offset, fill and block decide, in this order |
| Replies.NewNodeExact | oncefs.c:518-562 | a create is refused if and only if the parent does not resolve, is no directory, the name is over-long or some row has the slot; otherwise the node has the next number, the parent's, and the given times |
| Replies.CreateAnswer | oncefs.c:574-628 | a create that is not refused succeeds if and only if a free block is reported; the one new row and the one new record are the node, found at its path, and a refused one changes nothing |
| Replies.CreateElsewhere | oncefs.c:574-628 | whatever a create answers, no path that does not go through the new entry changes its answer |
| Replies.LinkAnswer | oncefs.c:641-688 | the same for a link: refused for an over-long target or as any create, ENOSPC if and only if nothing is free, and otherwise exactly the two rows and the two records, in order |
| Replies.BelowDirectory | oncefs.c:456-504 | the rows whose parent is a directory are what its path extended by their names leads to, and nothing else |
| Replies.ParentalExact | oncefs.c:1202-1219 | a directory has a row below it if and only if its path extended by some name resolves |
| Replies.ListingExact | oncefs.c:837-866 | a listing of a directory has each entry once, and a name is in it if and only if the path extended by it resolves |
| Replies.RemoveAnswer | oncefs.c:1279-1301 | a delete is refused if and only if the path does not resolve or leads to a directory that some row has for its parent; otherwise it fails only if nothing is free and the node has no live block, and it takes out exactly the rows of the node's number |
| Replies.EmptyIsDeleted | oncefs.c:1202-1229 | a directory below which nothing resolves is deleted if a block is free or one of its own is live |
| Replies.TouchAnswer | oncefs.c:690-719 | afterwards the path leads to the old node with exactly the given times and every other path answers as before; with the modification time there already is nothing changes |
| Replies.RenameAnswer | oncefs.c:1130-1185 | which error a rename gives for a missing source, a missing parent, a parent that is no directory, and a target that is no file, all without change; otherwise it succeeds if a block is free, and without one if and only if the node has a node record to give up or the file in the way a live block; exactly the renamed rows, and one record or two |
| Replies.RenameClips | oncefs.c:1153-1158 | to an over-long last name, or to the root: the row gets the longest part, or the slash, for its name, and is refused if that slot is taken by anything |
| Replies.RootRenameAnswer | oncefs.c:1130-1185 | renaming the root is answered, and enters a row, as for any entry |
| Replies.CutAnswer | oncefs.c:1388-1414 | ENOENT if and only if no file has the number; ENOSPC if and only if nothing is free, the truncate frees nothing and the file has no node record to give up; otherwise one record |
| Replies.StoreAnswer | oncefs.c:913-942 | a write succeeds if and only if its data fits into the free blocks and the file's own node records; otherwise it answers ENOSPC and leaves exactly what a write of as much as fits would have left |
| Replies.SizeAnswer | oncefs.c:803-818 | the size of a file is where the block ends that starts last, the longest of these |
| Scenarios.WriteThenRead | test_unit.py:116-138 | a write succeeds if and only if its data fits, and then reading the same range fills the buffer with exactly that data |
| Scenarios.ReadPart | test_unit.py:139-160 | reading any part of a file that has no hole there fills the buffer with exactly its bytes |
| Scenarios.WriteCutRead | test_unit.py:410-435 | an empty file filled from the start and cut reads back as exactly what is left, and the rest of the buffer is untouched; both calls succeed if there is a block more than the data needs |
| Scenarios.Remount | test.c:709-745 | mounting again succeeds exactly when the replay does; an exact volume comes back as it was, and a recoverable one up to its free rows, ready for every operation; otherwise the error tells what was in the slot of the move the replay stopped at |
| Scenarios.DeleteWhenFull | test_unit.py:372-408 | a directory that some row has for its parent is refused; otherwise a delete fails for lack of space exactly when nothing is free and the node has no live block, so never while every entry has one, and when it succeeds the path is gone and the node's live blocks are free |
| Scenarios.DeleteEmpty | test_unit.py:342-370 | a directory below which nothing resolves is deleted if a block is free or one of its own is live |
| Scenarios.RenameThenResolve | test_unit.py:231-254 | after a rename what was below the source resolves below the destination |
| Scenarios.RenameThenLook | test_unit.py:279-306 | the answer of every rename to a name that is not over-long; when one out of the source succeeds the node is found at its new path with its new parent and name, and no longer at its old one |
| Scenarios.CreateThenList | test_unit.py:61-89 | the answer of every create; when it succeeds the node is found with the given times and no size, the listing of its directory has it and otherwise what was there before, and no path beside it changes |
| Scenarios.TouchThenGet | test_unit.py:595-621 | the times set are the times read, and nothing else changes on any path |
| Scenarios.ListThenResolve | oncefs.c:837-866 | a listing has exactly the rows below the node, once each, and a name resolves below a directory if and only if it is listed |
| Scenarios.LinkThenRead | test_unit.py:214-230 | the answer of every link, and one just created reads back as the target it was given |
| Limits.SelfRenameEmpties | oncefs.c:1160-1171 | renaming a file to its own path succeeds and loses all its data |
| Limits.LinkTakesOverItself | oncefs.c:302-310 | on a container of one block a link succeeds and is gone after a mount |
| Limits.SizeUnderstated | oncefs.c:812-815 | a short write inside a file makes the size query report less than the file has |
| Limits.ReadOverstated | oncefs.c:1035-1037 | after one write, a read that starts inside its block reports the skipped front as well |
| Limits.ReadStopsAtGap | oncefs.c:1074-1075 | after one write past the first payload, a read from the start stops at once although bytes follow |
| ReuseLimits.MovesUnderReuseFail | oncefs.c:1542-1543 | a run of creates, deletes and renames on four blocks, without takeover, whose disk cannot be mounted |
| ReuseLimits.GrowingTruncateForgets | oncefs.c:1360-1371 | a run on four blocks in which a cut file comes back longer after a mount |
| ReuseLimits.CounterShrinks | oncefs.c:338-342 | a run on four blocks, without takeover, after which a mount hands out the number of a deleted node again |
| ReuseLimits.SelfRenameLoses | oncefs.c:1160-1171 | in a reached state a file with bytes is renamed to its own path and has none afterwards |
| ReuseLimits.RenameIntoItselfLoses | oncefs.c:1130-1151 | in a reached state a directory renamed into itself passes all checks and has no path afterwards |

## Left out

- `fuse.c`: the callbacks, argument parsing and mounting are glue over libfuse.
- `lib/io.c` and byte layout: a container is a map from block to record, a block write is atomic and returns what was
  written; I/O errors, `io_sync` and the mode without a container (`io == NULL`) are not modelled.
- Integer widths: block, node and sequence numbers are unbounded; a payload is at most 65535, so that a fill fits its 16
  bits. Wrap-around of the counters is not modelled.
- `malloc` and `realloc` failures, `entry_size` casts, `array_get` and `array_set` past the end, and the over-long tag
  read in load.
- `strtok_r`, `dirname`, `basename`, `strcpy`: a path is a sequence of names. A rename clips an over-long last name as
  `strncpy` does; names of exactly the maximum length without a terminator are not modelled.
- Calls.SessionStaysConsistent: sessions leave out setting the time of the root and renaming it; the methods say what
  these do, but afterwards the root is an entry of its own table and nothing the other operations rely on holds.
- Names in paths are not required to be free of slashes; a rename to the root stores the one name, `/`, that no path of the
  program can spell, which is why `Calls.SessionKeepsReachable` excludes it.
- Volume.OnceFS.SetData: requires a payload of at least one byte; with none the write loop of the source does not end.
- Volume.Format: with a payload above 65535 the volume is formatted, but its operations are not covered, because the
  source then cuts fills and chunk sizes to 16 bits.
- Volume.Open: requires that no record of the container holds more than a payload.
- `time(NULL)`, mode bits and the access-time policy: times are inputs, one clock reading per create, and the mode is 0.
- `qsort`: the array sort is any sorted permutation, realised by insertion sort.
- The list of indexes of a table: a table has one primary and one lookup index.
- Tables.Table.Delete: membership of an id in the run to drop is `in` on a sequence, not a second binary search over a
  sorted array of ids.
- Volume.OnceFS.GetNode: the mode and the kind flags are the fields of the returned node; the size of a link is not reported.
- Volume.OnceFS.GetDir: the callback is replaced by the list of the rows it would be called with.
- Volume.OnceFS.Load: unknown operations (ENOSYS) do not occur, since a valid record is one of the five kinds; no record
  of the container holds more than a payload, which `Guarantees.RunCanBeOpened` shows of every disk a run leaves.
- Memory ahead of the disk: after `ENOSPC` the state is consistent and conserves space, but what a mount gives after
  further writes from there is not claimed; runs consist of the block writes that happened.
- `oncefs_dumps`, `table_dump`, `array_dump`, `table_to_array` and `array_sorted_extract`: output and unused helpers.
