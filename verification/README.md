# Aloelite, verified

A Dafny model of the engine of Aloelite, a versioned, deduplicating,
lock-fenced file store, and of the lock registry of its DAV front end, with
proofs of what they promise. `dafny verify dfyconfig.toml` checks everything.

Each part has a plain meaning and a complicated implementation, and the proofs
connect the two.

* **Versioned chunks.** An entry is a committed `(version, size)` pointer; a
  version is a manifest of references into a pool of immutable chunks shared by
  all entries. Its meaning is a flat byte sequence (`Flat`). `Chunking` and
  `Editing` relate the two for every chunk size, `Tables` says what one
  transaction may do, `Store` holds the operations as methods of `Db`, `Edits`
  their sequences, `Reading` the read descriptor, `Verifier` the consistency
  check and `Collector` the garbage collector.
* **Streaming writes.** `Streaming` is the write descriptor, which stages each
  chunk in a transaction of its own and swaps the pointer on close. `Protocol`
  runs any number of writers, other mounts' edits, the collector and the expiry
  of locks and mounts in any order. `Locking` is the standalone locks,
  `Reissue` shows which collections are safe, and what follows each that is not,
  and `Snapshots` what a reader gets of the version it started with.
* **Dirty extents.** `Extents` and `Overlay` are the write buffer of one inode
  of the FUSE front end, `Handles` its table of read and random-access handles.
* **Namespace.** Placements are named edges. `Paths`, `Resolution` and
  `Backpaths` go from text to node and back; `Forest` and `Placements` are the
  theory of parent maps and of the bounded recursive views; `Namespace` says
  what each operation does and what it keeps, `Naming` what its path shows
  afterwards, `Volumes` performs them, `Histories` runs them, and `Calls` shows
  that what the methods do is what it runs. `Subtrees`,
  `Listing`, `Copying` and `Packing` are copy, pack and unpack, `RoundTrips`
  goes from one to the other, and `Cases` holds the runs that go wrong.
* **Access.** `Access` says of every operation exactly when each of its answers is
  given, in terms of the mount, lock and placement rows, and that over all runs
  nothing changes but on behalf of a live, writable mount.
* **DAV locks.** `DavPaths` normalizes paths, `DavLocks` is the registry.
* **Ids.** `Ids` is the mint and the printed layout, `Watermarks` the stored
  mark that fences later sessions.

## What the proofs found

Where a promise does not hold as stated, the code is modelled as it is, a
lemma shows a concrete case, and the exact condition is proved.

* A write descriptor that has lost its lock may still flush. If `prune_content`
  runs while nobody holds the node locked and the descriptor's claimed version
  is above the committed pointer, its chunks go and its version number can be
  given out again. Its next flush then lands in another writer's version: a
  close under a valid lock publishes bytes nobody wrote (`Reissue.ClosesWrong`),
  or the flush changes what is committed, with no close at all, under another
  mount's valid lock (`Reissue.ChangesHeld`). From every state of the invariant
  these can follow exactly when a collection was unsafe in that sense
  (`Reissue.ExactlyWhenSafe`), and six calls lead there from an empty volume
  (`Reissue.UnsafeIsReached`). The same goes for the consistency check: it stays
  clean in all runs from there exactly when the collection was safe. A descriptor
  whose version lies below the pointer does no harm. That a node's valid locks belong to one mount holds in all runs
  (`Protocol.RunLocks`).
* A range is read from the version whose pointer was read before it. Whatever is
  committed in between, it is the slice of that version as long as every
  collection retains it (`Snapshots.ReadAcrossRun`), and nothing right after the
  first that does not (`Snapshots.FirstLossBreaks`). If the pointer had moved on past
  that version, it gives nothing ever after (`Snapshots.LostForGood`). If it had
  moved back, as it does when a writer that claimed its version earlier closes
  after an edit by its own mount, the number can be given out again, and the
  read gives bytes of another version (`Snapshots.ReadsAnother`).
* A descriptor closed with more than a chunk in its buffer, as a failed flush
  leaves it, publishes a row longer than a chunk; the entry is then no longer cut
  into the uniform chunks every ranged read and write relies on.
  `Streaming.OverlongClose` says exactly when.
* `check_cycle` looks 256 levels up. A container moved further down its own
  subtree than that becomes its own ancestor (`Cases.DeepMoveMakesCycle`); a
  move the check admits is right exactly when the moved container is not that
  far up (`Forest.CheckedMove`).
* The subtree view has the same bound. `remove_recursive` and `pack` leave
  deeper placements active but cut off from the root
  (`Cases.DeepRemovalLeavesOrphan`, `Cases.DeepPackLeavesOrphan`); they keep the
  tree exactly when the view saw the whole subtree (`Placements.CutRooted`,
  `Packing.PackRooted`). `copy` and `pack` carry 256 levels, which is the whole
  subtree exactly when nothing lies deeper (`Copying.CopyIsWhole`,
  `RoundTrips.RestoredIsWhole`, `Cases.DeepCopyIsPartial`).
* A mount point can be removed from under its mount. Creating through that
  mount afterwards makes a placement that does not reach the root
  (`Cases.DetachedMountPoint`). Creating, linking and copying keep the tree
  exactly when the mount point still hangs off the root.
* A rename accepts a name with a separator in it, after which no path leads to
  the node by that name (`Cases.RenamedOutOfReach`). A rename, a move or a
  create onto a name already taken shows the node only when no sibling of that
  name has a newer id: an old file renamed over a newer one stays hidden. The
  exact conditions are `Naming.RenamedIsFound`, `Naming.MovedIsFound` and
  `Naming.CreatedIsFound`.
* The comments of the schema speak of one active parent per node. Leaves may
  have several, so `unpack` of a hardlinked entry archives one of its
  placements, whichever the query returns first. That is surely the one the
  path walked exactly when the entry has no other
  (`RoundTrips.EveryChoiceFits`); `Cases.OtherPlacementReplaced` is a case where
  it is not.
* Resizing a file by path while a random-access handle is open goes past the
  buffer. Unless the file had that size already, its handles go on showing the
  size from before (`Handles.FileSystem.TruncateByPath`, `Handles.StaleSize`).
* A random-access handle whose last flush is refused, and a truncating open
  that is refused, leave one reference too many on the inode's buffer, which
  then outlives its handles (`Handles.FileSystem.LivesWithHandles`). A write
  refused while flushing stays in the file all the same.
* A LOCK request keeps its registry lock when the engine fails otherwise than
  by a lock held elsewhere, and the resource created for it whatever happens
  (`DavLocks.DoLock`, `DavLocks.StrandedLock`).
* Printed ids sort as their stamps cut to 48 bits of time (`Ids.LayoutSorts`),
  so not by time past that (`Ids.LayoutWraps`).

## Assumptions

* Equal chunk addresses mean equal stored bytes, and opening undoes sealing:
  `Address` and `Stored` are free constructors. A random cipher is modelled by
  an arbitrary seed in each sealed chunk.
* Locks are on nodes there are, as the lock table's foreign key says
  (`aloelite/sql/schema.sql:319`).
* Lock ids are never issued twice. Ids of nodes and placements rise within one
  session, as `Ids` and `Watermarks` prove; of another session's it is assumed
  only that an id is not yet in use.
* The clock of mounts and locks does not go back. The clock of the mint may.
* A chunk size is positive, and one volume has one chunk size and one cipher.
* Mount points are containers; neither `mount` nor `resolve_parent` checks it.
* Every public operation is one atomic transaction; every flush of a streaming
  writer is one of its own.
* The DAV requests of one volume run one at a time, as the volume's session
  makes them (`manager/engine/direct.py:233-259`). Between the two looks of
  `_require_unlocked`, and between taking a lock and giving it back, time passes
  and other volumes' requests run.
* The pack format is some injective encoding of the list of nodes.

## Model

| member | source | states |
|---|---|---|
| Chunking.IndexIsQuotient | aloelite/operations.py:644-645 | the additive chunk index and offset used throughout are the quotient and remainder by the chunk size |
| Chunking.SplitIsChunks | aloelite/db.py:557-560 | splitting gives exactly the uniform chunks of the data: full ones, then at most one short one, none when empty |
| Chunking.ChunkOfSpan | aloelite/db.py:512-528 | chunking a span that starts on a boundary is chunking the whole, shifted |
| Editing.OverwritePrefix | aloelite/operations.py:725-745 | chunks before the window of a range write are the same before and after |
| Editing.OverwriteSuffix | aloelite/operations.py:756-768 | chunks after the window are the same before and after, present or not |
| Editing.OverwriteWindow | aloelite/operations.py:732-755 | padding and patching the old window's bytes gives the window of the overwritten bytes |
| Tables.FetchHeld | aloelite/db.py:512-528 | fetching a chunk range and joining it gives the span of bytes those chunks cover |
| Tables.HeldIsWhole | aloelite/db.py:530-547 | a version's rows determine one byte sequence, the one reading it back gives |
| Tables.NextVersionIsFresh | aloelite/config/sql-templates.yaml:497-509 | the next version number has no rows and is not the committed one |
| Tables.NextVersionIsNext | aloelite/config/sql-templates.yaml:497-509 | nor is a number left out: the one before it has rows, is the committed one, or is 0 |
| Tables.CommitMeaning | aloelite/operations.py:592-604 | staging a version and swapping the pointer keeps the tables sound, changes this entry to the new bytes and no other entry |
| Tables.StageMeaning | aloelite/db.py:483-501 | staging rows above the committed pointer changes no entry's bytes |
| Store.WindowRebuilt | aloelite/operations.py:725-768 | carried rows around a rebuilt window hold the new bytes when the chunks outside the window agree |
| Store.Db.StageChunk | aloelite/db.py:483-501 | one row is added and no other row changes; the pool gains the sealed chunk under its address, or nothing when that address is there already |
| Store.Db.StageChunks | aloelite/db.py:457-481 | the data's chunks become the rows of the new version |
| Store.Db.WriteAll | aloelite/operations.py:585-604 | the entry's bytes become the data, or a refusal in the order of the checks and no change; through a mount that is not there or not writable nothing changes |
| Store.Db.Append | aloelite/operations.py:607-677 | the entry's bytes become the old ones followed by the data; an empty append does nothing and ignores locks; through a mount that is not there or not writable nothing changes |
| Store.Db.WriteRange | aloelite/operations.py:680-775 | the entry's bytes are overwritten at the offset with a zero-filled gap, uniformly chunked again, for every offset, data, size and chunk size; the new size is returned; through a mount that is not there or not writable nothing changes |
| Store.Db.Truncate | aloelite/operations.py:778-847 | the entry's bytes are cut or zero-extended to the size, uniformly chunked again; through a mount that is not there or not writable nothing changes |
| Store.Db.PutInitialContent | aloelite/operations.py:178-189 | a new entry holds the given bytes: version 0 when empty, else version 1 |
| Store.Db.CopyContent | aloelite/operations.py:1124-1144 | the new entry reads as the source does and the pool is unchanged |
| Store.Db.SetKeep | aloelite/operations.py:1522-1532 | the retention count changes and no bytes do |
| Edits.EditsAreFlat | aloelite/operations.py:585-847 | after any interleaving of edits on any entries each entry reads as its own edits applied to its flat bytes, though chunks are shared |
| Edits.AllButLastFull | aloelite/operations.py:585-847 | in every sound state every chunk of a committed version but the last is full |
| Collector.PruneContent | aloelite/operations.py:1535-1546 | the two deletions leave exactly the retained versions and the chunks they reference |
| Collector.PruneKeepsBytes | aloelite/operations.py:1535-1546 | collecting changes no committed bytes and leaves no dangling row |
| Collector.PruneKeepsLocked | aloelite/config/sql-templates.yaml:968-987 | collecting removes no row of a node under a valid lock |
| Collector.PrunePoolExact | aloelite/config/sql-templates.yaml:989-999 | the pool left is exactly the chunks some remaining version references |
| Collector.PruneExact | aloelite/sql/schema.sql:478-509 | unscoped and with nothing locked, a version remains exactly when it is retained |
| Collector.PolicyKeepsNewest | aloelite/sql/schema.sql:478-509 | under a policy of `keep` the committed version and the newest `keep - 1` superseded ones stay, all of them when there are fewer, none when `keep` is below two |
| Collector.PolicyCounts | aloelite/sql/schema.sql:478-509 | how many superseded versions stay, counted out for every policy, and all where there is none |
| Collector.ScopedExact | aloelite/config/sql-templates.yaml:968-987 | in any scope a version keeps its rows exactly when it is retained, its node is locked, or it is out of scope |
| Collector.OrphansAreCollected | aloelite/config/sql-templates.yaml:968-987 | rows above the committed pointer of an unlocked node are removed |
| Verifier.Verify | aloelite/operations.py:1549-1607 | exactly the gaps, missing chunks, wrong sizes and, when deep, altered chunks of the committed versions are reported; nothing exactly when every one passes |
| Verifier.NothingWrong | aloelite/operations.py:1549-1607 | nothing is wrong with an entry exactly when its rows have no gap, resolve, add up to its size and, when deep, are filed under their own address |
| Verifier.ProblemsMean | aloelite/operations.py:1549-1607 | a gap is an index missing below one that is there, a missing chunk a row whose address is not in the pool, an altered one a pooled chunk filed under another address, in the deep check only, a wrong size that of a version with rows |
| Verifier.SoundIsClean | aloelite/operations.py:1549-1607 | in every sound state nothing is reported |
| Verifier.GapTest | aloelite/operations.py:1574-1577 | the ordered indexes equal 0..n-1 exactly when they have no gap |
| Reading.ReadDescriptor.Read | aloelite/descriptor.py:125-145 | a read gives the slice of the committed bytes at the cursor, cut at the end, and advances by its length |
| Reading.ReadDescriptor.FetchRange | aloelite/descriptor.py:147-157 | what the rows the version has now give for the range, whatever they are: the slice of the bytes they hold when they hold any that far; what they are after a run is `Snapshots.ReadAcrossRun` |
| Reading.RangedHeld | aloelite/descriptor.py:147-157 | where a version holds some bytes, a range of its chunks trimmed at both edges is the slice of them |
| Reading.ReadDescriptor.Seek | aloelite/descriptor.py:213-229 | seeking from the end uses the size committed now; a negative target is refused |
| Reading.ReadToEnd | aloelite/cli.py:144-148 | reading in pieces until nothing comes back rebuilds the rest of the file |
| Streaming.BufferedIsOverwrite | aloelite/descriptor.py:160-178 | patching the pending buffer is overwriting the whole text at the cursor |
| Streaming.FlushKeepsText | aloelite/descriptor.py:182-191 | a flush moves a chunk from the buffer to the store and changes nothing of the text |
| Streaming.OpenedRepresents | aloelite/operations.py:1478-1508 | a new writer stands for nothing, or for the current bytes with fewer than a chunk pending, cursor at the end |
| Streaming.WriteDescriptor.Write | aloelite/descriptor.py:160-180 | staged and pending together are the flat overwrite at the cursor; fewer than a chunk stays pending; refused exactly below the flushed region |
| Streaming.WriteDescriptor.FlushOneChunk | aloelite/descriptor.py:182-191 | one full chunk is staged in one transaction and the text stays |
| Streaming.WriteDescriptor.ClaimVersion | aloelite/descriptor.py:193-210 | on first use the next version is taken and the full leading chunks are carried into it |
| Streaming.WriteDescriptor.Seek | aloelite/descriptor.py:213-229 | seeking from the end counts the buffered bytes |
| Streaming.WriteDescriptor.Close | aloelite/descriptor.py:263-313 | under a valid lock exactly the text is published and an owned lock released; otherwise nothing is published; closing twice does nothing |
| Streaming.WriteDescriptor.Abort | aloelite/descriptor.py:236-261 | nothing is published and an owned lock is released |
| Streaming.OpenWrite | aloelite/operations.py:1424-1509 | for a node that is there or has just been created: the refusals in order, a lock of its own or the supplied one, and a writer standing for the right bytes; by path it is `Calls.OpenWrite` |
| Streaming.ClosePublishes | aloelite/descriptor.py:283-308 | finishing the staging and swapping the pointer publishes the text |
| Streaming.OverlongClose | aloelite/descriptor.py:282-310 | closed with more than a chunk in the buffer, as a failed flush leaves it, an entry is no longer cut into uniform chunks; with a chunk or less it is |
| Protocol.SessionNarrows | aloelite/operations.py:1322-1399 | no session step revives or moves a lock, and valid locks on a node stay with one mount |
| Protocol.StepInv | aloelite/descriptor.py:160-313 | every step of every party but an unsafe collection keeps the invariant: sound tables, exclusive locks, each writer whose lock is valid standing for its text, and no claimed version above the pointer without rows |
| Protocol.RunInv | aloelite/descriptor.py:160-313 | the invariant holds throughout every run whose collections are safe |
| Protocol.ClosePublishesInEveryRun | aloelite/descriptor.py:263-313 | in every run with safe collections a close under a valid lock publishes exactly the writer's text and changes no other entry; a close without one, or an abort, changes nothing |
| Protocol.OpenToClose | aloelite/descriptor.py:160-313 | from open to close in any run with safe collections, what is published is the writer's own writes and seeks replayed over the bytes it opened with |
| Protocol.TextIsReplay | aloelite/descriptor.py:160-229 | between any two moments of a run a writer's text and cursor are its writes and seeks replayed |
| Protocol.OnlyTheHolderChanges | aloelite/operations.py:1455-1477 | from a state of the invariant, while a mount holds a valid lock on a node, no step but that mount's own changes the node's committed bytes |
| Protocol.FlushKeepsBytes | aloelite/descriptor.py:182-191 | from a state of the invariant a flush changes no committed bytes, by a writer that holds its lock or by one that lost it |
| Protocol.CollectInv | aloelite/operations.py:1535-1546 | a safe collection keeps the chunks every open writer still leans on |
| Protocol.RunLocks | aloelite/operations.py:1322-1399 | in every run, whatever is collected, the valid locks on a node all belong to one mount |
| Protocol.StepLocks | aloelite/operations.py:1322-1399 | no step of anybody revives or moves a lock |
| Protocol.EmptyInv | aloelite/operations.py:239-252 | an empty volume is a state of the invariant |
| Protocol.InvIsTrusted | aloelite/descriptor.py:160-313 | from a state of the invariant, in every run with safe collections, every close under a valid lock publishes its text and every lock protects committed bytes |
| Reissue.ExactlyWhenSafe | aloelite/descriptor.py:20-33 | from any state of the invariant an action leaves closes to be right, locks to protect committed bytes, and the consistency check to stay clean, in all runs with safe collections from there, exactly when it is not a collection that takes the staged chunks of an open descriptor, its version above the pointer, on a node nobody holds |
| Reissue.ClosesWrong | aloelite/descriptor.py:182-191 | once a lost descriptor's version is another writer's, that writer's close under its valid lock publishes more than it wrote, and the consistency check finds a wrong size |
| Reissue.ChangesHeld | aloelite/descriptor.py:182-191 | or, that writer having closed and locked the entry, the lost descriptor's next flush changes the committed bytes with no close at all |
| Reissue.UnsafeIsReached | aloelite/descriptor.py:20-33 | six calls on an empty volume, for every chunk size, lead to where a collection is unsafe and all three go wrong |
| Reissue.InvStaysClean | aloelite/operations.py:1549-1607 | from a state of the invariant the consistency check, shallow and deep, reports nothing in any run with safe collections |
| Snapshots.ReadAcrossRun | aloelite/descriptor.py:125-157 | a range read from the version committed when its pointer was read is the slice of what was committed then, at every moment of every run, writers with and without their locks, edits, creations and collections included, as long as each collection so far retained that version |
| Snapshots.StepKept | aloelite/config/sql-templates.yaml:968-987 | a step leaves a version nobody is writing to its readers exactly when it is not a collection that does not retain it; otherwise the version has no rows |
| Snapshots.FirstLossBreaks | aloelite/config/sql-templates.yaml:968-987 | at the first collection that does not retain the version, any range of it reads as nothing |
| Snapshots.LostForGood | aloelite/config/sql-templates.yaml:497-509 | a version lost while the pointer was past it reads as nothing at every later moment: its number is not given out again |
| Snapshots.ReadsAnother | aloelite/descriptor.py:283-308 | one lost while the pointer was back behind it can come back as another: a close moves the pointer from version 2 back to 1, a safe collection takes version 2, an edit is given its number, and a reader that had read the pointer at 2 gets the edit's byte instead of the one committed then |
| Locking.LockService.TakeLock | aloelite/operations.py:1339-1368 | refused while any valid lock is on the node; otherwise one step of the protocol, the lock is exclusive, and while the mount is valid so is the lock, for exactly its time to live from now, or for good |
| Locking.LockService.Unlock | aloelite/operations.py:1371-1378 | a lock of another mount or an invalid one is refused; releasing frees the node when it was the only lock |
| Locking.LockService.RenewLock | aloelite/operations.py:1381-1399 | only a still valid own lock can be extended; it keeps its id and is valid for exactly the new time to live from now |
| Locking.LockService.Unmount | aloelite/operations.py:407-416 | the mount ends, by one step of the protocol; one that is not there is passed over |
| Locking.LockService.RenewMount | aloelite/operations.py:419-424 | only a valid mount is renewed, by one step of the protocol, and from then on it is valid for exactly its time to live |
| Sessions.LockLasts | aloelite/sql/schema.sql:511-525 | at any later clock a lock is valid exactly while its own time has not come and its mount is valid |
| Sessions.MountLasts | aloelite/sql/schema.sql:511-525 | at any later clock a mount is valid exactly while it is not unmounted and its time has not come |
| Access.WriteAnswers | aloelite/operations.py:585-847 | each refusal of a content write, exactly when it is given in terms of the mount's row, the node and the standing locks of other mounts; a write is made exactly through a live writable mount on a known leaf that nobody else holds |
| Access.OpenAnswers | aloelite/operations.py:1424-1477 | each refusal of opening a node for writing; a supplied lock must stand, be the mount's own and be on that node, else no other mount may hold it |
| Access.PathAnswers | aloelite/operations.py:1424-1477 | the same for a path, where it shows something, shows nothing, or goes through something that is no container |
| Access.OwnedAnswers | aloelite/operations.py:1322-1336 | a lock that does not stand is invalid, another mount's is held, and only the rest can be released or renewed |
| Access.GateFirst | aloelite/operations.py:95-129 | every request on names is refused through a mount that has ended, and then through a read-only one, whatever else it asks |
| Access.CreateAnswers | aloelite/operations.py:552-582 | through a writable mount a create is made exactly when the parent resolves |
| Access.RenameAnswers | aloelite/operations.py:858-877 | a rename is made exactly to a name that is not empty, of a node that resolves and nobody else holds, with each other answer |
| Access.LinkAnswers | aloelite/operations.py:880-904 | a link is made exactly of a leaf nobody else holds to a resolved parent no active placement of which bears the name, with each other answer |
| Access.MoveAnswers | aloelite/operations.py:1002-1037 | a move is made exactly of a node nobody else holds, and not where a container lies up to 256 levels above the new parent, with each other answer |
| Access.RemoveAnswers | aloelite/operations.py:1040-1062 | a removal is made exactly of a leaf, or a container with no active placement in it, that nobody else holds, with each other answer |
| Access.RemoveRecursiveAnswers | aloelite/operations.py:1065-1080 | a recursive removal is made exactly when nobody else holds a node the view shows |
| Access.CopyAnswers | aloelite/operations.py:1092-1103 | a copy is made exactly when both ends resolve, whoever holds the source |
| Access.PackAnswers | aloelite/operations.py:1161-1187 | exactly a placed container is packed nothing of which anybody else holds, with each other answer |
| Access.UnpackAnswers | aloelite/operations.py:1241-1264 | exactly a placed leaf is unpacked whose bytes decode and that nobody else holds, with each other answer |
| Access.OnlyWritersChange | aloelite/operations.py:95-129 | in every run with safe collections the committed bytes of a node change only by an edit or a close on behalf of a mount that at that moment is live and writable |
| Access.CallByWriter | aloelite/operations.py:95-129 | no call by path changes a node or a placement but through a live writable mount |
| Access.EndedForGood | aloelite/operations.py:407-425 | in every run a mount that was unmounted or ran out stays so, and none of its locks stands again |
| Access.UnmountEnds | aloelite/operations.py:407-418 | unmounting ends a mount, and pruning takes exactly the locks that do not stand |
| Extents.MergeSorted | aloelite/fuse.py:104-122 | merging a write leaves extents sorted, non-empty and apart that hold the old bytes under the new |
| Extents.Canonical | aloelite/fuse.py:104-122 | what was written, not the order or pieces it came in, decides the extents |
| Extents.ViewWrite | aloelite/fuse.py:104-124 | folding a write into the extents overwrites the file they show |
| Extents.FlushStep | aloelite/fuse.py:154-156 | committing one extent changes neither the file shown nor its size |
| Extents.TotalIsHeld | aloelite/fuse.py:122-127 | the dirty count is the number of positions the extents hold |
| Overlay.Coalesce | aloelite/fuse.py:104-122 | the merge loop gives apart extents with the new bytes on top, and the new end |
| Overlay.OpenFile.constructor | aloelite/fuse.py:95-101 | a new buffer shows the committed file |
| Overlay.OpenFile.Write | aloelite/fuse.py:104-127 | the file shown is overwritten at the offset and fewer bytes stay dirty than the flush threshold; where the flush due then is refused so is the write, but its bytes stay in the file shown |
| Overlay.OpenFile.Read | aloelite/fuse.py:129-147 | a read gives the slice of the file shown, committed bytes under dirty ones, or is refused exactly when there is something to read and the mount is no longer valid |
| Overlay.SlicesJoin | aloelite/fuse.py:129-147 | reads in pieces, none longer than asked for, join up to the file |
| Overlay.OpenFile.CommitExtents | aloelite/fuse.py:154-156 | each range write on the way keeps the view of what is left to commit, and in the end the committed file is the file shown |
| Overlay.OpenFile.Flush | aloelite/fuse.py:154-161 | the committed file becomes the file shown, which does not change; refused exactly when something is dirty and the engine refuses a write, and then nothing changes; flushing twice does nothing |
| Overlay.OpenFile.Truncate | aloelite/fuse.py:149-152 | the file shown is cut or zero-extended, or the engine's refusal is passed on and nothing changes |
| Handles.FileSystem.Settle | aloelite/fuse.py:308-318 | the committed file of the inode becomes the file its handles share; refused exactly when something is dirty and the engine refuses a write |
| Handles.FileSystem.OpenRead | aloelite/fuse.py:651-664 | a read handle joins the table and no file changes |
| Handles.FileSystem.OpenRandom | aloelite/fuse.py:683-699 | a random-access handle joins, sharing the inode's buffer; only a truncating open changes the file; where truncating is refused there is no handle but its reference on the buffer is lost |
| Handles.FileSystem.Read | aloelite/fuse.py:701-718 | whichever kind of handle reads gets the bytes of the one shared file; refused exactly when what others have pending cannot be flushed, or for a random-access handle when the mount is no longer valid |
| Handles.FileSystem.Write | aloelite/fuse.py:720-745 | a write through any random-access handle overwrites the shared file, even one refused while flushing; a read handle refuses it |
| Handles.FileSystem.Truncate | aloelite/fuse.py:768-780 | resizing through a random-access handle resizes the shared file, or is refused and changes nothing |
| Handles.FileSystem.TruncateByPath | aloelite/fuse.py:781-788 | the file the handles share is resized exactly when none is open on the inode or it had that size already; the buffer's own invariant holds exactly when its size comes out the same |
| Handles.FileSystem.Flush | aloelite/fuse.py:801-805 | the shared file becomes durable and does not change; refused exactly when something is dirty and the engine refuses a write |
| Handles.FileSystem.Release | aloelite/fuse.py:826-841 | the handle leaves the table in any case; unless the flush is refused the shared file is durable and the buffer goes with the last reference |
| Handles.FileSystem.Acquire | aloelite/fuse.py:291-298 | one buffer per inode, counting one reference more |
| Handles.FileSystem.Drop | aloelite/fuse.py:300-306 | one reference less; at none the buffer is gone |
| Handles.FileSystem.LetGo | aloelite/fuse.py:833-835 | where the last flush of a handle is refused its reference is not given back |
| Handles.FileSystem.LivesWithHandles | aloelite/fuse.py:291-306 | a buffer is there exactly while a random-access handle is open on its inode or a reference on it was lost |
| Handles.OneSharedFile | aloelite/fuse.py:683-841 | after any sequence of calls by any handles, each kept by the contracts of the calls, every file is its own writes and resizings applied in order to what it was |
| Handles.StaleSize | aloelite/fuse.py:781-788 | a file of one byte truncated by path to nothing goes on showing a byte to its open handle |
| Paths.SplitConcatenates | aloelite/resolve.py:52-60 | a separator anywhere splits a path into the paths on its two sides, so repeated ones collapse |
| Paths.SplitUndoesJoin | aloelite/resolve.py:52-60 | every list of clean segments is what its joined path splits to |
| Paths.JoinNormalizes | aloelite/operations.py:528-530 | the normalized form of a path means the same path |
| Resolution.ChildIsNewest | aloelite/config/sql-templates.yaml:48-69 | among same-name siblings none is newer than the visible one |
| Resolution.WalkInStretches | aloelite/resolve.py:63-83 | walking a path is walking its first stretch and then the rest from there, through containers only |
| Resolution.ResolveIsConfined | aloelite/resolve.py:86-100 | whatever a path resolves to lies in the subtree of the mount point |
| Resolution.ResolveStays | aloelite/resolve.py:86-100 | a path of separators only, or of nothing, is the node one starts from, and has no parent |
| Resolution.ResolveInStretches | aloelite/resolve.py:63-100 | a path in two stretches, either possibly empty, is the second resolved from where the first leads, which must be a container unless the second is empty |
| Resolution.ParentIsTheRest | aloelite/resolve.py:108-133 | the parent of a path is what the path without its last name resolves to, which must be a container |
| Resolution.ResolveIsChildOfParent | aloelite/resolve.py:108-133 | a path resolves to the visible child its parent resolution names |
| Resolution.ResolveFailsWithParent | aloelite/resolve.py:108-133 | when the parent does not resolve neither does the path, for the same reason |
| Backpaths.BuildPath | aloelite/operations.py:472-491 | the names from the node up to the stop, the corrupt chain and the two ways of not being found |
| Backpaths.NewestIsNewest | aloelite/config/sql-templates.yaml:248-295 | of several placements the climb takes the newest |
| Backpaths.MeetsRoot | aloelite/config/sql-templates.yaml:248-295 | the chain is corrupt exactly when the root is not among what lies at most 256 levels above the node |
| Backpaths.PathLeadsBack | aloelite/config/sql-templates.yaml:248-295 | the path given for a container resolves to it again exactly when no newer sibling has taken a name on the way |
| Forest.MoveKeepsForest | aloelite/operations.py:1002-1037 | reparenting keeps a forest exactly when the new parent is not beneath the moved node |
| Forest.CheckedMove | aloelite/config/sql-templates.yaml:821-837 | a move the cycle check admits keeps the forest exactly when the moved node is no ancestor further up than the check looks |
| Forest.FewerStaysForest | aloelite/operations.py:1040-1080 | taking placements away never closes a cycle |
| Forest.ShallowMove | aloelite/config/sql-templates.yaml:821-837 | where the new parent has at most 256 ancestors the check misses nothing |
| Placements.NodesMeaning | aloelite/sql/schema.sql:401-410 | the subtree view's walk down finds exactly what walks up of as many levels would |
| Placements.PlacedRooted | aloelite/operations.py:1025-1035 | a new or moved placement keeps everything hanging off the root exactly when its parent does and it does not hang a container off itself |
| Placements.CutRooted | aloelite/config/sql-templates.yaml:932-943 | archiving what the view sees leaves the rest hanging off the root exactly when the view saw the whole subtree |
| Namespace.CycleCheckMeaning | aloelite/config/sql-templates.yaml:821-837 | the check finds the moved node exactly when it is at most 256 levels above the new parent |
| Namespace.StepGuarded | aloelite/sql/schema.sql:190-228 | every operation keeps edges between known nodes, from containers only, one active parent per container, and nothing in itself |
| Namespace.StepRooted | aloelite/operations.py:552-1079 | each operation keeps everything placed hanging off the root exactly under a condition that can be checked before it |
| Namespace.LockedStaysPlaced | aloelite/operations.py:858-1079 | no operation archives or renames a placement of a node another mount holds locked |
| Naming.CreatedIsFound | aloelite/operations.py:552-575 | the path just created resolves to the new node exactly when no sibling of that name has a newer id, as a concurrent session may have minted |
| Naming.LinkedIsFound | aloelite/operations.py:880-904 | a link that is made leads to the node by its new path, and every path that led anywhere leads where it led |
| Naming.MovedIsFound | aloelite/operations.py:1002-1037 | the new name shows the moved node exactly when no newer sibling has it, and the old name no longer does |
| Naming.RenamedIsFound | aloelite/operations.py:858-877 | the new name shows the renamed node exactly when no newer sibling has it; the path with its last segment replaced finds the node exactly when, besides, the name is one a path can spell, a second placement apart |
| Naming.RemovedIsGone | aloelite/operations.py:1040-1062 | removing uncovers the next newest sibling and changes nothing else |
| Naming.OutOfReach | aloelite/operations.py:858-877 | a node placed only by names no path can spell is resolved by no path |
| Naming.NotSpelled | aloelite/operations.py:858-877 | a node all of whose placements were renamed to a name no path can spell is found by no path |
| Cases.RenamedOutOfReach | aloelite/operations.py:858-877 | a rename to `a/b` is accepted and afterwards no path finds the container |
| Cases.DetachedMountPoint | aloelite/operations.py:1040-1062 | a mount point removed through another mount, and a create that then misses the root |
| Cases.DeepMoveMakesCycle | aloelite/operations.py:1002-1037 | of 258 nested containers the outermost can be moved into the innermost; it then lies beneath itself and off the root |
| Cases.DeepRemovalLeavesOrphan | aloelite/operations.py:1065-1080 | removing the outermost of 258 containers recursively leaves the innermost active and off the root |
| Cases.DeepPackLeavesOrphan | aloelite/operations.py:1230-1237 | so does packing it |
| Cases.DeepCopyIsPartial | aloelite/operations.py:1092-1151 | no copy of it is all of it, nor is what unpacking its pack brings back |
| Volumes.Volume.constructor | aloelite/operations.py:239-252 | a new volume is a root container, placed nowhere |
| Volumes.NewColumns | aloelite/operations.py:140-163 | a new node is made and last modified at the moment of its creation, under its name and with no other column |
| Volumes.RetitledColumns | aloelite/operations.py:858-877 | a node given another name of its own is modified at that moment; everything else stays |
| Volumes.Volume.Create | aloelite/operations.py:552-582 | the refusals in order, or a new newest node placed under the path's parent holding the data |
| Volumes.Volume.CreateSpecial | aloelite/operations.py:907-922 | the same for links, pipes and sockets only |
| Volumes.Volume.Rename | aloelite/operations.py:858-877 | the placements the path walks take the name; the node's own name follows while it has one placement |
| Volumes.Volume.Link | aloelite/operations.py:880-904 | a leaf gets one more placement; containers, locked nodes and taken names are refused |
| Volumes.Volume.Move | aloelite/operations.py:1002-1037 | the placements the path walks are archived and a new one made; a container keeps one name |
| Volumes.Volume.Remove | aloelite/operations.py:1040-1062 | the placements the path walks are archived; non-empty containers and locked nodes are refused |
| Volumes.Volume.RemoveRecursive | aloelite/operations.py:1065-1080 | every placement of every node the view shows is archived, unless one of them is locked by another mount |
| Subtrees.PlantedIsTree | aloelite/operations.py:1271-1288 | planting a list of items builds the tree the list describes, to every depth |
| Listing.LevelNodesMeaning | aloelite/sql/schema.sql:401-410 | a container is on a level exactly when that many steps up lead to the root of the walk |
| Listing.LevelsByLevel | aloelite/config/sql-templates.yaml:900-911 | rows come by depth and then by edge id |
| Listing.ListedIsTree | aloelite/operations.py:1189-1228 | the list made of the rows of a walk, read from any row as deep as the walk goes, is the subtree there |
| Listing.ListEnds | aloelite/operations.py:1189-1228 | read any deeper it shows nothing more |
| Listing.WalkIsWhole | aloelite/sql/schema.sql:401-410 | the walk has a row for every placement at every level it is met exactly when none is met one level further than it goes |
| Listing.OneLevelMore | aloelite/sql/schema.sql:401-410 | one level more shows something new exactly when something is placed there |
| Copying.RowParent | aloelite/operations.py:1085-1090 | the parent of every row is on an earlier row, one level up |
| Copying.ParentIsLatest | aloelite/operations.py:1111-1147 | until a row's turn comes its parent's node has had no later row, so the id map still leads to the right copy, even where the walk goes round a cycle |
| Copying.CopyRows | aloelite/operations.py:1098-1148 | one pass makes a subtree that at every depth shows the source as far as the walk goes, in shape, names, kinds, times, metadata and bytes, every placement its own node, and touches no old node or placement |
| Copying.Copy | aloelite/operations.py:1092-1151 | the refusals in order, or such a copy placed at the destination |
| Copying.CopyIsWhole | aloelite/operations.py:1092-1151 | a copy equals the source at every depth, leaving ownership, attributes and retention behind, exactly when nothing of the source lies deeper than 256 levels |
| Copying.CopyCarries | aloelite/operations.py:1098-1148 | place by place, as deep as one reads up to the walk's end, each node of the copy has the kind, both times, metadata and bytes of the source's, names its children alike, and has no owner, mode, attributes or policy; neither tree has a place the other has not |
| RoundTrips.CopiedIsFound | aloelite/operations.py:1092-1151 | the destination path shows the copy exactly when nothing by its name there is newer |
| Packing.Packer.ListNodes | aloelite/operations.py:1188-1228 | the packed list is the rows of the walk, parents by position |
| Packing.Packer.Pack | aloelite/operations.py:1161-1238 | the refusals in order, or an entry in the container's place and under its name whose bytes decode to a list of the subtree, and no other node's bytes or columns change |
| Packing.Packer.RestoreRow | aloelite/operations.py:1271-1305 | one item becomes one node with all its traits, mode masked, retention set |
| Packing.Packer.PlantItems | aloelite/operations.py:1270-1305 | the restored subtree is the tree the list describes |
| Packing.Packer.Unpack | aloelite/operations.py:1241-1305 | the refusals in order, or one active placement of the entry archived and the tree its bytes describe planted beside it |
| RoundTrips.RoundTrip | aloelite/operations.py:1161-1305 | pack, any calls by any mounts, then unpack: the subtree is back, with names, kinds, times, ownership, metadata, attributes, retention and bytes, exactly when what was last written to the entry decodes to a list of it, as it does when nothing was; renaming, moving and linking the entry do not matter |
| RoundTrips.RestoredIsWhole | aloelite/operations.py:1161-1305 | what comes back is the subtree at every depth exactly when nothing of it lay deeper than 256 levels |
| RoundTrips.PackedIsFound | aloelite/operations.py:1230-1238 | the packed path resolves to the new entry exactly when no sibling left under that name is newer |
| RoundTrips.UnpackedIsFound | aloelite/operations.py:1257-1288 | where the placement archived is the one walked, the path resolves to the restored root exactly when the entry still bears the name it was packed under and nothing left there by it is newer |
| RoundTrips.PackThenUnpack | aloelite/operations.py:1161-1305 | packing and unpacking by one path brings the subtree back and shows it there unless a sibling by its name is newer |
| RoundTrips.EntryLeaves | aloelite/operations.py:1257-1264 | after an unpack the path's name has lost the packed entry exactly when the placement archived was its only one there |
| RoundTrips.EveryChoiceFits | aloelite/operations.py:1257-1264 | whichever placement is picked is the one walked exactly when the entry has no other |
| Cases.OtherPlacementReplaced | aloelite/operations.py:1257-1264 | an entry with two placements, unpacked by one of them, for which the other is replaced: the path still shows the packed entry |
| Packing.CopyRooted | aloelite/operations.py:1092-1151 | a copy keeps everything hanging off the root exactly when the mount point does |
| Packing.PackRooted | aloelite/operations.py:1230-1237 | packing keeps the rest hanging off the root exactly when the walk saw the whole subtree |
| Packing.UnpackRooted | aloelite/operations.py:1261-1305 | unpacking always keeps everything hanging off the root |
| Packing.PackSparesLocked | aloelite/operations.py:1170-1177 | packing archives no placement of a node another mount holds locked |
| Packing.UnpackSparesLocked | aloelite/operations.py:1249-1264 | unpacking archives no placement of a node another mount holds locked |
| Histories.CallRooted | aloelite/operations.py:552-1305 | each call of any operation keeps the tree exactly under its condition |
| Histories.RunKeepsTree | aloelite/operations.py:552-1305 | over any run of calls that meet their conditions containers have one parent, there is no cycle and every active placement reaches the root |
| Histories.FirstMissBreaks | aloelite/operations.py:552-1305 | the first call that misses its condition breaks the tree |
| Histories.LockedIsSpared | aloelite/operations.py:858-1305 | no call archives or renames a placement of a node another mount holds locked |
| Histories.CallBytes | aloelite/operations.py:552-1305 | no call made by path changes the bytes of a node there was; only an edit of the node does |
| Histories.RunBytes | aloelite/operations.py:552-1305 | over any run a node holds what was last written to it |
| Histories.CallPlaces | aloelite/sql/schema.sql:460-464 | no call deletes a placement and each that makes a node places it, so every node but the root keeps one, active or archived |
| Histories.NothingToPrune | aloelite/config/sql-templates.yaml:950-958 | from a new volume on, over any run of calls, the nodes the sweep would delete are none |
| Calls.Create | aloelite/operations.py:552-582 | refused with nothing changed, exactly as the checks say, or one step of `Histories` from the volume before to the volume after |
| Calls.Rename | aloelite/operations.py:858-877 | refused with nothing changed, or one step of `Histories` |
| Calls.Link | aloelite/operations.py:880-904 | refused with nothing changed, or one step of `Histories` |
| Calls.Move | aloelite/operations.py:1002-1037 | refused with nothing changed, or one step of `Histories` |
| Calls.Remove | aloelite/operations.py:1040-1062 | refused with nothing changed, or one step of `Histories` |
| Calls.RemoveRecursive | aloelite/operations.py:1065-1080 | refused with nothing changed, or one step of `Histories` |
| Calls.Copy | aloelite/operations.py:1092-1151 | refused with nothing changed, or one step of `Histories` |
| Calls.Pack | aloelite/operations.py:1161-1238 | refused with nothing changed, or one step of `Histories`; the format only grows |
| Calls.Unpack | aloelite/operations.py:1241-1305 | refused with nothing changed, or one step of `Histories` |
| Calls.Edit | aloelite/operations.py:585-847 | refused with nothing changed, or one step of `Histories` that writes the edited bytes |
| Calls.EditOnly | aloelite/operations.py:585-847 | the same edit is, whatever writers are open, one step of `Protocol` |
| Calls.OpenWrite | aloelite/operations.py:1424-1509 | the refusals of a path in order, which undo the creation too; else a writer on the entry the path shows, nothing else changed, or, where it shows nothing, on an entry created and placed at the path by one step of `Histories`; one lock more, unless one was supplied |
| DavPaths.NormPath | manager/dav.py:331-354 | the loop drops empty and `.` segments, goes back on `..` but never above the top, and renders the rest |
| DavPaths.RenderedGrows | manager/dav.py:353-354 | the top is written as a separator, each name after a separator of its own |
| DavPaths.GoingOn | manager/dav.py:331-354 | a further name goes one segment down, `..` takes the last segment off and stays at the top, `.` and a separator change nothing |
| DavPaths.StartingOut | manager/dav.py:331-354 | a path of one piece is that name, or the top |
| DavPaths.NormalizeTwice | manager/dav.py:331-354 | normalizing a normal path changes nothing |
| DavPaths.OpeningIsPrefix | manager/davlock.py:204-206 | on normal paths the text prefix test is the segment prefix test |
| DavLocks.ConflictIsOverlap | manager/davlock.py:157-175 | the two-way test of acquire refuses exactly when some path would be governed twice, for all strings |
| DavLocks.SubtreeTouched | manager/davlock.py:110-136 | a lock governs something at or beneath a path exactly when it governs the path or lies at or beneath it |
| DavLocks.CoversMeansPrefix | manager/davlock.py:75-87 | on normal paths governing is being a segment prefix, and so is having beneath |
| DavLocks.DavLock.Refresh | manager/davlock.py:70-73 | the expiry moves by an unclamped timeout, and nothing else |
| DavLocks.LockRegistry.Find | manager/davlock.py:110-118 | the one live lock of the volume governing the path, if there is one |
| DavLocks.LockRegistry.OnlyOneGoverns | manager/davlock.py:110-118 | at most one registered lock of a volume governs a path |
| DavLocks.LockRegistry.CoveredBySubtree | manager/davlock.py:120-136 | exactly the live locks at or beneath the path |
| DavLocks.LockRegistry.Acquire | manager/davlock.py:148-187 | one step of the registry's table: refused exactly when a live lock of the volume governs a path the new one would; locks stay disjoint, and then with the path of such a lock |
| DavLocks.ClampedIsNearest | manager/davlock.py:167-169 | the time granted is ten minutes where none is asked for, else what between a second and an hour comes nearest |
| DavLocks.LiveUntil | manager/davlock.py:66-68 | a lock neither refreshed nor released is live for exactly that time, and others until theirs |
| DavLocks.LockRegistry.Release | manager/davlock.py:189-192 | the token's lock goes, with the expired ones |
| DavLocks.LockRegistry.ReleaseVolume | manager/davlock.py:194-201 | exactly the volume's locks go |
| DavLocks.LockRegistry.RequireUnlocked | manager/dav.py:1209-1227 | refused exactly when the look upwards, or after it the look downwards, finds a lock not submitted: what is still in the way at the second is never missed, nothing is refused that was not in the way at the first; it names the path of such a lock |
| DavLocks.BothLooks | manager/dav.py:1221-1227 | at one moment the two looks find exactly the locks governing the path or anything at or beneath it |
| DavLocks.TwoLooks | manager/dav.py:1221-1227 | whatever happens between the looks, as long as nobody locks or refreshes in the volume, they miss nothing that is in the way at the second |
| DavLocks.MissedLock | manager/dav.py:1221-1227 | a lock taken above the path between the looks would be missed by both |
| DavLocks.DoLock | manager/dav.py:1304-1343 | of a request that fails the registry keeps the lock exactly when it had granted it and the engine failed otherwise than by a lock held elsewhere; a resource created for the request stays in any case |
| DavLocks.StrandedLock | manager/dav.py:1330-1335 | a file that goes away between being found and being locked: the request fails, and its path stays locked until the timeout |
| DavLocks.DoRefresh | manager/dav.py:1270-1284 | extends the first submitted token of a live lock of the volume, by the given timeout or its own, or says there is none |
| DavLocks.DoUnlock | manager/dav.py:1345-1366 | removes exactly the named lock of the volume and the engine's lock it stands for, if that is still a valid one of the mount; a lost engine lock is passed over, any other refusal reported; an unknown token changes nothing |
| DavLocks.AlwaysDisjoint | manager/davlock.py:70-206 | under any interleaving of the registry's steps, which its methods are proved to be, and refreshes outside the mutex no two registered locks of a volume govern a common path |
| Ids.MonotonicMint.Fence | aloelite/ids.py:75-80 | the state is raised to the mark and never lowered |
| Ids.MonotonicMint.Mint | aloelite/ids.py:82-94 | the id is strictly above every id before it and the fence, whatever the clock says |
| Ids.NextIsFirst | aloelite/ids.py:82-94 | of the stamps above the state and not before the clock it is the first |
| Ids.RaisedIsLater | aloelite/ids.py:75-80 | a fence leaves one of the two stamps, the later |
| Ids.LayoutReads | aloelite/ids.py:45-54 | dashes and version digit 7 are in their places, and reading the digits gives back the milliseconds, cut to 48 bits, and the sequence number |
| Ids.LayoutSorts | aloelite/ids.py:45-54 | printed ids sort exactly as their stamps cut to 48 bits of time, whatever the random digits |
| Ids.LayoutWraps | aloelite/ids.py:45-54 | so the first stamp past 48 bits prints before an earlier one |
| Watermarks.Session.MintFor | aloelite/db.py:376-385 | a volume's mint is fenced by the stored mark on first use: to the runs below, for every set of other sessions, the session attaches, a step by `Watermarks.AttachedIsStep`, and nothing else |
| Watermarks.Session.CreateMonotonic | aloelite/db.py:387-401 | a strictly higher id, noted as the pending mark; one mint step of the runs below, after attaching if need be |
| Watermarks.Session.FlushWatermarks | aloelite/db.py:403-413 | every pending mark raises its row and no row falls; for each volume one commit step of the runs below |
| Watermarks.Session.Rollback | aloelite/db.py:425-429 | the pending marks go and the mint stays where it is; for each volume one rollback step of the runs below |
| Watermarks.RunCovered | aloelite/db.py:376-432 | in any interleaving of sessions, commits and rollbacks the mark never falls and covers every committed id |
| Watermarks.MarkIsCommitted | aloelite/db.py:403-432 | the mark is where it was or where a session stood when it committed, and nowhere else |
| Watermarks.MintsRise | aloelite/ids.py:82-94 | a session's ids strictly rise, rolled back or not |
| Watermarks.LaterSessionsMintAbove | aloelite/db.py:376-432 | a session attached later mints above everything committed when it attached |

## Left out

* SQL text, write-ahead logging, pragmas, migrations and real transactions: an
  operation is one atomic step on the tables.
* Ciphers, hashing, keys and PIN handling. The address is of the sealed chunk
  with its seed; nonce and tag are folded into the seed.
* The bytes of the pack format, its version gate and blobs nothing here packed:
  `pack.decode` does not check that a parent's position precedes its child's.
* Which of several same-name siblings inside a copied or restored subtree is
  visible: new ids follow the order of the walk.
* Zero-length writes to the random-access buffer, which the kernel does not
  send.
* Transactions that fail in the database itself: a writer's in-memory version
  and carry flag survive the rollback of the flush that set them. A close with
  more than a chunk in the buffer is covered by `Streaming.OverlongClose` alone,
  and `Protocol.Step` leaves it out.
* Sessions that change in the middle of one flush of a random-access buffer: the
  refusal of its first write is that of all.
* Append and streaming handles of the FUSE front end, renames under open
  handles, attributes, directory snapshots and lookup counts.
* `prune_nodes` as an operation: it finds nothing (`Histories.NothingToPrune`).
* `set_metadata`, `set_owner`, `set_mtime` and extended attributes as
  operations of their own; their columns are carried by copy and pack.
* ctime and atime. Modification times are carried and follow renames; that a
  content write touches them is not modelled.
* Admission of overlapping mounts, encryption checks of a mount, and volumes
  other than one.
* Timeouts of DAV locks are not bounded by a refresh; the code clamps only when
  a lock is taken, and so does the model.
* DAV preconditions and the `If` header beyond the set of tokens it mentions,
  XML, HTTP, S3, the manager's sessions, the command line, health checks.
- Streaming.WriteDescriptor.ClaimVersion: the separate carry flag is folded into the claim, because the two are always set together.
- Cases.DeepPackLeavesOrphan: speaks of the placements pack leaves, not of the entry's bytes, which are no part of the case.
- Store.Db.PutInitialContent: stages the chunks before it inserts the content row, in the same transaction, because the model's rows need no parent row.
- Packing.Packer.RestoreRow: restores extended attributes as one map, because the order they are set in shows nowhere.
- Packing.Packer.Encode: picks any unused blob for a new list, because only that decoding undoes encoding matters.
- Volumes.Volume.Create: stands for `create_container` and `create_entry` alike, because they differ only in the kind.
