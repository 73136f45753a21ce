# A verified model of the B+ tree engine

This project models the persistent index and the code around it that must agree with something
simpler, and proves what each part keeps.

* **The B+ tree.** Pages are a map from page number to node image, the file is an append-only counter,
  and the header is a record. `BPlusTree` is a class with those fields that inserts, deletes, splits,
  borrows, merges, frees and reuses pages the way the code does, from captured root-to-leaf paths and
  without parent pointers. Its specification is a strictly sorted sequence of key/RID pairs. A ghost
  tree shape and a ghost free list tie the pages to that sequence; `Headers.WellFormed` is the index
  invariant (sorted contents, exact right-min separators, uniform depth, occupancy, forward leaf chain,
  live pages and free list a partition of the file, exact counts). Everything a node or header checks
  when it is built or written is a precondition of the write, so a verified method never meets one of
  the internal validation errors.
* **Reading arbitrary pages.** Descent, point and range scans and the structure check are modelled on any
  page map, corrupt ones included.
* **Bytes.** Node and bucket codecs, the decoded-node cache, and the link from payloads to tree pages.
* **Adapters and protocols.** The clustered index over a file whose rows move, the session registry as
  atomic steps of any number of threads, CREATE TABLE with its compensation, and UPDATE with its
  restoration.

How the files build on each other: `Entries`, `Trees`, `Pages`, `Paths`, `Headers` and `Cursors` hold the
data model (a path is a list of frames that rebuilds the tree around a position); `Reads` and `Locating`
the descents; `Splits` and `Inserts` what a split keeps; `Repairs`, `Underflows`, `Parents`, `LeafRepairs`,
`NodeRepairs` and `Deletes` what a repair keeps; `BPlusTree` the class; `Runs`, `Chains`, `Scans`,
`Surveys`, `Validation` and `Bounds` what follows for runs, scans, checks and sizes. `Bytes`, `NodeCodec`,
`Images` and `HashBuckets` are about bytes; `ClusteredIndex`, `Sessions`, `Publication` and `Updates` stand
on their own. Proof bodies use `hide` so that each step sees only the definitions it needs.

`dafny verify dfyconfig.toml` checks the whole project.

## Model

| member | source | states |
|---|---|---|
| BPlusTree.BPlusTree.Insert | engine/indexes/bplus_tree.py:796-874 | From any valid index: the result is a valid index whose sorted pairs are the old ones with the new one put in; an existing pair changes nothing; a unique index refuses exactly when the key is there under another RID, and then header, pages and file are untouched; the file grows only when the free list is used up; the first-leaf page does not change while the index is non-empty |
| BPlusTree.BPlusTree.Delete | engine/indexes/bplus_tree.py:1333-1422 | From any valid index: deleting a pair that is there gives a valid index of exactly the other pairs, through every borrow, merge, cascade and root collapse, with no internal error reachable; deleting a pair that is not there is refused and changes nothing; the file never grows; the first-leaf page stays while pairs are left |
| BPlusTree.BPlusTree.Create | engine/indexes/bplus_tree.py:108-127 | A new index is valid, empty and has no node pages |
| BPlusTree.BPlusTree.InsertFirstEntry | engine/indexes/bplus_tree.py:704-724 | The first pair makes a valid one-leaf index, on a reused page when there is one |
| BPlusTree.BPlusTree.InsertIntoLeaf | engine/indexes/bplus_tree.py:814-832 | Writing one leaf with room keeps the index valid without touching a separator, because the leaf's least key is not one a separator records |
| BPlusTree.BPlusTree.CutLeaf | engine/indexes/bplus_tree.py:834-856 | Both halves of a split leaf are filled well enough, and the two half-trees around the captured path hold the old pairs and the new one with no page lost |
| BPlusTree.BPlusTree.PropagateSplit | engine/indexes/bplus_tree.py:726-794 | A split moved up a captured path, through any number of full ancestors and maybe a new root, ends in one whole tree of the expected pairs, every page accounted for, the first leaf unchanged |
| BPlusTree.BPlusTree.SplitAncestor | engine/indexes/bplus_tree.py:759-782 | Splitting one full ancestor hands the same situation to the next level: two filled halves, a right-min separator, the same contents |
| Splits.CutAncestor | engine/indexes/bplus_tree.py:744-774 | The key and child lists of a full ancestor, edited and cut as the code does, are the pages of the two halves of its widened child list, and the promoted key is the least key of the right half |
| BPlusTree.BPlusTree.AllocateNodePage | engine/indexes/bplus_tree.py:681-702 | A page is taken from the head of the free list, or else appended; either way the tree and the shorter list account for every page, and the page is nowhere else |
| Locating.Locate | engine/indexes/bplus_tree.py:611-673 | The position found is the global lower bound of the pair across all leaves that share its key; found, missing and duplicate-key answers are each exact |
| Locating.LocateExisting | engine/indexes/bplus_tree.py:876-912 | Finds exactly the leaf and position of the pair when it is in the index, across duplicate spans, and reports absence otherwise |
| Reads.Descend | engine/indexes/bplus_tree.py:446-490 | On any pages it ends, and a leaf it reaches is a readable non-empty one; on a well-formed index it reaches the leaf that bounds the key, with a path that tracks the stored pages |
| Reads.Successor | engine/indexes/bplus_tree.py:554-609 | Advancing the captured path gives the next leaf in order, with a valid path, and it is the leaf the stored link names; there is no next leaf exactly when nothing follows in the index |
| Reads.ValidatePath | engine/indexes/bplus_tree.py:539-552 | The check on a captured path passes at every position of a well-formed index |
| Reads.SubtreeMinimum | engine/indexes/bplus_tree.py:943-961 | The left edge of a readable subtree ends in its least key |
| BPlusTree.BPlusTree.RepairInternalUnderflow | engine/indexes/bplus_tree.py:1026-1172 | From a path whose nodes are filled except for one that lacks one child, the repair ends with a tree that is whole but for a possibly one-child root, holding the expected pairs, with exact separators and all pages live or free |
| BPlusTree.BPlusTree.RepairLeafUnderflow | engine/indexes/bplus_tree.py:1174-1331 | The same for an underfull leaf, whatever its siblings can spare, including the upward cascade |
| BPlusTree.BPlusTree.BorrowFromLeftNode | engine/indexes/bplus_tree.py:1076-1103 | Borrowing the left sibling's last child leaves every ancestor's separators exact and the parent's least key unchanged |
| BPlusTree.BPlusTree.BorrowFromRightNode | engine/indexes/bplus_tree.py:1105-1133 | Borrowing the right sibling's first child mends the node; the parent's least key changes only at a first child |
| BPlusTree.BPlusTree.MergeIntoLeftNode | engine/indexes/bplus_tree.py:1135-1168 | Merging into the left sibling frees exactly the underfull node's page and leaves the parent one child shorter with the same contents |
| BPlusTree.BPlusTree.MergeRightNode | engine/indexes/bplus_tree.py:1145-1168 | Merging the right sibling into a first child frees exactly the sibling's page and keeps the contents |
| BPlusTree.BPlusTree.BorrowFromLeftLeaf | engine/indexes/bplus_tree.py:1208-1236 | The left leaf's last pair moves over; the tree holds the expected pairs and the separator between the two is exact again |
| BPlusTree.BPlusTree.BorrowFromRightLeaf | engine/indexes/bplus_tree.py:1238-1272 | The right leaf's first pair moves over, both separators of the parent are exact, and the new least key is reported where an ancestor records it |
| BPlusTree.BPlusTree.MergeIntoLeftLeaf | engine/indexes/bplus_tree.py:1274-1315 | The leaf chain closes over the merged leaf and the freed page joins the free list |
| BPlusTree.BPlusTree.MergeRightLeaf | engine/indexes/bplus_tree.py:1287-1315 | The same when a first leaf takes in its right neighbour |
| BPlusTree.BPlusTree.UpdateMinimumInAncestors | engine/indexes/bplus_tree.py:914-941 | Rewriting at most one separator makes every separator on the path exact for a subtree whose least key has changed |
| BPlusTree.BPlusTree.ShrinkRoot | engine/indexes/bplus_tree.py:995-1024 | A tree whose root may have one child becomes a whole tree of the same pairs and first leaf, and the collapsed roots' pages are free |
| BPlusTree.BPlusTree.DeleteLast | engine/indexes/bplus_tree.py:1347-1368 | With one entry left the tree is a single root leaf, and deleting it gives the valid empty index |
| BPlusTree.BPlusTree.BuildFromStorage | engine/indexes/bplus_tree.py:184-207 | The build succeeds exactly when the scan does and every row can be indexed; it is then complete and holds exactly the scanned pairs; a failed build is valid and stays marked incomplete |
| BPlusTree.BPlusTree.RebuildFromStorage | engine/indexes/bplus_tree.py:331-385 | It succeeds exactly when the build and the commit do, installing an index of exactly the scanned pairs; otherwise header, pages and free list are as they were |
| BPlusTree.BPlusTree.SearchKey | engine/indexes/bplus_tree.py:1571-1597 | On a valid index a point search yields exactly the RIDs of the key, strictly increasing |
| BPlusTree.BPlusTree.SearchRange | engine/indexes/bplus_tree.py:1599-1695 | On a valid index a range yields the one slice of the sorted pairs whose keys lie within the bounds, for every mix of bounds, and only an inverted range is refused |
| Underflows.SeparatorSet | engine/indexes/bplus_tree.py:921-941 | The innermost ancestor that is not entered at its first child is the only one whose separator must change, and changing it suffices |
| Parents.LeftMergePage | engine/indexes/bplus_tree.py:1142-1164 | Dropping one key and one child from the parent's lists gives the page of the parent with the two neighbours merged |
| Parents.RightSharePage | engine/indexes/bplus_tree.py:1253-1261 | The parent's edited keys are the page of the parent after the right neighbour has lent |
| Runs.Run | engine/indexes/bplus_tree.py:796-874 | Any run of insertions and deletions on the class is a run in the sense of the lemmas below: every step keeps the index valid and has the effect of one set operation |
| Runs.RunMeetsSet | engine/indexes/bplus_tree.py:796-874 | After any run of insertions and deletions the index lists, in strict order, exactly the set that the same operations make of a plain set of pairs |
| Runs.FileIsPeak | engine/indexes/bplus_tree.py:681-702 | Over any run the file is as long as the largest number of live pages there ever were: space is fully reused before the file grows |
| Runs.EveryPageIsUsed | engine/indexes/bplus_tree.py:1560-1562 | Live pages and free list partition the page numbers, so their counts add up to the page count |
| Runs.FirstLeafStays | engine/indexes/bplus_tree.py:704-724 | Over any run in which the index is never empty the first-leaf page is one and the same |
| Validation.ValidateStructure | engine/indexes/bplus_tree.py:1424-1569 | On any page map and header, cyclic and shared references included, the check ends; when it accepts, it has found a shape and a free list that are well formed, and it accepts whenever there is one |
| Validation.Validate | engine/indexes/bplus_tree.py:1424-1569 | The check accepts exactly the well-formed indexes, and its report has the height and the counts of the one shape there is |
| Validation.OneShape | engine/indexes/bplus_tree.py:1443-1512 | The pages of a well-formed index determine its tree and its free list |
| Validation.VisitNode | engine/indexes/bplus_tree.py:1476-1512 | A visit of an internal node accepts exactly a sound subtree on pages not met before, and returns its first and last pair |
| Validation.CheckFree | engine/indexes/bplus_tree.py:1546-1558 | The free-list walk ends on any pages and accepts exactly an acyclic list of free pages apart from the live ones |
| Chains.ReadNextLeaf | engine/indexes/bplus_tree.py:492-524 | A link is followed exactly when it leads to a readable, non-empty leaf that starts above the current one and was not seen lately |
| Chains.TrailNeverRepeats | engine/indexes/bplus_tree.py:33-35 | On any pages the leaves a scan has followed are all different and no more than there are pages, although only 32 are remembered |
| Chains.NextStands | engine/indexes/bplus_tree.py:492-524 | On a well-formed index every link of a scan is accepted and leads to the next leaf in order, and a scan without a next leaf has passed everything |
| Scans.RangeEntries | engine/indexes/bplus_tree.py:1599-1695 | On any pages a range scan ends, its leaves form a rising chain, and it yields what lies within the bounds on that chain; on a well-formed index it finishes and yields what lies within the bounds of all pairs |
| Scans.Search | engine/indexes/bplus_tree.py:1571-1597 | On any pages a point scan ends with what its chain holds under the key; on a well-formed index that is every RID of the key |
| Scans.WithinIsSlice | engine/indexes/bplus_tree.py:1664-1693 | What lies within bounds in a sorted sequence is one contiguous slice of it |
| Scans.SearchMeans | engine/indexes/bplus_tree.py:1588-1591 | The RIDs that a point scan collects from ordered pairs are exactly those of the key, in increasing order |
| Bounds.TreeSize | engine/indexes/bplus_node.py:129-150 | A tree of height h >= 2 holds at least 2 * minLeaf * minChildren^(h-2) and at most maxLeaf * (maxInternal+1)^(h-1) pairs |
| Bounds.HeightIsLogarithmic | engine/indexes/bplus_tree.py:460-490 | Every index is lower than 64 levels, so a descent reads at most 63 pages, and a one-entry index is one root leaf |
| Bounds.RealCapacities | engine/indexes/bplus_binary.py:67-83 | The real layout gives every key type a capacity of at least 15 keys, so the bounds the tree needs (leaf minimum at least 2) always hold |
| NodeCodec.NodeFits | engine/indexes/bplus_node.py:106-142 | A node within its key capacity fits the page payload: the size errors cannot occur |
| NodeCodec.CodecExact | engine/indexes/bplus_node_codec.py:52-187 | A payload is read as a node if and only if it is that node's encoding: reading and writing are inverse, every payload accepted is canonical, every valid node has one |
| NodeCodec.Serialize | engine/indexes/bplus_node_codec.py:53-97 | The bytes built entry by entry are the node's encoding and are read back as the node |
| NodeCodec.Deserialize | engine/indexes/bplus_node_codec.py:99-187 | The offset-driven reader yields a node exactly when the payload is that node's encoding, whatever the bytes |
| NodeCodec.NodePageIO.ReadNode | engine/indexes/bplus_io.py:126-146 | A read through the bounded cache returns what decoding the stored page afresh would, after any reads, writes and evictions |
| NodeCodec.NodePageIO.WriteNode | engine/indexes/bplus_io.py:123-124 | A write changes one page, which is then read as the node written, and keeps the cache sound |
| Bytes.EncodedKey | engine/indexes/bplus_codec.py:70-104 | An encoded valid key is read back wherever it stands in a payload, and keeps within the largest encoded size of its type |
| Bytes.DecodedKey | engine/indexes/bplus_codec.py:76-104 | A key that is read is valid for its type and its bytes are its only encoding |
| Images.RankOrders | engine/indexes/bplus_codec.py:106-110 | The keys of every type embed in the numbers that the tree compares, in the order in which the index compares them |
| Images.ValidIsSound | engine/indexes/bplus_node.py:76-150 | A decoded node passes the checks of the node classes exactly when its page passes the checks of the tree with the capacities of the key type |
| Images.PayloadsArePages | engine/indexes/bplus_node_codec.py:99-187 | The nodes that some payload decodes to are exactly those whose fields are in the format and whose page the tree accepts |
| Images.ReadsAgree | engine/indexes/bplus_io.py:126-155 | For any payloads, a node of the tree is read from the decoded page map exactly when its payload is readable, and with that node's page |
| HashBuckets.InsertAdds | engine/indexes/hash_bucket.py:118-137 | There is room for a pair exactly when its insertion succeeds, and the result is the valid bucket of the old pairs and the new one |
| HashBuckets.DeleteRemoves | engine/indexes/hash_bucket.py:139-154 | A deletion succeeds exactly when the pair is there, as keys compare, and takes out that pair only |
| HashBuckets.InsertThenDelete | engine/indexes/hash_bucket.py:127-154 | Deleting a pair that was just inserted restores the bucket exactly |
| HashBuckets.BuiltBucket | engine/indexes/hash_bucket.py:53-91 | Building succeeds exactly for valid, distinct pairs that fit, and gives a valid bucket of exactly those pairs |
| HashBuckets.OrderIsIrrelevant | engine/indexes/hash_bucket.py:127-137 | Lists with the same pairs make the same bucket, and fit in the same cases, when no two pairs compare equal and differ |
| HashBuckets.OrderExact | engine/indexes/hash_bucket.py:127-137 | For every bucket and list: some order of the same pairs gives another result if and only if the list fits and two of its new pairs compare equal and differ in their bytes |
| HashBuckets.ZerosShow | engine/indexes/hash_bucket.py:127-137 | The two float zeros inserted in the two orders leave different buckets |
| HashBuckets.BucketCodecExact | engine/indexes/hash_bucket.py:168-230 | A payload is accepted as a bucket if and only if it is that bucket's encoding |
| HashBuckets.Serialize | engine/indexes/hash_bucket.py:168-188 | The payload built pair by pair is the bucket's encoding and is accepted as the bucket |
| HashBuckets.Deserialize | engine/indexes/hash_bucket.py:190-230 | The reader accepts exactly the canonical payloads, whatever the bytes |
| ClusteredIndex.ClusteredBPlusIndex.InsertRecord | engine/indexes/clustered_bplus.py:310-319 | Whatever fails, an index that may be used holds exactly the pairs of the live rows; success means the new rows are indexed, a refusal changes nothing |
| ClusteredIndex.ClusteredBPlusIndex.DeleteRecord | engine/indexes/clustered_bplus.py:321-341 | The adapter's promise survives the call if and only if file, roll-back and marking do not all fail in it; when it survives a failure the index is as before or out of use |
| ClusteredIndex.ClusteredBPlusIndex.Reorganize | engine/indexes/clustered_bplus.py:343-351 | Rows may all move: afterwards the index matches the new places or is out of use |
| ClusteredIndex.ClusteredBPlusIndex.Rebuild | engine/indexes/clustered_bplus.py:294-300 | A successful rebuild makes the index usable and exact; a failed one leaves flags and pairs as they were |
| ClusteredIndex.ClusteredBPlusIndex.MarkIncomplete | engine/indexes/clustered_bplus.py:302-308 | Marking takes the index out of use without touching its pairs, and a marking that fails changes nothing |
| ClusteredIndex.ClusteredBPlusIndex.Run | engine/indexes/clustered_bplus.py:310-351 | Over any run of calls with any failures but that triple one, an index that may be used is in step with the live rows, and flags and rows are those of the specification |
| ClusteredIndex.ClusteredBPlusIndex.RangeRecords | engine/indexes/clustered_bplus.py:234-292 | A usable index answers a range with exactly the live rows within the bounds, once each, in key order; the consistency errors are unreachable |
| ClusteredIndex.ClusteredBPlusIndex.ValidateStructure | engine/indexes/clustered_bplus.py:357-374 | Equal counts and every row's pair found is equivalent to the index holding exactly the pairs of the rows |
| ClusteredIndex.ClusteredBPlusIndex.InsertAssociation | engine/indexes/clustered_bplus.py:190-192 | The plain insertion accepts exactly the pairs of live rows and so never changes a usable index |
| ClusteredIndex.ClusteredBPlusIndex.DeleteAssociation | engine/indexes/clustered_bplus.py:194-196 | The plain deletion keeps the adapter's promise if and only if it does not succeed |
| ClusteredIndex.ShowTripleFailure | engine/indexes/clustered_bplus.py:321-341 | A one-row adapter that the triple failure leaves usable and out of step |
| ClusteredIndex.ShowPlainDeletion | engine/indexes/clustered_bplus.py:194-196 | A one-row adapter that a successful plain deletion leaves usable and out of step |
| Sessions.SessionRegistry.Run | api/sessions.py:111-268 | For every schedule of every number of threads: each call lock has one holder, no client's life has an event out of turn, nothing opens or starts after a stop, and the entries never exceed the maximum |
| Sessions.NothingAfterClaim | api/sessions.py:198-222 | Once a session is claimed for closing no call starts on it and nobody claims it again |
| Sessions.ClosedOnce | api/sessions.py:198-252 | The registry closes an engine session at most once |
| Sessions.ClaimBeforeClose | api/sessions.py:213-222 | An engine session is closed only after a thread has taken its call lock for good |
| Sessions.OneCallAtATime | api/sessions.py:156-181 | Between two starts of calls on a session, or a start and a claim, the first call has ended |
| Sessions.SessionRegistry.SweepOne | api/sessions.py:238-245 | One iteration of a sweep, with any other thread between iterations: the session is claimed and its entry dropped exactly when it is past its timeout and its lock is free |
| Sessions.SessionRegistry.SweepAlone | api/sessions.py:231-245 | A sweep that no other thread comes between drops exactly the overdue entries that are not in a call |
| Sessions.SessionRegistry.Open | api/sessions.py:111-138 | A session is accepted exactly while the registry runs and has room and the engine agrees |
| Sessions.SessionRegistry.Call | api/sessions.py:156-171 | A call starts exactly when the registry runs, the token is known and the lock is free |
| Sessions.SessionRegistry.Forget | api/sessions.py:224-229 | Only the entry that still names the claimed client is dropped |
| Sessions.SessionRegistry.CloseSession | api/sessions.py:213-222 | A claimed and forgotten client's engine session is still open when it is closed, and its lock stays shut |
| Sessions.SessionRegistry.StopAll | api/sessions.py:254-264 | A stop empties the registry and refuses everything from then on |
| Publication.DatabaseOwner.CreateTable | engine/database/owner.py:490-636 | For every failure point and every set of failing compensations: refused without a change; or fully published; or taken back so that catalog, environment, handles, resources, manifest and files are as before and all registries agree; or the owner is unavailable, exactly when a due compensation fails. The path map survives exactly when the new names are not taken in it |
| Publication.DatabaseOwner.CreateAll | engine/database/owner.py:490-636 | Over any sequence of creations the registries agree as long as the owner is available, and the manifest has grown by exactly the tables created, in order; once a compensation fails everything later is refused |
| Publication.DatabaseOwner.RollbackPublication | engine/database/owner.py:453-488 | The reverse-order rollback never trips the catalog's referenced-table guard: it fails only where a compensation itself does |
| Publication.BackToBefore | engine/database/owner.py:600-629 | What the compensation of any partial creation takes back is exactly what its steps had published |
| Publication.NameClash | engine/database/owner.py:484-487 | Creating table t with a primary key beside a table named `__pk__t` loses the path of the latter, whether the creation succeeds or is taken back |
| Publication.Catalog.UnregisterTable | engine/catalog/catalog.py:60-70 | A table is dropped exactly when it is there and no index refers to it, which keeps every index on a registered table |
| Publication.Catalog.RegisterIndex | engine/catalog/catalog.py:77-110 | An index is accepted exactly when its name and file are free, its table and column exist and no second clustered index would result |
| Publication.Environment.RegisterIndex | engine/query/environment.py:248-343 | A runtime index is accepted exactly beside the storage of its catalog table, under a free name and with a new handle |
| Updates.SqlTable.Update | api/database.py:1108-1176 | The outcome is determined for every statement and every failure point: rejected exactly when a check on the new image fails, and then nothing is touched; done exactly when no step fails, and then the table holds the image of its rows, every unique index is duplicate-free and every index in step; aborted otherwise, and then the original rows are back unless the restoration runs out of steps too, which makes the database unavailable |
| Updates.SqlTable.ReplaceOrRestore | api/database.py:1148-1175 | The restoration succeeds exactly when it has more steps than the rows left behind, the original rows and the indexes need, and then rows and indexes are as before |
| Updates.SqlTable.Prepare | api/database.py:1120-1147 | The checks pass exactly on acceptable statements and yield the whole new image and the number of rows selected |
| Updates.NothingAffected | api/database.py:1137-1138 | A statement that selects no row would leave every row as it is |

## Findings

Four promises that the code does not keep in every case. Each has its exact condition and a concrete input.

* `engine/indexes/clustered_bplus.py:321-341`: when the file's deletion, the roll-back and the marking as
  incomplete all fail in one call, the index stays usable but has lost a live row's pair
  (`ClusteredIndex.ClusteredBPlusIndex.DeleteRecord`, `ClusteredIndex.ShowTripleFailure`).
* `engine/indexes/clustered_bplus.py:194-196`: the plain deletion of an association takes out the pair of a row
  that stays live and leaves the index marked consistent
  (`ClusteredIndex.ClusteredBPlusIndex.DeleteAssociation`, `ClusteredIndex.ShowPlainDeletion`).
* `engine/database/owner.py:484-487` and `583-587`: tables and primary-key indexes share one map of paths, so a
  table named like another table's primary-key index loses its path
  (`Publication.DatabaseOwner.CreateTable`, `Publication.NameClash`).
* `engine/indexes/hash_bucket.py:127-137`: the two float zeros compare equal but have different bytes, so the order
  in which they arrive shows in the bucket (`HashBuckets.OrderExact`, `HashBuckets.ZerosShow`).

Where code and documentation differ the model follows the code: `close` in `api/sessions.py:198-222` is documented
to keep the entry registered until the engine session is closed, but drops the entry first.

## Left out

- BPlusTree.BPlusTree.Insert: page numbers are unbounded; running out of 32-bit page numbers is not modelled in the tree (the codec checks them).
- BPlusTree.BPlusTree.Delete: like Insert, it is stated for valid indexes; what the mutations do on corrupt files is not modelled (reads, scans and the structure check are).
- Sessions.SessionRegistry.Run: no claim that a sweep spares a session that has just finished a call, nor that a cancellation reaches the call it was meant for; group identifiers and status reports are not modelled.
- Updates.SqlTable.Update: the rebuild of spatial indexes, which follows that of the others, is not modelled; a failing step has no effect, and constraint checks beyond column types and unique indexes are not modelled.
- Publication.DatabaseOwner.CreateTable: the size and syntax limits of the manifest and the choice of file names are not modelled; files, handles and identities are taken as new, and a failing step has no effect.
- Keys of the tree are real numbers: the tree only compares keys, and `Images.RankOrders` embeds every key type in them. NaN keys, which validation refuses, have no counterpart.
- Text keys are their UTF-8 bytes, whose order is that of the code points.
- The storage layer is a contract: append allocation, lossless pages, rows that keep their RIDs except where the adapter moves them.
- A crash or an I/O failure in the middle of one tree mutation: the repository excludes it; failures are injected where the code compensates.
- Generators that are closed early, counters, timings, error texts and type checks.
- Header bytes (JSON): the header is a record with its cross-field checks.
- The extendible hash directory, lock manager, undo, planner and the other index engines.
- `create_sql_index`, the drops and GUI table building, which do not form one all-or-nothing step.
