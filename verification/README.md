# Tair: placement, migration, copy, queue and configuration

Dafny models of the hard parts of the Tair distributed cache (release tair_rdb_release_20121009), with
proofs. `dafny verify dfyconfig.toml` checks the whole project.

- **Placement.** The config server places every copy of every bucket on the live servers.
  `TableBuilder.dfy` is the builder with its ledgers and indexes updated in place; `Placement.dfy`,
  `Capacity.dfy`, `Ledgers.dfy`, `Rows.dfy`, `Bookkeeping.dfy` and `Search.dfy` hold the tables, the
  capacity arithmetic of both strategies, the indexes, what the passes do to a row and what the search for
  a server looks at.
- **Migration.** `Accounting.dfy` shows that the test for "this bucket must migrate" is exact.
  `Migration.dfy` is the protocol as a state machine over its locked steps: the served table, the
  progress table, the target, the outstanding count, the per-master tally and the version. `GroupInfo.dfy`
  is the object that performs the steps, proved to be exactly those steps. `Holders.dfy` follows which
  servers hold the data, and `Routing.dfy` follows a client's key to a server.
- **Bucket copy.** `BucketCopy.dfy` is the data server's move of one bucket while clients write, requests
  fail part way and the move may be called off; `Replay.dfy` holds the theory of logs and batches.
- **Replica acknowledgements.** `ReplicaAcks.dfy`.
- **Spill queue.** `SpillBytes.dfy`, `DiskQueue.dfy` and `SpillQueue.dfy`: bytes in segment files, torn
  writes, the memory ring and the merge by id.
- **Configuration file.** `Config.dfy`.

How the model stands to the code:

- The rest of the world is nondeterministic: clients, the network, the operator, the order of hash maps and
  sets, how much of a write reaches the disk. Whether the operator stops a move and whether disk writes are
  cut short at all are constants of an object, so that what holds without them can be said. In the bucket copy a budget of outside events bounds each
  run; it is any number, so every finite run is covered.
- In the config server and the acknowledgements, steps under one lock are atomic. The two locked sections of a
  rebuild are separate steps, with any steps of other threads between them. Calls on the spill queue are
  taken one at a time.
- A table is a sequence of lines of server ids; `Routing.dfy` proves where a cell is in the flat array. A
  server's rack is an arbitrary function of its id.
- Integers are unbounded except where the width matters: record lengths in the disk queue and the
  32-bit comparison of node ids in the spill queue.

Where the code does not do what it promises:

- The disk queue can hand out a record that was never pushed. It takes two torn writes at the start of a
  fresh segment, the later record short enough for the bytes the earlier one left, and a reader that
  has drained the segment before (`DiskQueues.PhantomHappens`). With nothing queued a read succeeds exactly in
  that state (`DiskQueues.DiskQueue.ReadRecord`), which cannot arise after fewer than two torn writes
  (`DiskQueues.DiskQueue.PhantomTakesTwo`). `SpillQueues.LocalQueue.Pop` says what is popped then, and
  `SpillQueues.Drive` that every run which keeps away from it is a queue.
- The spill queue compares ids as 32-bit ints, so from id 2^31 on no node is found by its id
  (`SpillQueues.DueIdIsFound`).
- The periodic hard check of a migration does not take the mutex that a report holds. If it runs inside the
  report of the last outstanding bucket, the report's assertion fails
  (`Migration.HardCheckInsideReport`; `Migration.HardCheckFails` is a run that gets there).
- A rebuild installs the quick table of the snapshot it took in its first locked section. If a migration
  completes before the second section and a data server has released a bucket by then, clients are
  sent to a server without the data (`Holders.StaleSnapshotDrops`). The end of a rebuild is safe exactly when the
  snapshot is current (`Holders.EndIsSafeWhenCurrent`).
- A server whose heartbeat was heard is not heard again before a migration completes, even if a rebuild has set
  another target meanwhile (`Migration.HeartbeatSettles`); its single reports still count.
- In the configuration file a comment behind an empty value is taken for the value
  (`Config.CommentBecomesValue`, with the exact condition in `Config.CommentStaysOut`), and a line without a key
  is accepted if a space stands before its equals sign (`Config.KeylessLine`, `Config.NoKeyIsMalformed`).
- Only two slaves are awaited, although more may be passed (`ReplicaAcks.ThirdSlaveIsNotAwaited`), and an
  acknowledgement that names another bucket spoils the counts (`ReplicaAcks.CountsKept`,
  `ReplicaAcks.WrongBucketSpoils`).
- Waiting for a bucket's copies before a move is reported waits only until fewer than 300 are outstanding,
  although its name promises none (`ReplicaAcks.FreeIsNotDone`); none is outstanding exactly when the count
  is zero (`ReplicaAcks.FreeMeans`).
- Nothing in this release writes to the update log that the bucket copy replays: the hook that asks
  whether to log has no caller (dataserver/tair_manager.cpp:1425-1429). The copy is proved for writers that do
  log, as the hooks intend; without a log it is right exactly when each key's last write leaves what was
  scanned (`Replay.UnloggedWrites`, `Replay.UnloggedWriteIsLost`).

## Model

| member | source | states |
|---|---|---|
| `TableBuilding.TableBuilder.RebuildTable` | DistributedCache/tair_rdb_release_20121009/src/configserver/table_builder.cpp:349-470 | The outcome of a build is decided by the servers alone: it never gives up when there are enough servers (and, with rack safety, comparable rooms). A full build puts every copy on a live server, the copies of a bucket on pairwise distinct servers, over two racks with rack safety; every server masters exactly its capacity, which under load balance is the floor or the ceiling of the mean; the books agree with the result; and a balanced table comes back unchanged when there are at least as many buckets as servers |
| `TableBuilding.TableBuilder.RunPasses` | DistributedCache/tair_rdb_release_20121009/src/configserver/table_builder.cpp:403-469 | The two passes place everything, keep the capacities, and end with every master count at its capacity |
| `TableBuilding.TableBuilder.MasterPass` | DistributedCache/tair_rdb_release_20121009/src/configserver/table_builder.cpp:403-469 | The pass over line 0: every master is live, every count ends at its capacity, and after each bucket no server's count has grown except within its capacity; a content line stays |
| `Bookkeeping.TrailBound` | DistributedCache/tair_rdb_release_20121009/src/configserver/table_builder.cpp:403-469 | So at every moment of that pass a count is at most the larger of its start value and its capacity: overfull servers only shrink |
| `TableBuilding.TableBuilder.SlavePass` | DistributedCache/tair_rdb_release_20121009/src/configserver/table_builder.cpp:403-469 | The pass over the slaves: every bucket's slaves are live, distinct from all other copies of the bucket and, with rack safety, not all in one rack; content slaves stay |
| `TableBuilding.TableBuilder.PlaceMaster` | DistributedCache/tair_rdb_release_20121009/src/configserver/table_builder.cpp:411-463 | One cell of line 0 always gets a master: a live one within capacity stays; otherwise the live slave with the fewest masters takes its place if it has room, and otherwise what the search finds |
| `TableBuilding.TableBuilder.PlaceSlave` | DistributedCache/tair_rdb_release_20121009/src/configserver/table_builder.cpp:411-463 | One slave cell always gets a server: it stays exactly if it is content, and otherwise gets what the search finds. Under load balance it shares a rack only if no server of the least entries looked at, one at the first level and two at the second, has room there and is on a server and in a rack of its own |
| `TableBuilding.TableBuilder.GetSuitableNode` | DistributedCache/tair_rdb_release_20121009/src/configserver/table_builder.cpp:274-319 | The search returns, from the first level that finds anybody, the acceptable server with the least count in excess of its capacity, the previous server first among equals; the levels before it have nobody acceptable among the entries they look at, and it finds nobody only if nobody is acceptable at the last two levels |
| `TableBuilding.TableBuilder.VerdictMeans` | DistributedCache/tair_rdb_release_20121009/src/configserver/table_builder1.cpp:31-75 | A server is accepted exactly if it is live, has room by the level's measure and is far enough from the other copies: not on their servers, below the third level under load balance not in their racks, and with rack safety not leaving all in one rack |
| `TableBuilding.TableBuilder.ScanLevel` | DistributedCache/tair_rdb_release_20121009/src/configserver/table_builder.cpp:298-316 | One level finds the preferred acceptable server, and nobody only if the entries it looks at, the least one, the least two or all, have nobody acceptable |
| `Search.SharedRack` | DistributedCache/tair_rdb_release_20121009/src/configserver/table_builder1.cpp:61-72 | A slave found under load balance shares a rack only if that cannot be helped at the first two levels |
| `Search.ChosenSlave` | DistributedCache/tair_rdb_release_20121009/src/configserver/table_builder.cpp:274-319 | What the search finds for a slave is a free server, with rack safety in another rack, and under load balance in a shared rack only then |
| `TableBuilding.TableBuilder.NoteToken` | DistributedCache/tair_rdb_release_20121009/src/configserver/table_builder.cpp:459-462 | The running counts of a build: one more cell on the server, and one more server above its limit exactly when it comes to be one above |
| `TableBuilding.TableBuilder.ChangeMasterNode` | DistributedCache/tair_rdb_release_20121009/src/configserver/table_builder.cpp:196-241 | The live slave with the fewest masters and the master trade places and the master ledger follows; it succeeds exactly when some slave is live and, unless forced, that one has room |
| `TableBuilding.TableBuilder.InvalidateNode` | DistributedCache/tair_rdb_release_20121009/src/configserver/table_builder.cpp:179-195 | Taking a cell out of the table takes it out of both ledgers, so that recounting still agrees |
| `TableBuilding.TableBuilder.UpdateNode` | DistributedCache/tair_rdb_release_20121009/src/configserver/table_builder.cpp:242-257 | Filling a cell is entered in both ledgers |
| `TableBuilding.TableBuilder.BuildQuickTable` | DistributedCache/tair_rdb_release_20121009/src/configserver/table_builder.cpp:321-346 | Succeeds exactly when every bucket keeps a live copy, and then each bucket keeps its live copies and gets a live master |
| `TableBuilding.TableBuilder.CalculateCapable` | DistributedCache/tair_rdb_release_20121009/src/configserver/table_builder1.cpp:77-175 | Capacities of both strategies cover exactly the live servers and add up to the cells and to the buckets; under load balance they and the limits are floor and remainder of the mean, and equal the present counts when these are already even |
| `TableBuilding.TableBuilder.CountTokens` | DistributedCache/tair_rdb_release_20121009/src/configserver/table_builder.cpp:361-373 | The token counts are the numbers of cells and of masters of every live server |
| `TableBuilding.TableBuilder.SetAvailableServer` | DistributedCache/tair_rdb_release_20121009/src/configserver/table_builder2.cpp:81-118 | The live servers, the largest room, and whether the rooms are comparable; comparable rooms imply two racks |
| `Rows.SelectBuildStrategy` | DistributedCache/tair_rdb_release_20121009/src/configserver/group_info.cpp:1166-1220 | The automatic strategy picks rack safety exactly when that builder would call the rooms normal, and then there are two racks |
| `Rows.NormalMeansTwoRacks` | DistributedCache/tair_rdb_release_20121009/src/configserver/table_builder2.cpp:104-115 | A room ratio below the limit means that the servers span two racks |
| `Rows.NormalMeans` | DistributedCache/tair_rdb_release_20121009/src/configserver/table_builder2.cpp:100-115 | Rooms are comparable exactly if there are enough servers and the largest room and the rest differ by no more than the given share of the largest room |
| `Bookkeeping.PassesPlace` | DistributedCache/tair_rdb_release_20121009/src/configserver/table_builder.cpp:403-469 | A master pass followed by a slave pass yields a placed table in which the first changed slave of a bucket that keeps its master is a server new to the bucket |
| `Bookkeeping.MastersExact` | DistributedCache/tair_rdb_release_20121009/src/configserver/table_builder.cpp:403-469 | If all masters are live and nobody is over capacity, everybody is exactly at capacity |
| `Bookkeeping.SomeMasterHasRoom` | DistributedCache/tair_rdb_release_20121009/src/configserver/table_builder.cpp:274-319 | While a bucket has no live master, some live server is under its master capacity |
| `Rows.SomeServerScattered` | DistributedCache/tair_rdb_release_20121009/src/configserver/table_builder2.cpp:58-78 | With two racks there is a free server that makes the bucket span two racks |
| `Rows.BalancedContent` | DistributedCache/tair_rdb_release_20121009/src/configserver/table_builder.cpp:403-469 | In a balanced table no cell gives a reason to move |
| `Placement.SomeServerFree` | DistributedCache/tair_rdb_release_20121009/src/configserver/table_builder.cpp:274-319 | With at least as many servers as copies, some server is not used by the other copies of a bucket |
| `Bookkeeping.GivenUp` | DistributedCache/tair_rdb_release_20121009/src/configserver/table_builder.cpp:179-195 | Emptying a cell and telling the ledgers keeps every count equal to a recount of the table |
| `Bookkeeping.GivenOut` | DistributedCache/tair_rdb_release_20121009/src/configserver/table_builder.cpp:242-257 | Filling an empty cell and telling the ledgers keeps every count equal to a recount of the table |
| `Ledgers.ChangeKeepsAgreement` | DistributedCache/tair_rdb_release_20121009/src/configserver/table_builder.cpp:156-177 | A change of one server's count keeps both inverse indexes, by count and by count minus capacity, exact |
| `Ledgers.BuildIndex` | DistributedCache/tair_rdb_release_20121009/src/configserver/table_builder.cpp:138-145 | The index by count is exactly the inverse of the counts |
| `Ledgers.InitCandidate` | DistributedCache/tair_rdb_release_20121009/src/configserver/table_builder.cpp:258-272 | The candidate index is exactly the inverse of count minus capacity |
| `Ledgers.LeastFirst` | DistributedCache/tair_rdb_release_20121009/src/configserver/table_builder.cpp:274-319 | The first entry of the candidate index that has an acceptable server has the acceptable server with the least excess over its capacity |
| `Capacity.ShareByHistory` | DistributedCache/tair_rdb_release_20121009/src/configserver/table_builder1.cpp:77-175 | The even division: floor or ceiling for everyone, the right total, and unchanged when the counts were even already |
| `Capacity.PickLarger` | DistributedCache/tair_rdb_release_20121009/src/configserver/table_builder1.cpp:125-173 | Exactly the wanted number of servers gets the larger share, and it is the servers above the previous mean when their number fits |
| `Capacity.MeanOfUsed` | DistributedCache/tair_rdb_release_20121009/src/configserver/table_builder1.cpp:96-123 | The mean over the servers that hold something |
| `Capacity.ShareInRoom` | DistributedCache/tair_rdb_release_20121009/src/configserver/table_builder2.cpp:162-209 | One room's shares add up to what was given to the room |
| `Capacity.ShareBetweenRooms` | DistributedCache/tair_rdb_release_20121009/src/configserver/table_builder2.cpp:119-306 | For any split in range the capacities of the two rooms together add up to the total |
| `Accounting.TestIsExact` | DistributedCache/tair_rdb_release_20121009/src/configserver/group_info.cpp:67-114 | The migration test flags a bucket exactly when its quick row differs from its target row: a quick table and a rebuild never give the same servers in another order |
| `Accounting.SingleCopyTestIsExact` | DistributedCache/tair_rdb_release_20121009/src/configserver/group_info.cpp:709-730 | The same with one copy |
| `Accounting.QuickIsConservative` | DistributedCache/tair_rdb_release_20121009/src/configserver/table_builder.cpp:321-346 | The nonempty servers of a quick row are exactly the live servers of the old row, each as often, and its master is live |
| `Accounting.QuietBucket` | DistributedCache/tair_rdb_release_20121009/src/configserver/group_info.cpp:67-114 | A bucket that the test does not flag has the same row in the quick table and in the target |
| `Accounting.FullQuickIsOld` | DistributedCache/tair_rdb_release_20121009/src/configserver/table_builder.cpp:321-346 | A quick bucket without an empty slave is the old bucket, all of it live |
| `Accounting.QuickOfPlaced` | DistributedCache/tair_rdb_release_20121009/src/configserver/table_builder.cpp:321-346 | The quick table of a table with no dead server is that table |
| `Accounting.WriteLoad` | DistributedCache/tair_rdb_release_20121009/src/configserver/table_builder.cpp:485-510 | Writing back what was read gives the stored table |
| `Migration.RunInvariant` | DistributedCache/tair_rdb_release_20121009/src/configserver/group_info.cpp:776-781 | In every run the outstanding count is the number of buckets in which progress and target differ and the sum of the per-master tally; with nothing outstanding served, progress and target tables are one |
| `Migration.StepKeepsInv` | DistributedCache/tair_rdb_release_20121009/src/configserver/group_info.cpp:1009-1053 | Every step of the protocol keeps that invariant, including a restart and what happens between the two locked sections of a rebuild |
| `Migration.ReportKeepsInv` | DistributedCache/tair_rdb_release_20121009/src/configserver/group_info.cpp:1009-1045 | An accepted report settles one bucket of its master, and the tally always has the entry it settles |
| `Migration.ReportTwice` | DistributedCache/tair_rdb_release_20121009/src/configserver/group_info.cpp:1009-1045 | A bucket reported again, by anyone, is not counted again |
| `Migration.ReportSettles` | DistributedCache/tair_rdb_release_20121009/src/configserver/group_info.cpp:1009-1045 | A report takes its bucket to the target, if it is from the bucket's master, and changes no other bucket |
| `Migration.ReportAllSettles` | DistributedCache/tair_rdb_release_20121009/src/configserver/group_info.cpp:1158-1160 | Every bucket of a reported list that the server masters reaches its target, and the others stay as they were |
| `Migration.HeartbeatSettles` | DistributedCache/tair_rdb_release_20121009/src/configserver/group_info.cpp:1152-1164 | A heartbeat settles all its buckets exactly if it is of the current version and the server's first since a migration was completed, and otherwise changes nothing |
| `Migration.CheckIsExact` | DistributedCache/tair_rdb_release_20121009/src/configserver/group_info.cpp:860-913 | A check completes the migration, with a larger version, exactly when progress has reached the target |
| `Migration.RestartRecovers` | DistributedCache/tair_rdb_release_20121009/src/configserver/group_info.cpp:47-66 | A restart recounts exactly the tally that was lost |
| `Migration.TablesChangeOnly` | DistributedCache/tair_rdb_release_20121009/src/configserver/group_info.cpp:596-913 | The served table changes only when a rebuild ends or a migration completes, the progress table only then or by reports of the current version, the target only when a rebuild ends; giving up makes the version larger |
| `Migration.FinishedKeepsInv` | DistributedCache/tair_rdb_release_20121009/src/configserver/group_info.cpp:697-831 | The second section of a rebuild restores the invariant whatever happened since the first |
| `Migration.StartIsExact` | DistributedCache/tair_rdb_release_20121009/src/configserver/group_info.cpp:709-737 | On all three write paths the start table has a live master in every bucket and the migration test is exact for it |
| `Migration.StartKeepsLive` | DistributedCache/tair_rdb_release_20121009/src/configserver/group_info.cpp:711-737 | What a rebuild starts from: the target if nothing moves; with one copy every live master as it was and the lost ones at their target; otherwise exactly the live copies |
| `Migration.EmptyTallyMeansDone` | DistributedCache/tair_rdb_release_20121009/src/configserver/group_info.cpp:860-913 | An empty tally means progress equals target, so the comparison asserted before completing holds in every reachable state |
| `Migration.TargetChangesWithVersion` | DistributedCache/tair_rdb_release_20121009/src/configserver/group_info.cpp:1064-1071 | The target and the served table change only together with a strictly larger version |
| `Migration.MigrationCanFinish` | DistributedCache/tair_rdb_release_20121009/src/configserver/group_info.cpp:838-913 | From every reachable state that is migrating, one report per outstanding bucket and one check complete the migration |
| `Migration.HardCheckInsideReport` | DistributedCache/tair_rdb_release_20121009/src/configserver/group_info.cpp:1020-1053 | The assertion in a report survives a periodic hard check that slips in before the tally is settled exactly when the bucket was not the last outstanding one |
| `Migration.HardCheckFails` | DistributedCache/tair_rdb_release_20121009/src/configserver/group_info.cpp:1020-1053 | A run from a new group, with one bucket and two servers, in which a report meets the hard check and its tally entry is gone |
| `Migration.NothingScheduled` | DistributedCache/tair_rdb_release_20121009/src/configserver/group_info.cpp:709-831 | A rebuild that returns a source with every server live leaves served, progress and target tables at the source and nothing outstanding |
| `Migration.FreshHasInv` | DistributedCache/tair_rdb_release_20121009/src/configserver/conf_server_table_manager.cpp:224-260 | A newly created group satisfies the invariant |
| `Holders.NeverDropped` | DistributedCache/tair_rdb_release_20121009/src/configserver/group_info.cpp:674-716 | With two or more copies, after every run of failures, rebuilds, reports, completions and restarts every server named by the progress table or the served table holds the bucket, where only a report that the config server accepts makes a server a holder |
| `Holders.StepKeepsDataSafe` | DistributedCache/tair_rdb_release_20121009/src/configserver/group_info.cpp:838-858 | Every step keeps it: an accepted report refers to the current target |
| `Holders.NeverDroppedThoughReleased` | DistributedCache/tair_rdb_release_20121009/src/dataserver/tair_manager.cpp:1458-1460 | The same when data servers release a bucket as soon as neither table names them for it, over every run whose rebuilds end on a snapshot that is still current |
| `Holders.EndIsSafeWhenCurrent` | DistributedCache/tair_rdb_release_20121009/src/configserver/group_info.cpp:697-737 | The end of a rebuild is safe after any releases exactly when the quick table it installs names only servers of the present tables; otherwise one release before it leaves a named server without the data |
| `Holders.UnchangedIsCurrent` | DistributedCache/tair_rdb_release_20121009/src/configserver/group_info.cpp:674-716 | A snapshot is current while the progress table is the one it was taken from |
| `Holders.StaleSnapshotDrops` | DistributedCache/tair_rdb_release_20121009/src/configserver/group_info.cpp:596-836 | A run from a new group in which a migration completes between the two sections of a rebuild, the old holder releases the bucket, and the second section serves a table naming that holder |
| `Holders.QuickHeld` | DistributedCache/tair_rdb_release_20121009/src/configserver/group_info.cpp:674-693 | A quick table names only servers that the old table names |
| `GroupInfos.GroupInfo.Create` | DistributedCache/tair_rdb_release_20121009/src/configserver/conf_server_table_manager.cpp:224-260 | A new group has empty tables and nothing outstanding |
| `GroupInfos.GroupInfo.Reopen` | DistributedCache/tair_rdb_release_20121009/src/configserver/group_info.cpp:47-66 | Reopening recomputes the tally; it is a step of the protocol |
| `GroupInfos.GroupInfo.FillMigrateMachine` | DistributedCache/tair_rdb_release_20121009/src/configserver/group_info.cpp:67-114 | The count is the number of flagged buckets and the tally is their number per master |
| `GroupInfos.TallyBuckets` | DistributedCache/tair_rdb_release_20121009/src/configserver/group_info.cpp:67-114 | The loop over buckets counts the flagged ones, in all and per master |
| `GroupInfos.MigrateThisBucket` | DistributedCache/tair_rdb_release_20121009/src/configserver/group_info.cpp:73-98 | The nested loops decide the migration test |
| `GroupInfos.GroupInfo.BeginRebuild` | DistributedCache/tair_rdb_release_20121009/src/configserver/group_info.cpp:606-693 | The first section gives up exactly when servers are too few or a bucket has lost all copies, and otherwise remembers a sound snapshot |
| `GroupInfos.GroupInfo.EndRebuild` | DistributedCache/tair_rdb_release_20121009/src/configserver/group_info.cpp:697-831 | The second section is a step of the protocol, and fails only for want of servers or comparable rooms; with a balanced table nothing is scheduled: served, progress and target tables are the snapshot |
| `GroupInfos.RunBuilder` | DistributedCache/tair_rdb_release_20121009/src/configserver/group_info.cpp:694-708 | The build between the sections: it fails only for those reasons, and returns a balanced table unchanged |
| `GroupInfos.GroupInfo.InstallTables` | DistributedCache/tair_rdb_release_20121009/src/configserver/group_info.cpp:709-831 | Installing the tables yields the state that the protocol's end of a rebuild describes |
| `GroupInfos.GroupInfo.Rebuild` | DistributedCache/tair_rdb_release_20121009/src/configserver/group_info.cpp:596-836 | A whole rebuild, with any steps of other threads while the lock is given back, is a run of the protocol |
| `GroupInfos.GroupInfo.SetMigratingHashtable` | DistributedCache/tair_rdb_release_20121009/src/configserver/group_info.cpp:1009-1045 | A report in place, and its assertion holds |
| `GroupInfos.CopyBucket` | DistributedCache/tair_rdb_release_20121009/src/configserver/group_info.cpp:1020-1031 | The copy of a bucket's cells, and whether any cell changed |
| `GroupInfos.GroupInfo.DoFinishMigrate` | DistributedCache/tair_rdb_release_20121009/src/configserver/group_info.cpp:838-859 | Accepted exactly when data moves and the version is the current one |
| `GroupInfos.GroupInfo.DoProxyReport` | DistributedCache/tair_rdb_release_20121009/src/configserver/group_info.cpp:1152-1164 | A server's list of migrated buckets, taken once per migration and all of it |
| `GroupInfos.GroupInfo.CheckMigrateComplete` | DistributedCache/tair_rdb_release_20121009/src/configserver/group_info.cpp:860-913 | A step of the protocol that tells the caller not to wait exactly when nothing moves, nothing is outstanding or an awaited server is down; completion makes served, progress and target tables one |
| `GroupInfos.GroupInfo.HardCheckMigrateComplete` | DistributedCache/tair_rdb_release_20121009/src/configserver/group_info.cpp:1046-1053 | Equal tables clear the tally |
| `GroupInfos.GroupInfo.IncVersion` | DistributedCache/tair_rdb_release_20121009/src/configserver/group_info.cpp:1064-1071 | The next version is larger and at least the configured minimum |
| `GroupInfos.GroupInfo.Perform` | DistributedCache/tair_rdb_release_20121009/src/configserver/server_conf_thread.cpp:905-1004 | Each message of another thread is the protocol step of its name |
| `Routing.GetServerId` | DistributedCache/tair_rdb_release_20121009/src/client/tair_client_api_impl.cpp:3521-3538 | The lookup in the flat list gives the bucket's nonempty cells, every one of them once and in line order |
| `Routing.RouteIsComplete` | DistributedCache/tair_rdb_release_20121009/src/client/tair_client_api_impl.cpp:3528-3534 | The servers of a bucket are those of exactly the lines whose cell is not empty, in order |
| `Routing.FlattenAt` | DistributedCache/tair_rdb_release_20121009/src/configserver/table_builder.cpp:498-510 | The cell of a line and bucket is at bucket plus line times the number of buckets |
| `Routing.RebuildRoutesToLive` | DistributedCache/tair_rdb_release_20121009/src/configserver/group_info.cpp:709-737 | After every successful rebuild, on all write paths, every key hash routes to a nonempty list of live servers |
| `Routing.AlwaysRouted` | DistributedCache/tair_rdb_release_20121009/src/configserver/group_info.cpp:709-913 | In every run from then on every key hash keeps finding a server |
| `BucketCopying.BucketCopy.MigrateOneBucket` | DistributedCache/tair_rdb_release_20121009/src/dataserver/migrate_manager.cpp:178-237 | The move is finished unless the operator calls it off, however many requests get lost. When it is reported finished, each destination holds exactly the source's contents if it had nothing before, and in general what it had overlaid by the source and the log; the replayed windows tile the log from the position taken before the scan |
| `BucketCopying.BucketCopy.MigrateDataFile` | DistributedCache/tair_rdb_release_20121009/src/dataserver/migrate_manager.cpp:286-343 | After the scan under concurrent writes each destination agrees with the source as it was when logging began, on every key not logged since |
| `BucketCopying.BucketCopy.MigrateLog` | DistributedCache/tair_rdb_release_20121009/src/dataserver/migrate_manager.cpp:345-416 | Each destination has the window's operations on the bucket applied, in log order |
| `BucketCopying.BucketCopy.SendPacket` | DistributedCache/tair_rdb_release_20121009/src/dataserver/migrate_manager.cpp:239-284 | However often attempts fail part way, each destination ends with the packet applied once; false exactly when the operator called the move off |
| `BucketCopying.BucketCopy.Pack` | DistributedCache/tair_rdb_release_20121009/src/dataserver/migrate_manager.cpp:299-324 | Filling and flushing packets loses nothing that the scan has read |
| `BucketCopying.BucketCopy.NextItems` | DistributedCache/tair_rdb_release_20121009/src/dataserver/migrate_manager.cpp:293-334 | The scan's items keep every visited key right |
| `BucketCopying.BucketCopy.ClientWrite` | DistributedCache/tair_rdb_release_20121009/src/dataserver/migrate_manager.cpp:500-508 | Writes to the locked bucket are refused and writes to the moving bucket are logged |
| `BucketCopying.BucketCopy.Drain` | DistributedCache/tair_rdb_release_20121009/src/dataserver/migrate_manager.cpp:201-217 | After the lock the log is replayed to its end |
| `BucketCopying.BucketCopy.CatchUp` | DistributedCache/tair_rdb_release_20121009/src/dataserver/migrate_manager.cpp:189-199 | Windows are replayed one after the other until less than a megabyte of the log is left, before the bucket is locked |
| `Replay.RetryIsHarmless` | DistributedCache/tair_rdb_release_20121009/src/dataserver/migrate_manager.cpp:239-284 | Any prefixes of a batch, any number of times, then the whole batch, equal the batch once |
| `Replay.Process` | DistributedCache/tair_rdb_release_20121009/src/dataserver/request_processor.cpp:2047-2083 | The receiver applies the operations up to the first that fails |
| `Replay.Converge` | DistributedCache/tair_rdb_release_20121009/src/dataserver/migrate_manager.cpp:345-416 | Stores that agree off a batch become equal when the batch is applied to both |
| `Replay.StaleKeys` | DistributedCache/tair_rdb_release_20121009/src/dataserver/migrate_manager.cpp:178-237 | A destination that was not empty ends right exactly when each key it had was in the source or is in the log |
| `Replay.UnloggedWrites` | DistributedCache/tair_rdb_release_20121009/src/dataserver/tair_manager.cpp:1425-1429 | Writes after the scan that are not logged leave a destination right exactly when the last write to each key leaves that key as it was scanned |
| `Replay.UnloggedWriteIsLost` | DistributedCache/tair_rdb_release_20121009/src/dataserver/tair_manager.cpp:1425-1429 | One unlogged write after the scan that leaves a destination stale |
| `ReplicaAcks.RunIsExact` | DistributedCache/tair_rdb_release_20121009/src/dataserver/dup_sync_manager.cpp:97-226 | Over every run each bucket's count is the number of its outstanding packets, and each addition of an id is waiting, answered once or given up once |
| `ReplicaAcks.CountsKept` | DistributedCache/tair_rdb_release_20121009/src/dataserver/dup_sync_manager.cpp:154-191 | A step keeps the counts right exactly when a completing acknowledgement echoes the bucket its packet was recorded under |
| `ReplicaAcks.WrongBucketSpoils` | DistributedCache/tair_rdb_release_20121009/src/dataserver/dup_sync_manager.cpp:154-191 | An acknowledgement that names another bucket leaves a count of one with nothing outstanding |
| `ReplicaAcks.FreeMeans` | DistributedCache/tair_rdb_release_20121009/src/dataserver/dup_sync_manager.cpp:62-67 | A bucket is called free exactly while fewer than 300 of its packets are outstanding, and none is outstanding exactly when its count is zero |
| `ReplicaAcks.FreeIsNotDone` | DistributedCache/tair_rdb_release_20121009/src/dataserver/dup_sync_manager.cpp:414-426 | A run with one outstanding packet whose bucket is nevertheless called free |
| `ReplicaAcks.WaitManager.IsBucketFree` | DistributedCache/tair_rdb_release_20121009/src/dataserver/dup_sync_manager.cpp:62-67 | Decides that, by the count |
| `ReplicaAcks.ClampNeverFires` | DistributedCache/tair_rdb_release_20121009/src/dataserver/dup_sync_manager.cpp:69-76 | The clamp at zero never changes a count |
| `ReplicaAcks.HandedAfterAcks` | DistributedCache/tair_rdb_release_20121009/src/dataserver/dup_sync_manager.hpp:110-138 | A packet is handed over for the reply exactly when the last of its slaves acknowledges, for up to two slaves |
| `ReplicaAcks.ThirdSlaveIsNotAwaited` | DistributedCache/tair_rdb_release_20121009/src/dataserver/dup_sync_manager.hpp:73-92 | With three or more slaves the third is not waited for |
| `ReplicaAcks.WaitNode.constructor` | DistributedCache/tair_rdb_release_20121009/src/dataserver/dup_sync_manager.hpp:75-104 | The first two slaves, and zeroes for missing ones |
| `ReplicaAcks.WaitNode.DoResponse` | DistributedCache/tair_rdb_release_20121009/src/dataserver/dup_sync_manager.hpp:110-138 | Zeroes the server's slots and tells complete, waiting or repeated apart |
| `ReplicaAcks.WaitManager.AddWaitNode` | DistributedCache/tair_rdb_release_20121009/src/dataserver/dup_sync_manager.cpp:97-152 | Adds a packet unless the map is too large or the id is taken |
| `ReplicaAcks.WaitManager.DoResponse` | DistributedCache/tair_rdb_release_20121009/src/dataserver/dup_sync_manager.cpp:154-191 | Hands the node out exactly when the acknowledgement completes it |
| `ReplicaAcks.WaitManager.ClearWaitNode` | DistributedCache/tair_rdb_release_20121009/src/dataserver/dup_sync_manager.cpp:207-226 | Gives a packet up |
| `ReplicaAcks.WaitManager.DoTimeout` | DistributedCache/tair_rdb_release_20121009/src/dataserver/dup_sync_manager.cpp:193-205 | Gives a packet up if it is still waiting |
| `ReplicaAcks.WaitManager.ChangeBucketCount` | DistributedCache/tair_rdb_release_20121009/src/dataserver/dup_sync_manager.cpp:69-76 | The clamped count |
| `SpillQueues.LocalQueue.Pop` | DistributedCache/tair_rdb_release_20121009/src/common/local_queue.hpp:92-193 | Pops the oldest pushed node, or fails on an empty queue and leaves it so; with nothing queued and a phantom on disk, which takes two torn records in the tail's segment, it hands out what the phantom's bytes stand for |
| `SpillQueues.LocalQueue.Push` | DistributedCache/tair_rdb_release_20121009/src/common/local_queue.hpp:68-90 | To memory while there is room, else to disk. It fails exactly if the memory part is full and the node cannot be serialized or a disk write is cut short; a failed push leaves the queue as it was and adds at most one torn record to the tail's segment, and a new segment starts with none |
| `SpillQueues.Drive` | DistributedCache/tair_rdb_release_20121009/src/common/local_queue.hpp:68-193 | Every run of pushes and pops gives exactly what an ideal queue gives for the pushes that succeeded; the only call it keeps away from is a pop of an empty queue after two failed pushes into the tail's segment |
| `SpillQueues.DriveNew` | DistributedCache/tair_rdb_release_20121009/src/common/local_queue.hpp:68-193 | From a new queue, every run with fewer than two failed pushes is that of an ideal queue to its end, and no push fails while nodes can be serialized and disk writes are taken whole |
| `SpillQueues.DueIdIsFound` | DistributedCache/tair_rdb_release_20121009/src/common/local_queue.hpp:92-117 | The due node is found by its id exactly while ids are below 2^31, because the id is cut to an int |
| `SpillQueues.MergedPop` | DistributedCache/tair_rdb_release_20121009/src/common/local_queue.hpp:92-141 | A node with the due id in front of either part is the oldest of the whole |
| `SpillQueues.MergedDue` | DistributedCache/tair_rdb_release_20121009/src/common/local_queue.hpp:92-141 | While anything is queued, one of the parts has the due id in front |
| `SpillQueues.MemQueue.Push` | DistributedCache/tair_rdb_release_20121009/src/common/mem_queue.hpp:98-114 | The ring appends; asked for the one place that must stay free, it takes that too and then looks empty |
| `SpillQueues.MemQueue.Pop` | DistributedCache/tair_rdb_release_20121009/src/common/mem_queue.hpp:117-134 | The ring removes its oldest node and frees the place |
| `SpillQueues.MemQueue.IsFull` | DistributedCache/tair_rdb_release_20121009/src/common/mem_queue.hpp:160-180 | Full with one place left |
| `SpillQueues.MemQueue.IsEmpty` | DistributedCache/tair_rdb_release_20121009/src/common/mem_queue.hpp:137-157 | Head meets tail exactly when nothing is stored |
| `DiskQueues.DiskQueue.WriteRecord` | DistributedCache/tair_rdb_release_20121009/src/common/disk_queue.hpp:411-454 | A record is appended whole, after ending a segment that has reached its size, and it fails exactly if a write is cut short; then the records are left as they were and at most one more is torn in the tail's segment |
| `DiskQueues.DiskQueue.EndSegment` | DistributedCache/tair_rdb_release_20121009/src/common/disk_queue.hpp:521-542 | A torn end mark leaves the queue as it was |
| `DiskQueues.DiskQueue.ReadRecord` | DistributedCache/tair_rdb_release_20121009/src/common/disk_queue.hpp:457-510 | Takes the oldest record, across segments; with nothing queued it succeeds exactly when there is a phantom, and then gives the record that its bytes spell |
| `DiskQueues.DiskQueue.NextRead` | DistributedCache/tair_rdb_release_20121009/src/common/disk_queue.hpp:457-510 | Reading from the head through marks and segments finds the oldest record, or with nothing queued the phantom, or nothing |
| `DiskQueues.DiskQueue.IsEmpty` | DistributedCache/tair_rdb_release_20121009/src/common/disk_queue.hpp:217-245 | Reported empty implies empty; empty but not reported so only right after a segment change |
| `DiskQueues.DiskQueue.PhantomTakesTwo` | DistributedCache/tair_rdb_release_20121009/src/common/disk_queue.hpp:442-447 | A phantom takes two torn records since the segment was begun |
| `DiskQueues.PhantomHappens` | DistributedCache/tair_rdb_release_20121009/src/common/disk_queue.hpp:411-510 | After a segment that was written, ended with its mark and flag and read, two torn records of two bytes and one byte make a phantom, and the next read takes it |
| `SpillBytes.OneTornWriteIsHarmless` | DistributedCache/tair_rdb_release_20121009/src/common/disk_queue.hpp:442-447 | One torn record in a fresh segment never reads as a record |
| `SpillBytes.TwoTornWrites` | DistributedCache/tair_rdb_release_20121009/src/common/disk_queue.hpp:442-447 | Two torn records read as a record exactly when the first left as many bytes as the second needs |
| `SpillBytes.Int32Bytes` | DistributedCache/tair_rdb_release_20121009/src/common/disk_queue.hpp:422-432 | The length field reads back as written, negative marks included |
| `DiskQueues.RecordExtends` | DistributedCache/tair_rdb_release_20121009/src/common/disk_queue.hpp:431-450 | A whole record at the tail is one more record of the last segment |
| `DiskQueues.HeadMark` | DistributedCache/tair_rdb_release_20121009/src/common/disk_queue.hpp:476-496 | Past the last record of an ended segment come the mark and the next segment |
| `Config.Configer.ToString` | DistributedCache/tair_rdb_release_20121009/src/configserver/tair_config.cpp:281-305 | Loading the printed text of a well-formed configuration, with keys below 128 characters, gives the same sections, keys and ordered values, in whatever order the hash maps are walked |
| `Config.Configer.Load` | DistributedCache/tair_rdb_release_20121009/src/configserver/tair_config.cpp:107-158 | The loop over lines is the line-by-line reading, errors included |
| `Config.Configer.SetString` | DistributedCache/tair_rdb_release_20121009/src/configserver/tair_config.cpp:176-193 | Adds a value behind those a key has |
| `Config.Configer.GetStringList` | DistributedCache/tair_rdb_release_20121009/src/configserver/tair_config.cpp:199-219 | The list of the values of a key |
| `Config.ParseValue` | DistributedCache/tair_rdb_release_20121009/src/configserver/tair_config.cpp:41-81 | The pointer walk over a line is the reading that the following rows characterise, for all lines |
| `Config.NothingIsIdle` | DistributedCache/tair_rdb_release_20121009/src/configserver/tair_config.cpp:46-61 | Exactly blank lines and comments say nothing |
| `Config.FeedIdle` | DistributedCache/tair_rdb_release_20121009/src/configserver/tair_config.cpp:133-141 | Such a line leaves everything read so far as it was |
| `Config.ValueIs` | DistributedCache/tair_rdb_release_20121009/src/configserver/tair_config.cpp:62-81 | The key is what stands before the first equals sign and the value what stands behind it and before a comment, trimmed as the code trims |
| `Config.CommentStaysOut` | DistributedCache/tair_rdb_release_20121009/src/configserver/tair_config.cpp:70-73 | A comment behind the value stays out of it exactly if something visible stands between the equals sign and it, or a space stands before the sign and none behind it |
| `Config.CommentBecomesValue` | DistributedCache/tair_rdb_release_20121009/src/configserver/tair_config.cpp:70-73 | A line whose comment is taken for the value |
| `Config.NoValueAfterSpace` | DistributedCache/tair_rdb_release_20121009/src/configserver/tair_config.cpp:67-80 | What an empty value reads as when a space stands before the equals sign |
| `Config.NoValueTight` | DistributedCache/tair_rdb_release_20121009/src/configserver/tair_config.cpp:67-80 | What an empty value reads as when none does |
| `Config.NoSignIsMalformed` | DistributedCache/tair_rdb_release_20121009/src/configserver/tair_config.cpp:62-63 | A line without an equals sign, and no comment, is an error |
| `Config.NoKeyIsMalformed` | DistributedCache/tair_rdb_release_20121009/src/configserver/tair_config.cpp:62-75 | A line that begins with the equals sign is an error exactly if no space stands before the sign |
| `Config.KeylessLine` | DistributedCache/tair_rdb_release_20121009/src/configserver/tair_config.cpp:62-75 | A line without a key that is accepted |
| `Config.FeedStops` | DistributedCache/tair_rdb_release_20121009/src/configserver/tair_config.cpp:133-146 | An error, and a value outside any section, stop the reading |
| `Config.FeedParts` | DistributedCache/tair_rdb_release_20121009/src/configserver/tair_config.cpp:147-154 | A line with a value and perhaps a comment adds that value to its section |
| `Config.FeedSectionLine` | DistributedCache/tair_rdb_release_20121009/src/configserver/tair_config.cpp:121-132 | A section begins empty, and one that is named again keeps its keys |
| `Config.LineLength` | DistributedCache/tair_rdb_release_20121009/src/configserver/tair_config.cpp:119 | One read takes a line up to its end, but never more than the buffer holds |
| `Config.ParseKeyLine` | DistributedCache/tair_rdb_release_20121009/src/configserver/tair_config.cpp:41-81 | A printed key line reads as its key and value |
| `Config.IsSectionName` | DistributedCache/tair_rdb_release_20121009/src/configserver/tair_config.cpp:84-102 | Which lines name a section, and what the check does to the line buffer |
| `Config.SectionLineNames` | DistributedCache/tair_rdb_release_20121009/src/configserver/tair_config.cpp:84-102 | A printed section line reads as its name |
| `Config.BracketLine` | DistributedCache/tair_rdb_release_20121009/src/configserver/tair_config.cpp:84-102 | A line in brackets names a section exactly if only name characters stand between them |
| `Config.SectionNeedsBrackets` | DistributedCache/tair_rdb_release_20121009/src/configserver/tair_config.cpp:84-102 | No other line does |
| `Config.SplitAdd` | DistributedCache/tair_rdb_release_20121009/src/configserver/tair_config.cpp:149-151 | A value added behind others is one more at the end of the list |
| `Config.SplitJoin` | DistributedCache/tair_rdb_release_20121009/src/configserver/tair_config.cpp:199-219 | Splitting a joined list gives the list back |
| `Config.EntryToString` | DistributedCache/tair_rdb_release_20121009/src/configserver/tair_config.cpp:288-300 | One line per value of a key, in order |
| `Config.FeedEntry` | DistributedCache/tair_rdb_release_20121009/src/configserver/tair_config.cpp:142-154 | The lines printed for a key gather to exactly its stored string |

## Left out

- BucketCopying.BucketCopy.ClientWrite: writers that consult the two hooks and log are assumed, not modelled from code; the pauses of half a second are taken to let writes in flight finish, and a packet delayed beyond its timeout does not arrive later.
- BucketCopying.BucketCopy.NextItems: the storage scan is any scan that visits each key that stays present at least once and reads values that are current.
- BucketCopying.BucketCopy.AwaitReplicas: whether the outstanding copies are done is an outside event.
- TableBuilding.TableBuilder.CalculateCapable: the float products of the rack-safety strategy are any integers in range, so the split between the rooms is not computed, and the per-node token limits of that strategy stay arbitrary.
- TableBuilding.TableBuilder.SetAvailableServer: room ratios are exact reals, not floats.
- GroupInfos.GroupInfo.BeginRebuild: expects at least one live server, which the minimum number of servers gives once it has been raised to the number of copies on loading the configuration (configserver/group_info.cpp:408-413), no server id zero, and at least two copies with rack safety, which that builder asserts.
- GroupInfos.GroupInfo.SetMigratingHashtable: the bucket number is below the number of buckets. The code's own check (configserver/group_info.cpp:1013) also lets the number of buckets itself through and then reads and writes beyond the table, which has no meaning in the model.
- GroupInfos.GroupInfo.DoFinishMigrate: the same bucket number is left out.
- GroupInfos.GroupInfo.DoProxyReport: the same bucket number is left out.
- GroupInfos.GroupInfo.CheckMigrateComplete: the sync packets to the other config server are not modelled.
- GroupInfos.GroupInfo.IncVersion: versions do not wrap around at 32 bits, and the client version, which moves with the server version, is not kept separately.
- SpillQueues.LocalQueue.Pop: stated for ids below 2^31; disk reads and segment opens succeed. After a phantom was popped nothing is promised of later calls, because the next id then comes from a variable that was never set. The code takes no lock between a pop and a push (common/local_queue.hpp:92-141): if the ring fills between a pop's look at the memory part and its look at the disk part, the pop can find a later node first and give the earlier ones up for lost; the model takes one call at a time.
- DiskQueues.DiskQueue.ReadRecord: asked only when the queue does not report itself empty, as the spill queue does; file offsets do not overflow.
- ReplicaAcks.WaitManager.DoTimeout: the check and the removal are one step here; the runs allow a removal at any moment.
- Config.ParseValue: a line whose first character is the equals sign makes the code read before its buffer; here the walk stops at the buffer's start. Keys of 128 or more characters overrun a buffer in the code; the walk has no such limit, and the round trip leaves such keys out.
- Config.Configer.ToString: characters are code points, and only printable ASCII is called well-formed.
- Election between the config servers and the sync of tables between them: depends on real time.
- Networking, packet classes, timers, persistence, table compression and the log file's format: outside the model.
- Client commands, the other request handlers, the storage engines, item codecs, hashing and statistics: they would only add easy members.
