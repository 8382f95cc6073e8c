# Verified core of the distributed virtual file system

This project models three parts of the system and proves what they promise.

**The metaserver** keeps nodes, user homes, waiting users and share visibility in memory and
persists them through targeted store writes, issued after the table lock is released and in
memory order. `MetaStore` is the durable record and its writes, `MetaTables` what each request
does to the tables and which writes it owes, `MetaAgreement` and `MetaCommits` when tables and
store agree and why every operation keeps it so. `MetaProtocol` is the step machine: tables,
store, at most one operation that still owes writes, and events for every request, every single
document write, heartbeats, sweeps, routing reads and crashes at any point. `MetaAnswers`
gives the exact condition of every answer and what each accepted request leaves behind. `MetaRuns`,
`MetaRecovery` and `Liveness` prove what every run guarantees, `MetaRetry` what a retry without a
crash does. `MetaServerImpl`, `MetaBoot`,
`MemoryStore` and `MetaHandlers` are the imperative form: the handlers' work on the maps, the
in-process store, and whole requests against it, proved to be steps of the protocol.

**The fileserver** keeps an inode tree (parent links, child lists, cached paths and sizes) that
must agree with a persistent path-to-id index, with the restore metadata of trashed inodes, with
the explicit shares and with the disk. `Paths`, `InodeTree` and `FileOps` define the state and
each operation as a function from state to state and reply; `FileAnswers` gives the exact condition of every
reply in terms of the request and the state; `FileSafety`, `RoundTrip`,
`Shelf`, `TrashRuns`, `FileSizes`, `QuotaRuns`, `FileTotals`, `TrashedBytes`, `Rescan`, `FileRuns` and
`FileDeletion` prove the invariants over every run; `Walks`, `FileServerImpl`, `InodeStoreImpl` and `Scanner` are the imperative form with its
loops and recursive walks; `FileLimits` gives the concrete inputs at which the guarantees stop.

**The session store** keeps three redundant indexes with first-in-first-out eviction. `Sessions`
is the table as a value, `SessionStore` the store with its methods and loops.

Ten conditions the code takes on trust turn out to be exact, and are stated as such:
- a name suffixed with the inode id is not looked up again, so trash and restore keep the tree
  and the index in agreement if and only if the chosen name is free;
- an empty write beyond the end of a file is accepted, and is the only write that makes a cached
  size differ from the size on disk;
- a file may be called `.acl`, which the boot scan skips: the scan finds every inode if and only
  if there is no such name (and no user name starting with a dot);
- trashing does not move sizes between directories, so sums stay exact if and only if the moved
  inode has size zero;
- a directory keeps counting what was trashed out of it, so deleting it makes the user's total fall
  short of the bytes on disk: a delete keeps the total right if and only if the deleted inode's
  cached size is the bytes below it (or is clamped and everything the user has lies below it);
- the bytes of a file that was trashed and then deleted stay counted in the directories it left, so a
  cached size can pass the 64-bit maximum though the quota check has passed: the additions of a write
  are the true ones if and only if no inode from the file to the root passes it (see
  `FileLimits.CachedSizeWraps` for seven calls that wrap one to zero);
- a restore gives a trashed subtree its old place back if and only if the old parent is alive at its
  old path and the old name is free there, and its explicit shares are then the recorded ones if and
  only if the lists found below the path begin them;
- a legacy adoption interrupted by a crash and repeated leaves a user of the old id at home on the new
  node if and only if the node reports them, or the store still has them and either purging is off
  or they are at home on an id that has no entry;
- a registration whose store writes failed part of the way is not rolled back, and the comment beside it
  says that the fileserver's retry re-applies the same state; it restores agreement if and only if the
  first attempt completed its rename, if it adopted a legacy entry, and removed the users it purged,
  if any, because the retry repeats neither;
- a client id that changes users, or a token hash already in use, leaves a dangling slot: creating
  a session keeps the indexes in agreement if and only if neither is the case.

All files are verified together: `dafny verify dfyconfig.toml`.

## Main results

- Memory and store never drift: `MetaProtocol.StepKeepsInv` and `MetaRuns.RunKeepsInv`, over every interleaving of requests,
  single document writes, liveness events and crashes; `MetaRuns.RestartRebuilds` for the restart.
- Homes are sticky and revocations final: `MetaRuns.HomesAreSticky`, `MetaRuns.RevocationsAreFinal`.
- Interrupted operations recover: `MetaRecovery.AdoptionCrashRecovers`, `MetaRecovery.DeregisterPrefixStrandsNobody`,
  and `MetaRetry.RetryRestoresIff` without a crash.
- Liveness marks are an optimisation: `Liveness.SweepsAreUnobservable`; addresses move only after silence:
  `Liveness.AddressMovesAfterSilence`.
- Tree, paths, index, restore metadata and disk agree at every point of every run: `FileRuns.RunKeepsAgreement`, with
  `FileSafety.TrashKeepsAgreementIff`, `FileSafety.RestoreKeepsAgreementIff` and `FileSafety.RestoreCanMove` for the moves.
- What was trashed comes back after any run elsewhere: `TrashRuns.RestoreAfterRun`, with `TrashRuns.RunKeepsListsDistinct`.
- A delete removes exactly the subtree: `FileDeletion.DeleteRemovesExactly`.
- Totals are the bytes on disk and within the quota: `FileTotals.RunConserves`; directory sums are exact and no write wraps while
  nothing is trashed: `QuotaRuns.PlainRunExact`, `QuotaRuns.PlainRunNoWrap`; where that stops: `TrashedBytes.CycleHaunts`.
- A restart recovers the tree from the disk: `Rescan.RescanRecovers`, built by the scan of `Scanner.LoadExistingData`.
- Three session indexes stay one table: `Sessions.RunKeepsInv`, `Sessions.CreateKeepsInvIff`.
- Every answer has its exact condition: `MetaAnswers.NavigateExact`, `MetaAnswers.RegisterExact`, `MetaAnswers.LoginExact`,
  `FileAnswers.TrashAnswers`, `FileAnswers.RestoreAnswers`, `FileAnswers.DeleteAnswers`, `FileAnswers.CreateAnswers`,
  `FileAnswers.WriteAnswers`, `Sessions.ValidateExact`, `Sessions.CreateExact`; and what an accepted registration leaves is what it
  asks for: `MetaAnswers.CommitLeaves`, `MetaHandlers.RegisterFileServer`.
- The code in place is the model: `FileServerImpl.FileServer.TrashFile`, `RestoreFile`, `DeleteFile`, `WriteFile`;
  `MetaHandlers.RegisterFileServer`; `SessionStore.Store.CreateSession`.

## Model

| member | source | states |
|---|---|---|
| `MetaAgreement.AgreeDeterminesRouting` | internal/metaserver/metaserver.go:94-164 | two tables that agree with one store have the same users, orphans, node ids, addresses and loads |
| `MetaAgreement.HydrateAgrees` | internal/metaserver/metaserver.go:94-164 | whatever well-formed store a restart finds, the tables it builds are well formed, agree with it, and show exactly the recorded grants |
| `MetaBoot.Boot` | internal/metaserver/metaserver.go:94-164 | the loops that rebuild node, user, orphan, load and share maps from a snapshot produce exactly the tables of a restart |
| `MetaBoot.LoadNodes` | internal/metaserver/metaserver.go:103-121 | every node document becomes the entry under its number, with missing liveness read as seen now and healthy, and the id-to-number map is complete |
| `MetaBoot.LoadUsers` | internal/metaserver/metaserver.go:123-136 | a user is routed exactly if the home node has a number, and is otherwise kept as waiting for it |
| `MetaBoot.CountLoads` | internal/metaserver/metaserver.go:138-143 | each node's load is the number of users routed to it, counted from the assignments |
| `MetaBoot.GiveLists` | internal/metaserver/metaserver.go:153-159 | every known user has a share list and existing lists are untouched |
| `MetaStore.ExpandIsRename` | internal/storage/mongo/mongo.go:332-383 | moving the users, deleting the old document and inserting the new one, in that order, is the rename of the in-process store |
| `MetaStore.MoveOneAbsorbed` | internal/storage/mongo/mongo.go:356-365 | a user moved early is absorbed by the bulk move that is still to come |
| `MetaCommits.RegisterAgrees` | internal/metaserver/handler.go:206-348 | a registration, adopting a legacy entry or not, followed by all of its writes keeps tables and store in agreement and the tables well formed, loads included |
| `MetaCommits.RegisterHome` | internal/metaserver/handler.go:243-286 | the stored home of every user after a registration's writes: users in the request here, users purged because the node hosts and no longer reports them nowhere, users of an adopted entry here, everyone else unchanged |
| `MetaCommits.CommitRoutes` | internal/metaserver/handler.go:217-280 | where every user is routed after a registration: users in the request and those waiting for the id here, users of other nodes unchanged, own users kept unless purged |
| `MetaCommits.GrantsAre` | internal/metaserver/handler.go:288-317 | the grants a registration publishes are exactly those of a listed directory and a listed user where the directory's owner is reported and is not that user, under the path's normal form |
| `MetaCommits.CommitSharedHas` | internal/metaserver/handler.go:238-317 | a grant is visible after a registration if and only if the request publishes it, or it was visible and involves no purged user and no reported owner |
| `MetaCommits.RegisterShares` | internal/metaserver/handler.go:243-320 | a grant is recorded after the registration's writes by the same rule |
| `MetaCommits.GrantsNormal` | internal/metaserver/handler.go:288-317 | a registration publishes grants only for owners it reports, never to the owner, and in normal form |
| `MetaCommits.LoginAgrees` | internal/metaserver/handler.go:553-591 | a first login and its one write keep agreement, well-formedness and exact loads |
| `MetaCommits.LoginUndoRestores` | internal/metaserver/handler.go:576-587 | the rollback of a login restores the tables it started from, apart from the user's own share list |
| `MetaProtocol.LoginUndoKeepsLoads` | internal/metaserver/handler.go:576-587 | after the rollback of a login every node's load is exact, whatever liveness changes happened meanwhile |
| `MetaCommits.ShareAgrees` | internal/metaserver/handler.go:608-661 | a share and its write keep agreement |
| `MetaCommits.UnshareAgrees` | internal/metaserver/handler.go:664-705 | a revocation and its write keep agreement |
| `MetaCommits.UnshareHas` | internal/metaserver/handler.go:685-716 | a revocation removes that grant from memory and no other |
| `MetaCommits.DeregisterAgrees` | internal/metaserver/handler.go:748-819 | a deregistration and its writes keep agreement, well-formedness and exact loads |
| `MetaCommits.DeregisterUndoRestores` | internal/metaserver/handler.go:771-836 | the rollback of a deregistration restores the tables exactly |
| `MetaProtocol.DeregisterUndoKeepsLoads` | internal/metaserver/handler.go:771-836 | if liveness changed meanwhile, the rollback still restores the routing, and every load is exact |
| `MetaProtocol.StepKeepsInv` | internal/metaserver/handler.go:90-840 | every event of every interleaving keeps: tables well formed, store well formed, and the store with the running operation's remaining writes equal to memory on node ids, numbers, addresses and homes, with memory's grants recorded |
| `MetaProtocol.RegisterKeepsInv` | internal/metaserver/handler.go:106-158 | the first critical section of a registration keeps that invariant, whether it refuses, allocates or commits |
| `MetaProtocol.AllocKeepsInv` | internal/metaserver/handler.go:160-177 | a number the store hands out is one no table entry holds |
| `MetaProtocol.FinishSucceeds` | internal/metaserver/handler.go:179-204 | both late refusals, numeric id already held and user claimed during the allocation, are unreachable |
| `MetaProtocol.WriteKeepsInv` | internal/metaserver/metaserver.go:58-68 | issuing one document write changes the store but not the state the pending writes lead to |
| `MetaProtocol.MoveOneKeepsInv` | internal/storage/mongo/mongo.go:356-365 | nor does moving a single user inside the bulk move of a rename |
| `MetaProtocol.RenameSafe` | internal/storage/mongo/mongo.go:332-383 | numbers stay distinct and below the counter at every point inside a rename |
| `MetaProtocol.StartInv` | internal/metaserver/metaserver.go:70-91 | a server started on any well-formed store satisfies the invariant |
| `MetaRuns.RunKeepsInv` | internal/metaserver/metaserver.go:33-38 | the invariant holds at every state of every run of requests, writes, heartbeats, sweeps and crashes |
| `MetaRuns.RestartRebuilds` | internal/metaserver/metaserver.go:94-164 | a restart between operations, at the end of any run, rebuilds the same users, orphans, node ids, addresses and loads, and loses no visible grant |
| `MetaRuns.RefusalsChangeNothing` | internal/metaserver/handler.go:131-153 | in every reachable state a refused request of any kind leaves memory, store and pending writes unchanged |
| `MetaRuns.HomesAreSticky` | internal/metaserver/handler.go:71-86 | through every run, crashes included, an assigned user keeps the home the store recorded, in the store and in memory, unless that node is deregistered, is adopted under a new id, or re-registers without the user while purging is on |
| `MetaRuns.LoginPins` | internal/metaserver/handler.go:553-591 | a first login satisfies that theorem's hypothesis as soon as its one write is done |
| `MetaRuns.ShareAppears` | internal/metaserver/handler.go:608-661 | a share under any spelling of the path makes exactly that grant visible at once and, once written, recorded |
| `MetaRuns.UnshareRemoves` | internal/metaserver/handler.go:664-705 | an unshare under any spelling of the path removes the grant from memory and, once written, from the store |
| `MetaRuns.RevocationsAreFinal` | internal/metaserver/handler.go:664-705 | after that, no event other than a later share or registration of that very grant brings it back, and no restart does |
| `MetaRecovery.DeregisterPrefixStrandsNobody` | internal/metaserver/handler.go:800-820 | for every prefix of a deregistration's writes a restart finds the same orphans as before: nobody waits for the removed node |
| `MetaRecovery.NodeFirstStrandsIff` | internal/metaserver/handler.go:800-804 | removing the node document first would strand all of its users, and strands nobody if and only if it has none |
| `MetaRecovery.AdoptionStarts` | internal/metaserver/handler.go:114-156 | an adoption whose legacy entry is the only node at its address starts from a recoverable store, whether or not purging is on |
| `MetaRecovery.AcceptedHasNoForeigners` | internal/metaserver/handler.go:142-151 | the users such an accepted registration reports are at home on the old id, wait for the new one, or are new |
| `MetaRecovery.AdoptionSpares` | internal/metaserver/handler.go:217-251 | its writes remove nobody of the old id but the users it purges |
| `MetaRecovery.AdoptionStaysRecoverable` | internal/storage/mongo/mongo.go:332-383 | the store stays recoverable at every point of the adoption's writes, partway through the user move included, under every event that can happen while the write-order lock is held |
| `MetaRecovery.RegisterAfterCrash` | internal/metaserver/handler.go:111-160 | from a recoverable store the restarted server accepts the new id: it adopts the old entry, finds the new one, or allocates |
| `MetaRecovery.LegacyCrashRecovers` | internal/storage/mongo/mongo.go:332-336 | after a crash at any such point, a restart with purging on or off, and a registration of the new id, each user of the old id is at home on the new node, in memory at once and in the store once the writes are done, if and only if the registration reports them or the store still has them and, with purging on, under an id without an entry; the others have no home |
| `MetaRecovery.AdoptionCrashRecovers` | internal/metaserver/handler.go:109-363 | the composed run: an accepted adoption, any events under the lock, a crash anywhere, a restart with any settings and the same registration again; it is accepted, every user of the old id ends up by that condition, and the interrupted attempt has lost nobody but those it purged |
| `MetaRecovery.EveryoneRecovers` | internal/metaserver/handler.go:109-363 | with purging off before and after the crash, every user of the old id is at home on the new node |
| `MetaRetry.RetryRestoresIff` | internal/metaserver/handler.go:350-359 | however many of its document writes a first attempt got done, the retry proceeds under the same entry, and its writes restore agreement if and only if the rename, if there is one, was completed and the purged users, if any, were removed |
| `MetaRetry.FailedAdoptionStaysOut` | internal/metaserver/handler.go:350-359 | a concrete legacy node with one user whose retried registration leaves store and tables out of step |
| `MetaAnswers.NavigateExact` | internal/metaserver/handler.go:449-502 | a user is routed if and only if both names are known, the root's node is registered, marked healthy, heard of and not silent beyond the timeout, and the user is the owner or has a visible grant of the owner; the address is that node's; each refusal has its exact condition |
| `MetaAnswers.LoginExact` | internal/metaserver/handler.go:506-605 | a known user gets their own root and everything shared with them, in order; a newcomer is placed on a live node with no more users than any other; each refusal has its exact condition |
| `MetaAnswers.HeartbeatExact` | internal/metaserver/handler.go:385-446 | a heartbeat is accepted exactly from a registered node at its registered address and refreshes that node alone; each refusal has its exact condition |
| `MetaAnswers.ShareExact` | internal/metaserver/handler.go:608-661 | sharing succeeds exactly between two known users, adds that grant and no other, and owes the store the write unless the grant was visible |
| `MetaAnswers.UnshareExact` | internal/metaserver/handler.go:664-716 | revoking succeeds exactly between two known users, removes that grant and no other, and always owes the store the delete |
| `MetaAnswers.RegisterExact` | internal/metaserver/handler.go:109-160 | each answer of a registration's first critical section has its exact condition: no address, the id in use by a live node elsewhere, a listed user routed or waiting elsewhere, otherwise the entry of the id or the legacy entry at the address, or a new number |
| `MetaAnswers.CommitLeaves` | internal/metaserver/handler.go:206-348 | an accepted registration leaves the entry with id, address and load, every user's home and every grant as the request asks, in the tables and in the store, and everything else as it was |
| `MetaAnswers.DeregisterExact` | internal/metaserver/handler.go:720-819 | deregistering is refused only without id and address, and removes exactly the node meant, everyone routed to it or waiting for it, and the shares that involve one of them |
| `MetaAnswers.SweepExact` | internal/metaserver/metaserver.go:278-317 | a sweep turns exactly the nodes that are not live stale and changes nothing else |
| `MetaAnswers.HydratedLiveness` | internal/metaserver/metaserver.go:103-121 | a restarted server takes a node's liveness from its document and reads what is missing as seen now and healthy |
| `Liveness.AlikeStep` | internal/metaserver/metaserver.go:278-339 | one event, in two states that differ only in what sweeps have marked, has one outcome and leads to two such states |
| `Liveness.SweepsAreUnobservable` | internal/metaserver/metaserver.go:278-317 | with a monotone clock and a fixed timeout, two runs of one lifetime that differ only in their stale sweeps are both possible or neither, and give every caller the same answers |
| `Liveness.OnlyRegistrationMoves` | internal/metaserver/handler.go:125-140 | only a registration changes a node's address, and only of a node it finds unhealthy |
| `Liveness.AddressMovesAfterSilence` | internal/metaserver/handler.go:125-140 | within one lifetime, when a node's address changes, more than the timeout has passed since every earlier accepted heartbeat or registration from the old address |
| `Liveness.PlacementKeepsSpread` | internal/metaserver/metaserver.go:319-339 | first logins over an unchanging healthy set never raise the difference between two nodes' user counts above the larger of one and its initial value |
| `SharePath.NormalizeIdempotent` | internal/storage/meta.go:134-147 | normalising a path twice changes nothing more |
| `SharePath.NormalizeIff` | internal/storage/meta.go:134-147 | two spellings have one normal form if and only if they keep the same segments |
| `SharePath.NormalizeSegment` | internal/storage/meta.go:136-147 | a path without slashes is its own normal form, unless it is empty or a dot, whose normal form is empty |
| `SharePath.NormalizeConcat` | internal/storage/meta.go:136-147 | a slash or a backslash puts one normal form below the other with a single slash, or drops an empty one |
| `SharePath.NormalizeSharePath` | internal/storage/meta.go:136-147 | the loop over segments computes the normal form, which is a fixed point |
| `MemoryStore.MemStore.constructor` | internal/storage/memory/memory.go:33-40 | a new store is empty and well formed |
| `MemoryStore.MemStore.UpsertFileServer` | internal/storage/memory/memory.go:80-96 | a known node keeps its number, a new one gets the next; everything else is untouched |
| `MemoryStore.MemStore.RemoveFileServer` | internal/storage/memory/memory.go:98-106 | the method is the write that deletes the node document |
| `MemoryStore.MemStore.RenameFileServer` | internal/storage/memory/memory.go:143-168 | the loop moves every user of the old id and no other, the record keeps its number, an existing target wins, and an absent source is reported |
| `MemoryStore.MemStore.AssignUser` | internal/storage/memory/memory.go:170-178 | the method is the assignment of one user |
| `MemoryStore.MemStore.AssignUsers` | internal/storage/memory/memory.go:180-190 | records are applied in order, later ones winning |
| `MemoryStore.AssignedIsAssign` | internal/storage/memory/memory.go:180-190 | for one home node that is one bulk assignment |
| `MemoryStore.MemStore.RemoveUsers` | internal/storage/memory/memory.go:192-202 | exactly the listed users are removed |
| `MemoryStore.MemStore.AddShare` | internal/storage/memory/memory.go:204-214 | the grant is recorded under its normal form |
| `MemoryStore.MemStore.AddShares` | internal/storage/memory/memory.go:216-227 | the normal forms of all listed grants are recorded |
| `MemoryStore.MemStore.RemoveShare` | internal/storage/memory/memory.go:229-237 | the grant's normal form is removed |
| `MemoryStore.MemStore.RemoveSharesInvolving` | internal/storage/memory/memory.go:239-260 | exactly the grants with a listed user on either side go |
| `MemoryStore.MemStore.RemoveSharesByOwner` | internal/storage/memory/memory.go:262-281 | exactly the grants published by a listed owner go |
| `MetaServerImpl.MetaServer.FindByNodeID` | internal/metaserver/metaserver.go:239-252 | the scan finds the one entry with this id, or there is none |
| `MetaServerImpl.MetaServer.FindByAddress` | internal/metaserver/metaserver.go:254-266 | the scan finds some entry at the address, or there is none |
| `MetaServerImpl.MetaServer.CountUsers` | internal/metaserver/metaserver.go:268-276 | the count is the number of users routed to the node |
| `MetaServerImpl.MetaServer.GetLeastLoaded` | internal/metaserver/metaserver.go:319-339 | the result is healthy and no healthy node has fewer users; none only if none is healthy |
| `MetaServerImpl.MetaServer.MarkStale` | internal/metaserver/metaserver.go:294-317 | exactly the nodes that are not healthy become stale, and exactly those whose status changed are reported |
| `MetaServerImpl.MetaServer.RegistrationConflict` | internal/metaserver/handler.go:66-86 | it reports a conflict if and only if some listed user is routed, or waits, elsewhere |
| `MetaServerImpl.MetaServer.RemoveSharesByOwner` | internal/metaserver/handler.go:27-38 | every entry published by the owner goes and nothing else |
| `MetaServerImpl.MetaServer.BeginRegister` | internal/metaserver/handler.go:109-160 | the first critical section takes the protocol's decision: refuse, allocate, or proceed, adopting or not |
| `MetaServerImpl.MetaServer.PurgeMissing` | internal/metaserver/handler.go:217-242 | users the node hosted and does not report go with their shares, and only if purging is allowed |
| `MetaServerImpl.MetaServer.ClaimOrphans` | internal/metaserver/handler.go:253-262 | exactly the users waiting for this node are routed to it |
| `MetaServerImpl.MetaServer.AssignIncoming` | internal/metaserver/handler.go:266-280 | reported users are routed here, have a list, and what they published is cleared |
| `MetaServerImpl.MetaServer.GrantAll` | internal/metaserver/handler.go:288-317 | the nested loops publish the registration's grants, which MetaCommits.GrantsAre tells by the request, without duplicates |
| `MetaServerImpl.MetaServer.CommitRegister` | internal/metaserver/handler.go:206-348 | the committing critical section computes the new tables and the write list of the protocol's commit |
| `MetaServerImpl.MetaServer.GetRoots` | internal/metaserver/handler.go:506-591 | a login is the protocol's step, with a placement on a least loaded healthy node |
| `MetaServerImpl.MetaServer.BuildRoots` | internal/metaserver/handler.go:593-605 | a user's roots are their own followed by everything shared with them |
| `MetaServerImpl.MetaServer.UndoLogin` | internal/metaserver/handler.go:576-587 | the rollback of a first login |
| `MetaServerImpl.MetaServer.RootShare` | internal/metaserver/handler.go:608-661 | sharing is the protocol's step: unknown users refused, duplicates by owner and path skipped |
| `MetaServerImpl.MetaServer.RootUnshare` | internal/metaserver/handler.go:664-716 | revoking is the protocol's step, and always owes the store the delete |
| `MetaServerImpl.MetaServer.Heartbeat` | internal/metaserver/handler.go:385-446 | a heartbeat refreshes the node with that id at that address and is refused otherwise |
| `MetaServerImpl.MetaServer.Navigate` | internal/metaserver/handler.go:449-502 | a route is given if and only if both users are known, the root's node is live, and the user is its owner or has been granted something of it |
| `MetaServerImpl.MetaServer.DeregisterFileServer` | internal/metaserver/handler.go:720-819 | deregistering is the protocol's step: by id if one is given, users and waiting users released with their shares |
| `MetaHandlers.RegisterFileServer` | internal/metaserver/handler.go:90-363 | a whole registration against the store, allocation included: each refusal has its exact condition and changes neither side; acceptance leaves both sides in agreement, with the entry, every home and every grant as the request asks |
| `MetaHandlers.GetRoots` | internal/metaserver/handler.go:506-605 | a whole login: each refusal has its exact condition and changes nothing, a known user gets exactly the recorded roots, a newcomer is placed on a least loaded live node in the tables and in the store, which agree |
| `MetaHandlers.Share` | internal/metaserver/handler.go:608-661 | a share succeeds exactly between known users; afterwards that grant and no other has been added, in the tables and in the store, which agree |
| `MetaHandlers.Unshare` | internal/metaserver/handler.go:664-705 | a revocation succeeds exactly between known users; afterwards that grant and no other is gone, from the tables and from the store, which agree |
| `MetaHandlers.DeregisterFileServer` | internal/metaserver/handler.go:720-840 | the node meant is gone from tables and store, nobody is left assigned to it, the shares that involve one of its users are gone, and everything else stands |
| `InodeTree.DescendantsYounger` | internal/fileserver/fileserver.go:780-878 | everything strictly below an inode that is neither a root nor a trash directory is younger than it |
| `FileSafety.CreateWF` | internal/fileserver/fileserver.go:1341-1442 | creating keeps tree, paths, index, trash metadata and disk in agreement |
| `FileSafety.TrashKeepsAgreementIff` | internal/fileserver/fileserver.go:703-778 | trashing keeps everything in agreement if and only if the chosen name is free in the trash |
| `FileSafety.RestoreCanMove` | internal/fileserver/fileserver.go:812-836 | restore never puts an inode inside its own subtree: the target is older than the inode and lies outside it |
| `FileSafety.RestoreKeepsAgreementIff` | internal/fileserver/fileserver.go:788-878 | restoring keeps everything in agreement if and only if the chosen name is free at the target |
| `FileSafety.DeleteWF` | internal/fileserver/fileserver.go:1624-1749 | deleting keeps everything in agreement |
| `FileSafety.WriteWF` | internal/fileserver/fileserver.go:1525-1612 | writing keeps everything in agreement |
| `FileSafety.OpenRootWF` | internal/fileserver/fileserver.go:284-343 | opening a user's root, creating it and its trash if need be, keeps everything in agreement |
| `FileSafety.EnsureTrashWF` | internal/fileserver/fileserver.go:402-459 | making sure of the trash directory keeps the agreement and touches no other inode |
| `FileRuns.RunKeepsAgreement` | internal/fileserver/fileserver.go:703-878 | at every point of every run of opens, creates, writes, trashes, restores, deletes, shares, quota changes and restarts: child lists and parent links match, each path is parent path plus name, the index maps exactly the live paths to their inodes, and the disk holds exactly those |
| `InodeTree.SiblingsDiffer` | internal/fileserver/fileserver.go:479-498 | in such a state siblings have different names |
| `FileRuns.RunNeverReusesIds` | internal/fileserver/inodestore.go:94-130 | an id that was handed out and is dead stays dead for the rest of the run, restarts included |
| `FileRuns.RunAcyclic` | internal/fileserver/fileserver.go:598-611 | at every point of every run no inode is its own ancestor, and climbing from any inode reaches its owner's root |
| `FileAnswers.TrashAnswers` | internal/fileserver/fileserver.go:703-750 | a trash succeeds if and only if the inode exists, is neither the user's root nor trash, is the caller's, has no children or may go with them, is not in the trash, the trash directory is there or can be made, and the disk does its part; each refusal has its exact condition |
| `FileAnswers.TrashLeaves` | internal/fileserver/fileserver.go:752-778 | a successful trash hangs the inode in the user's trash under its name, or that with its number if taken, records where it came from and the shares of its subtree, which leave the share table, and changes nothing outside the subtree but child lists |
| `FileAnswers.DeleteAnswers` | internal/fileserver/fileserver.go:1624-1671 | a delete succeeds if and only if the inode exists, is neither the user's root nor trash, is the caller's, has no children or may go with them, and the disk does its part; each refusal has its exact condition |
| `FileAnswers.DeleteCharges` | internal/fileserver/fileserver.go:1672-1690 | a delete takes the size the lookup found off every inode above, down to zero at worst, and off no other |
| `FileAnswers.RestoreAnswers` | internal/fileserver/fileserver.go:788-836 | a restore succeeds if and only if the caller has access, the inode lies in the user's trash with restore metadata, and the disk does its part; each refusal has its exact condition |
| `FileAnswers.RestorePlace` | internal/fileserver/fileserver.go:812-836 | a restored inode hangs under the remembered parent, or the user's root once that is gone, under its old name or, if that is taken there, with its number appended |
| `FileAnswers.CreateAnswers` | internal/fileserver/fileserver.go:1341-1442 | a create answers the child already there or makes one; unfit and reserved names, a missing or unsuitable parent, a place inside the trash and a disk failure each have their exact condition, and nothing else changes |
| `FileAnswers.OpenAnswers` | internal/fileserver/fileserver.go:284-343 | a user's root is answered if and only if it is there or can be made, and so is its trash; a new one is empty but for the trash |
| `FileAnswers.WriteAnswers` | internal/fileserver/fileserver.go:1525-1612 | each answer of a write has its exact condition in plain arithmetic on offset, length, size, the root's size and the quota, and an accepted one enlarges the file and everything above it by the growth and nothing else |
| `FileAnswers.WrittenSizes` | internal/fileserver/fileserver.go:1550-1608 | from sizes as on disk, a file that bytes were written to is in cache and on disk as long as its old end or the end of the write, whichever is further, and everything above it has grown by the difference |
| `FileAnswers.ShareAnswers` | internal/fileserver/fileserver.go:996-1097 | a share succeeds exactly when the owner shares a directory with somebody else without access; the user is then on its list once, behind the others, and no other list has changed |
| `FileAnswers.UnshareAnswers` | internal/fileserver/fileserver.go:1123-1235 | taking a share back succeeds exactly when the owner takes it from somebody else with access; that user is then off the directory's list, the others stay, and no other list has changed |
| `FileAnswers.UniqueNameExact` | internal/fileserver/fileserver.go:479-498 | the name picked is the wanted one or, if the directory has a child of that name, the wanted one with the number appended |
| `FileAnswers.DigitsExact` | internal/fileserver/fileserver.go:492-498 | the number appended is the decimal form of the id, without leading zeros |
| `FileDeletion.UnderIffDescends` | internal/fileserver/fileserver.go:966-992 | lying below a path is the same as reaching its inode by parent links |
| `FileDeletion.DeleteRemovesExactly` | internal/fileserver/fileserver.go:1624-1749 | a successful delete removes exactly the target and its descendants from inodes, index, trash metadata, shares and disk, and changes nothing else but the parent's child list and the sizes above |
| `RoundTrip.TrashRestoreIdentity` | internal/fileserver/fileserver.go:703-878 | when the chosen trash name is free, trash followed at once by restore is the identity on the whole state but the shares, suffixed name or not, up to the position in the parent's child list and the trash directory having been made; it is the identity on the shares if and only if no list at or below the path names a user twice |
| `RoundTrip.SharesBackIff` | internal/fileserver/fileserver.go:613-699 | detaching the shares of a subtree and reattaching them in place brings the table back if and only if no list there names a user twice |
| `RoundTrip.MergePrefixIff` | internal/fileserver/fileserver.go:678-688 | merging a distinct list over another gives that list if and only if the other is its beginning |
| `Shelf.RestoreBringsBack` | internal/fileserver/fileserver.go:788-878 | in any later state in which the subtree still lies in the trash as it was left, a restore hangs the very inodes the trash found, with their sizes, children and disk entries, under the remembered parent, or the root once that is gone, at that directory's path of today; everybody else is unchanged but for two child lists, and the recorded shares are merged in under the new path |
| `Shelf.RestoreReturnsIff` | internal/fileserver/fileserver.go:788-878 | the inodes then have their old names, paths, parents, index and disk entries if and only if the old parent is alive at its old path and the old name is free there; the explicit shares below the path are then the recorded ones if and only if the lists found there begin them |
| `TrashRuns.TrashShelves` | internal/fileserver/fileserver.go:703-778 | a successful trash leaves the subtree its lookup found in the trash, under the entry it records |
| `TrashRuns.AsideStill` | internal/fileserver/fileserver.go:703-878 | a call that looks up, changes, creates or restores nothing inside a trashed subtree leaves its inodes, disk entries and restore metadata as they are |
| `TrashRuns.RunKeepsListsDistinct` | internal/fileserver/fileserver.go:1082-1097 | along every run, shares, trashes, restores and restarts included, no share list and no snapshot of one names a user twice |
| `TrashRuns.RestoreAfterRun` | internal/fileserver/fileserver.go:703-878 | a trash, any calls elsewhere, then a restore: the subtree is back exactly as the trash found it if and only if the old parent is alive at its old path and the old name is free there, and its shares too if and only if the lists found there begin the recorded ones |
| `TrashRuns.RestartForgets` | internal/fileserver/filescanner.go:21-114 | a restart forgets the restore metadata: nothing that lay in the trash can then be restored |
| `FileSizes.WriteKeepsSizesIff` | internal/fileserver/fileserver.go:1550-1608 | writing keeps sums exact, and cached sizes equal to those on disk if and only if it is not an empty write beyond the end |
| `FileSizes.NoOverflow` | internal/fileserver/fileserver.go:1563-1608 | while sums are exact, no unsigned 64-bit addition on the way to the root overflows once the quota check has passed |
| `FileSizes.ResizedExactIff` | internal/fileserver/fileserver.go:1598-1608 | in any state the 64-bit additions of a write are the true ones if and only if no inode from the file to the root passes the maximum |
| `FileSizes.DiffExact` | internal/fileserver/fileserver.go:1550-1561 | the signed 64-bit difference is the true one for every size a file can have |
| `FileSizes.DropSummed` | internal/fileserver/fileserver.go:1674-1690 | when sums are exact, every ancestor is at least as large as what is deleted, so the clamp to zero is never taken and sums stay exact |
| `FileSizes.CreateExact` | internal/fileserver/fileserver.go:1341-1442 | creating keeps sums exact and sizes as on disk |
| `FileSizes.DeleteExact` | internal/fileserver/fileserver.go:1672-1690 | deleting keeps sums exact and sizes as on disk |
| `QuotaRuns.PlainRunExact` | internal/fileserver/fileserver.go:1550-1690 | over every run of opens, creates, writes, deletes and shares each directory's size is the sum of its children's and each file's size the one on disk |
| `QuotaRuns.PlainRunNoWrap` | internal/fileserver/fileserver.go:1563-1608 | no accepted write of such a run wraps a size on the way to the root: the additions are exact, and when the file grows every directory above it stays within the user's quota |
| `QuotaRuns.MoveKeepsSumsIff` | internal/fileserver/fileserver.go:752-775 | moving an inode to the trash or back keeps the sums exact if and only if it has size zero |
| `QuotaRuns.RunWithinQuota` | internal/fileserver/fileserver.go:1563-1577 | with quotas fixed, no run of operations, trashing included, takes a user's root above its quota |
| `FileTotals.RunConserves` | internal/fileserver/fileserver.go:1563-1690 | over every run of opens, creates, writes, trashes, restores, deletes and restarts, each root's cached total is the number of bytes its user has on disk and is within the quota, provided no write is an empty one beyond the end and every delete meets the exact condition |
| `FileTotals.DeleteConservesIff` | internal/fileserver/fileserver.go:1672-1690 | a successful delete keeps the totals right if and only if the deleted inode's cached size is the bytes below it, or is clamped and everything lies below it |
| `FileTotals.GrowTotals` | internal/fileserver/fileserver.go:1598-1608 | a write adds as much to the root as to the file, whatever trashing did to the directories in between |
| `FileTotals.MoveTotals` | internal/fileserver/fileserver.go:752-775 | trash and restore keep every user's total equal to the weight of their files, and change no cached size |
| `TrashedBytes.CycleHaunts` | internal/fileserver/fileserver.go:1674-1690 | writing to a file, trashing it and deleting it from the trash takes exactly the file away, on disk and in the tables, but its bytes stay counted in every directory between the user's root and the place it left |
| `FileTotals.SizeIsWeight` | internal/fileserver/filescanner.go:246-271 | when every directory is the sum of its children, every inode's size is the sum of the files below it |
| `FileTotals.SummedTotals` | internal/fileserver/filescanner.go:246-271 | in such a state the totals are right and every delete meets the exact condition |
| `FileTotals.RestartSound` | internal/fileserver/filescanner.go:21-271 | if the totals were right, a restart leaves every root's total as it was, and within the quota |
| `Rescan.RescanRecovers` | internal/fileserver/filescanner.go:21-271 | a restart gives every path its old id, the same parents and the same children up to order, exact sums and the sizes on disk; only restore metadata is gone |
| `Rescan.TreeOnDisk` | internal/fileserver/filescanner.go:21-114 | in every agreeing state the disk is a tree of directories per user and the index is one-to-one below its counter, which is what the boot scan starts from |
| `Rescan.RescanCompleteIff` | internal/fileserver/filescanner.go:21-243 | the scan finds every inode if and only if no user name starts with a dot and nothing below is called `.acl`, and never invents one |
| `FileLimits.SuffixedNameClash` | internal/fileserver/fileserver.go:492-498 | a concrete agreeing state in which trashing one file puts two under one path |
| `FileLimits.EmptyWriteLeavesDisk` | internal/fileserver/fileserver.go:1550-1561 | a concrete state with exact sizes in which an empty write one byte past the end is accepted and the cached size leaves the disk |
| `FileLimits.TrashBreaksSums` | internal/fileserver/fileserver.go:756-775 | a concrete state in which moving a one-byte file to the trash breaks the sums |
| `FileLimits.DeleteAfterTrashUndercounts` | internal/fileserver/fileserver.go:1674-1690 | a concrete state, one file trashed out of a directory, in which deleting the directory leaves the user's total short of the bytes on disk |
| `FileLimits.CachedSizeWraps` | internal/fileserver/fileserver.go:1598-1608 | a concrete run of seven accepted calls, from exact sizes within the quota, that wraps a directory's cached size to zero |
| `FileLimits.AclFileIsLost` | internal/fileserver/filescanner.go:142-145 | the name `.acl` is accepted for a file, and no rescan finds such a file again |
| `InodeStoreImpl.InodeStore.GetOrAssign` | internal/fileserver/inodestore.go:94-108 | a known path keeps its id, a new one gets the counter, which then moves on |
| `InodeStoreImpl.InodeStore.Get` | internal/fileserver/inodestore.go:111-119 | the id of a known path, and no allocation |
| `InodeStoreImpl.InodeStore.Remove` | internal/fileserver/inodestore.go:121-130 | one path is forgotten and the counter stays |
| `InodeStoreImpl.InodeStore.RenamePrefix` | internal/fileserver/inodestore.go:132-157 | re-keying entry by entry in any order is the simultaneous move of the subtree's keys |
| `Paths.RenameRoundTrip` | internal/fileserver/inodestore.go:132-157 | re-keying a subtree there and back is the identity when the destination is vacant and outside it |
| `FileServerImpl.FileServer.GetChildInodeByName` | internal/fileserver/fileserver.go:943-962 | the first listed child of that name |
| `FileServerImpl.FileServer.UniqueNameInDir` | internal/fileserver/fileserver.go:479-498 | the name if free, otherwise the name with the inode id appended |
| `FileServerImpl.FileServer.IsUnder` | internal/fileserver/fileserver.go:506-515 | climbing the parent links finds the trash directory if and only if the path lies below it |
| `FileServerImpl.FileServer.InUserTrash` | internal/fileserver/fileserver.go:500-515 | whether the inode lies in the user's trash, which is made if need be |
| `FileServerImpl.FileServer.CollectInodesToDelete` | internal/fileserver/fileserver.go:1785-1812 | the recursive walk lists every proper descendant exactly once, children before parents |
| `FileServerImpl.FileServer.ValidateDelete` | internal/fileserver/fileserver.go:1752-1783 | it passes only if the user owns the whole subtree, and refuses a non-empty directory unless recursive |
| `FileServerImpl.FileServer.UpdateSubtreePaths` | internal/fileserver/fileserver.go:598-611 | the recursive walk rewrites exactly the subtree's paths |
| `FileServerImpl.FileServer.RemoveFromParent` | internal/fileserver/fileserver.go:1814-1869 | the inode leaves its parent's list, in which the others keep their order, or, if it is not listed there, that of some directory that lists it; a root stays, and an inode nobody lists is an error |
| `FileServerImpl.FileServer.DeductSize` | internal/fileserver/fileserver.go:1672-1690 | the climb takes the deleted size off exactly the ancestors |
| `FileServerImpl.FileServer.AddToSizes` | internal/fileserver/fileserver.go:1598-1608 | the climb adds the difference to exactly the inode and its ancestors, in 64-bit arithmetic |
| `FileServerImpl.FileServer.DetachShares` | internal/fileserver/fileserver.go:613-653 | every share at or below the path is taken out and returned, the others stay |
| `FileServerImpl.FileServer.ReattachShares` | internal/fileserver/fileserver.go:655-699 | snapshots come back under the new path, merged with what is there, without duplicates |
| `FileServerImpl.FileServer.GetOrCreateTrashDir` | internal/fileserver/fileserver.go:402-459 | the user's trash directory, created on first use |
| `FileServerImpl.FileServer.TrashFile` | internal/fileserver/fileserver.go:703-778 | the reply is that of the trash operation; when the chosen name is free so is the whole new state |
| `FileServerImpl.FileServer.RestoreFile` | internal/fileserver/fileserver.go:788-878 | the reply is that of the restore operation; when the chosen name is free so is the whole new state |
| `FileServerImpl.FileServer.DeleteFile` | internal/fileserver/fileserver.go:1624-1749 | the four phases together are the delete operation, and keep the server valid |
| `FileServerImpl.FileServer.CreateFile` | internal/fileserver/fileserver.go:1341-1442 | the method is the create operation, idempotent on an existing name, and keeps the server valid |
| `FileServerImpl.FileServer.WriteFile` | internal/fileserver/fileserver.go:1525-1612 | the method is the write operation, with the open and its overflow, quota and disk checks in order, and keeps the server valid |
| `FileServerImpl.FileServer.ShareDirectory` | internal/fileserver/fileserver.go:996-1110 | sharing is the share operation: owner only, no self-share, no second share, and the user appended once to the directory's list |
| `FileServerImpl.FileServer.UnshareDirectory` | internal/fileserver/fileserver.go:1123-1235 | revoking is the unshare operation: the user leaves the list, which goes when it is empty |
| `FileServerImpl.FileServer.GetUserRoot` | internal/fileserver/fileserver.go:284-400 | the user's root and trash are created on first contact; a longer path is then descended by name from the root, and arrives if and only if the index has that path, at exactly its inode |
| `FileServerImpl.FileServer.SetUserQuota` | internal/fileserver/quota.go:17-61 | only a named user gets a quota and only a positive one; it is then that user's quota and nobody else's changes, even when it cannot be persisted, which is reported |
| `Scanner.ScanUserDirectory` | internal/fileserver/filescanner.go:117-243 | the breadth-first queue visits exactly what lies below the user's directory, gives known paths their ids and new ones fresh ids, and leaves other users' inodes alone |
| `Scanner.CalculateSizes` | internal/fileserver/filescanner.go:246-271 | the recursion makes every directory below the inode the sum of its children and changes nothing outside |
| `Scanner.LoadExistingData` | internal/fileserver/filescanner.go:21-114 | the whole boot-time scan, user directories in any order, builds exactly the state a restart is defined to have |
| `Sessions.DropKeepsInv` | internal/fileserver/session/store.go:192-315 | dropping any set of sessions from all three indexes keeps them in agreement, ordered and within the limits |
| `Sessions.CreateKeepsInvIff` | internal/fileserver/session/store.go:65-132 | creating a session keeps the three indexes in agreement if and only if, once room has been made, the client's previous session is the same user's and the hash is new or that session's own |
| `Sessions.SharedClientBreaks` | internal/fileserver/session/store.go:107-111 | a concrete agreeing table and a creation that breaks it: a client id that changes users |
| `Sessions.EvictsOldest` | internal/fileserver/session/store.go:93-105 | eviction takes the session that user created first, and no other |
| `Sessions.RoomKeepsInv` | internal/fileserver/session/store.go:85-105 | making room keeps the indexes in agreement and leaves the user below the cap |
| `Sessions.TouchKeepsInv` | internal/fileserver/session/store.go:166-171 | touching a session keeps the indexes in agreement |
| `Sessions.ValidateExact` | internal/fileserver/session/store.go:134-174 | a token is accepted if and only if it is not empty, has a session, the session is neither idle beyond the limit nor past its absolute end, and one of the two addresses is empty or they are equal; each error has its exact condition |
| `Sessions.CreateExact` | internal/fileserver/session/store.go:65-132 | a creation is refused only for an empty argument or when ten thousand current sessions are left; otherwise exactly these go: the lapsed ones if the table was full, the oldest of a user who has five, and the client's previous one |
| `Sessions.SweepExact` | internal/fileserver/session/store.go:270-297 | a sweep leaves exactly the sessions neither idle beyond the limit nor past their absolute end |
| `Sessions.RevokeExact` | internal/fileserver/session/store.go:191-225 | revoking a token takes exactly its session, revoking a client exactly that client's |
| `Sessions.CreateThenValidate` | internal/fileserver/session/store.go:134-174 | a session just created is found by its client and validates from its own address exactly until its idle or absolute expiry |
| `Sessions.RevokeUserExact` | internal/fileserver/session/store.go:227-244 | after a user's sessions are revoked none is left and nobody else has lost one |
| `Sessions.RunKeepsInv` | internal/fileserver/session/store.go:65-315 | every run of creations, touches, revocations and sweeps keeps the indexes in exact agreement within both limits, the creations meeting the exact condition |
| `SessionStore.UnlistIsDrop` | internal/fileserver/session/store.go:197-205 | deleting a session, its client's entry and its slot drops it from all three indexes |
| `SessionStore.Store.RemoveFromUserSlice` | internal/fileserver/session/store.go:299-315 | the hash leaves the user's list, which goes when it is empty |
| `SessionStore.Store.PurgeExpired` | internal/fileserver/session/store.go:277-297 | exactly the expired sessions are dropped, in whatever order they are found |
| `SessionStore.Store.EvictOldest` | internal/fileserver/session/store.go:93-105 | a user at the cap loses the first session of the list |
| `SessionStore.Store.CreateSession` | internal/fileserver/session/store.go:65-132 | each refusal has its exact condition; otherwise the new session is there and exactly the sessions that make room are gone; the indexes agree afterwards exactly under the stated condition |
| `SessionStore.Store.ValidateSession` | internal/fileserver/session/store.go:134-174 | a token is accepted exactly when its session is there, current and shown from a fitting address, and each error has its exact condition; an accepted session is touched and returned, and exactly an expired one is handed to a background revocation |
| `SessionStore.Store.GetSessionByClientID` | internal/fileserver/session/store.go:176-189 | a session is found if and only if the client has one that has not expired |
| `SessionStore.Store.RevokeSession` | internal/fileserver/session/store.go:191-206 | exactly that session is dropped, if it exists |
| `SessionStore.Store.RevokeByClientID` | internal/fileserver/session/store.go:208-225 | exactly the client's session is dropped, if it has one |
| `SessionStore.Store.RevokeAllForUser` | internal/fileserver/session/store.go:227-244 | exactly that user's sessions are dropped |
| `SessionStore.Store.Sweep` | internal/fileserver/session/store.go:270-275 | exactly the expired sessions are dropped |

## Left out

- FileServerImpl.FileServer.TrashFile: states the reply but not the state when the suffixed name is taken, because the resulting index then depends on map iteration order.
- FileServerImpl.FileServer.RestoreFile: states the reply but not the state when the suffixed name is taken, for the same reason.
- InodeStoreImpl.InodeStore.RenamePrefix: states nothing when the destination is occupied or lies inside the source; a key inserted during the iteration is not visited again, which changes nothing when the destination is vacant.
- FileServerImpl.FileServer.GetUserRoot: splitting the path at slashes is an input.
- QuotaRuns.RunWithinQuota: covers one server lifetime; a restart recomputes every size from disk, which FileTotals.RunConserves covers for runs whose deletes meet the exact condition.
- FileSizes.NoOverflow: is for exact sums; FileSizes.ResizedExactIff has the exact condition for any state and FileLimits.CachedSizeWraps an input on which it fails.
- Liveness.AddressMovesAfterSilence: covers one server lifetime and says nothing about nodes hydrated from the store that have not been heard since.
- MetaRecovery.AdoptionStarts: assumes the legacy entry is the only node at its address; with two, a restarted server may adopt the other.
- MetaRecovery.LegacyCrashRecovers: for an arbitrary registration it assumes that only users of the old id, of the new id, or of nobody are reported, which MetaRecovery.AdoptionCrashRecovers derives for the one that was accepted.
- MetaRuns.HomesAreSticky: starts where the assignment has reached the store; a crash before that loses the placement, as in the source.
- MetaCommits.LoginAgrees: a first login resets the user's in-memory share list, so memory's grants are a subset of the store's, not equal to them.
- Store failures that are not crashes: in the step machine a failing write is a crash followed by a restart; the rollbacks are proved to restore tables and loads, and a retried registration is covered whatever prefix of its first writes was done, but not its interleaving with other requests.
- Granularity of store writes: a rename is three document writes with a user-by-user move; the other bulk writes are single steps.
- Heartbeat times, status and display names in the store: best-effort documents; after a restart liveness may be anything.
- The in-memory table of inodes is keyed by numeric id instead of by pointers between inode objects; generation numbers and server ids in file identifiers are constant and omitted.
- Ordering of directory listings and snapshots: the scans take entries in any order, which is more than the sorted order of the source.
- A delete that fails halfway through the disk: the disk calls of one delete succeed together or fail before memory changes.
- Restarts between the index file's removal and its rename, and the JSON form of the index, quota and share files.
- Access control lists and `.acl` files, and the notifications a fileserver sends to the metaserver: whether a user is on a directory's access list is an input of restore, share and unshare, whose effect here is the table of explicit shares.
- Reading files, hashes, listings, relative path navigation within a fileserver, operation metrics and disk-space probes: the disk-space answer is an input.
- Session methods from a table in which the indexes already disagree; token hashing and address parsing are inputs.
- A session is a record in the table; validation returns its value, not the pointer into the table.
- The MongoDB backend beyond the order of a rename's writes, the client and its cache, callbacks, the admin service, authentication and transport.
