# Verified model of the desired-versus-current machinery of AIM and AID

AIM keeps the desired state of an ACI fabric in a database; AID makes the fabric agree with it. This
project models the parts of that machinery whose correctness cannot be settled by a handful of
examples, and proves what they are for:

- **The structured hash tree** (`Keys`, `TreeStore`, `TreeTheory`, `TreeDiff`, `StructuredTree`,
  `TreeRuns`, `TreeJson`). Node objects with sorted lists of children, dummy nodes on the way to real ones, path
  rehashing, the hash-pruned difference and the JSON form. A tree is an index of the map from keys to attributes: its root
  hash tells two such maps apart, whatever happened to the trees before, and applying the difference of two trees makes
  them equal. Every tree object carries a ghost map of its node objects and what they hold; `Valid` ties the two together.
  `ViewLaws` says key by key what each operation does to the fields of the nodes.
- **Tree making and building** (`TreeMaker`, `TreeBuilder`). Which nodes a resource becomes, the cleaning of related nodes
  that edits the tree it walks, and the batches that keep the configuration tree and the monitored tree apart. `BuildLaws`
  says what the nodes of a resource hold afterwards, and how a status shows on them.
- **Replaying the action log** (`TreeReplay`, `ActionLog`, `LogLaws`, `LogRuns`, `LedgerLaws`, `FaultRuns`, `FaultLaws`,
  `RootsLog`, `DbListener`). Commits are
  logged, the log is compacted and replayed onto the stored trees, an overlong log gives way to a rebuild. `LogRuns.Ledger`
  is the bookkeeping of a root as a pure state machine, which every method of the listener refines. Main result: after any
  run of commits, catch-ups and requested resets, once the log is drained, rebuilding the trees from the database changes
  neither the configuration tree nor the monitored one when nothing is lost in the end; and it leaves each of them as it is
  exactly when the resources shown give the same nodes there as those of the database
  (`DbListener.HashTreeDbListener.Run`). What a catch-up loses is exact too (`LogRuns.CatchUpLosesExactly`). The operational
  tree shows every fault of the database but those that the last rebuild did not find, which are the faults of resources
  that do not belong in the trees (`DbListener.HashTreeDbListener.RunWithFaults`, `FaultRuns.RebuildKeepsFaults`). A
  catch-up over the logs of several roots at once does to each root what catching up alone would do, but for rules
  overtaken by one of their name in a later root (`RootsLog.SaidTogether`, `RootsLog.TogetherIsAlone`).
- **Synchronisation status** (`SyncStatus`). The recursion over parents and subtrees while the table it reads is changing:
  termination, its exact effect, and safety over whole runs.
- **The consistent hash ring** (`HashRing`, `RingLaws`) and **the assignment of tenants to agents** (`TenantAssignment`, and
  `TenantViews` for agents that see one another in different orders).
- **The divergence tracker** (`DivergenceTracker`): retries, resets and failures of repeated operations.
- **The vote on dropping a tenant** (`DeletionVote`), over the nodes of the trees and their difference.
- **The index of configuration subscriptions** (`ConfigSubscriber.dfy`, module `ConfigSubscription`).

Digests are terms, so that two are equal exactly when what was hashed is; the program uses SHA-256 and joins digests of
fixed width. The hash of the ring is an arbitrary function of a string, and stars hash the name of their node followed by a
decimal number, as in the program. Distinctness of the hashes of the stars is assumed only where a statement says
`Distinct`; for a hash that tells strings apart, `HashRing.DistinctIffNotNested` says which clusters have it. The
conversion of resources to ACI objects is an arbitrary function; what the replay theorem takes for granted of it is
collected in `TreeReplay.Layout.Regular`: every key belongs to one resource, the other
nodes of a resource hang below its main one by nodes of the same resource, a resource either always has a main node or
never has, and the sync state of a resource does not change its nodes. `SampleLayout` has a layout that is so, and carries
inputs of the replay through it. Clock readings and random draws are parameters.

Where the code does something that its documentation does not say, the code is followed:

- The version of an existing subscription is written before a second host is refused (aim/config.py:475-483).
- `set_resource_sync_pending` is commented as stopping at pending or synced resources, but a call with `top` goes on from a
  synced one (aim/aim_manager.py:442-450).
- A root that is reset while its log is not empty keeps the log, which is replayed once more the next time
  (aim/db/hashtree_db_listener.py:316-322).
- Two security group rules that share a name, in different groups, hide one another in the log
  (aim/db/hashtree_db_listener.py:276-285). `DbListener.SharedNameLosesRule` gives the input, through commit and catch-up;
  `ActionLog.ReplayIsWantedExactly` says exactly which logs replay right, whatever the names are. Rules of different
  names never do: `LedgerLaws.DifferentNamesAreShown`.
- A catch-up without served roots reads the logs of all roots (aim/db/hashtree_db_listener.py:189-201), and their rules
  share the lists of names. So a rule can be lost to one of another root (`RootsLog.SharedNameAcrossRoots`), and a root that
  resets may be left without a list, which is a key error that gives up the whole catch-up (`RootsLog.ResetWithoutList`).
- A rebuild does not list the faults of resources that are blocked or not to be synchronised
  (aim/db/hashtree_db_listener.py:121-138), while a replay shows them: `SampleLayout.FaultOfUnsynced`. The deletion of a
  resource or of its status leaves its faults in the operational tree (aim/tree_manager.py:470-479, 527-530).
- A rule that is kept out of the trees is shown all the same once its status is logged, as the status is built by updating
  its resource (aim/tree_manager.py:453-469): `LogRuns.StatusShowsBlocked`. A rebuild leaves it out again.
- A rejected batch on an empty tree leaves `root_key`, `has_populated` and with them the root hash changed
  (aim/common/hashtree/structured_tree.py:318-325): `StructuredTree.StructuredHashTree.Include` says to what, and
  `TreeRuns.RejectedBatch` gives the input.
- The root hash is history independent except for empty trees, which remember the key of the root they had:
  `TreeRuns.RootFullHashIsContent` and, for the input, `TreeRuns.NewAndEmptied`.
- Names of nodes of the ring and numbers are joined without a separator (aim/common/hashring.py:88-89), so that "a" and
  "a1" can have the same stars. Then the ring depends on the order in which nodes came (`HashRing.SharedIsFirstCome`, and
  `HashRing.TwoOrders` for the input), a node that has left can keep serving keys (`HashRing.StrayStar`), and agents that
  see one another in different orders can serve a root twice or not at all (`TenantViews.SharedStar`).
- An exception lets a tenant be dropped without the wait of four looks: `DeletionVote.FaultsSkipTheWait`.
- The law of retries holds only when at least one retry is configured: `DivergenceTracker.RetryLawNeedsRetry`.

## Model

| member | source | states |
|---|---|---|
| Keys.SortedUnique | aim/common/hashtree/base.py:131-138 | a strictly sorted list of children is determined by which keys it has, so the order in which children came does not matter |
| ViewLaws.KeysAreLexical | aim/common/hashtree/base.py:131-155 | keys compare by the first part in which they differ, character by character, and the shorter of two that do not differ comes first |
| StructuredTree.Node.IndexOf | aim/common/hashtree/base.py:151-155 | bisection finds the sibling with a key, and only misses a key that is not there |
| StructuredTree.Node.AddChild | aim/common/hashtree/base.py:131-138 | a child is put in its place or replaces the one of its key; the list stays strictly sorted and nothing else changes |
| StructuredTree.Node.RemoveChild | aim/common/hashtree/base.py:140-143 | exactly the child with the key goes, and the order stays |
| StructuredTree.Node.GetChild | aim/common/hashtree/structured_tree.py:81-82 | the child with a key is found exactly when there is one |
| StructuredTree.Node.constructor | aim/common/hashtree/structured_tree.py:43-55 | a new node's full hash is its partial hash unless another one is given |
| StructuredTree.StructuredHashTree.constructor | aim/common/hashtree/structured_tree.py:212-224 | a new tree is empty and remembers the root key it is given |
| StructuredTree.StructuredHashTree.OfNode | aim/common/hashtree/structured_tree.py:212-224 | a tree around an existing consistent node takes its root key from the node |
| StructuredTree.StructuredHashTree.Add | aim/common/hashtree/structured_tree.py:254-301 | exactly the placeholders on the way are created, the node becomes real with the given attributes, error flag and merged metadata, and the tree is consistent again; a second root is refused and changes nothing |
| StructuredTree.StructuredHashTree.Clear | aim/common/hashtree/structured_tree.py:349-363 | the node becomes a dummy, exactly the nodes that no real node needs any more disappear, and those had no children |
| StructuredTree.StructuredHashTree.Pop | aim/common/hashtree/structured_tree.py:327-343 | the keys that extend the popped one become a consistent tree of their own, the rest stays, without the dummies nothing needs |
| StructuredTree.StructuredHashTree.Remove | aim/common/hashtree/structured_tree.py:345-347 | as popping, but a key that is not there is an error and changes nothing |
| StructuredTree.StructuredHashTree.Find | aim/common/hashtree/structured_tree.py:365-366 | a node is found exactly when the search can reach its key |
| StructuredTree.StructuredHashTree.GetNodeAndParentStack | aim/common/hashtree/structured_tree.py:490-509 | the stack holds the nodes from the root to the parent, in order; an empty key is an index error |
| StructuredTree.StructuredHashTree.RecalculateParentsStack | aim/common/hashtree/structured_tree.py:446-451 | rehashing from the bottom up makes every full hash on the path that of its node's children again |
| StructuredTree.StructuredHashTree.ClearStackFromDummies | aim/common/hashtree/structured_tree.py:511-528 | dummy leaves go from the end of the path, and no node that is needed does |
| StructuredTree.StructuredHashTree.Include | aim/common/hashtree/structured_tree.py:303-325 | a batch is added in order, and rejected exactly when its keys and the tree ask for more than one root; a rejected batch of keys that were no nodes leaves exactly the nodes that were there, placeholders included, and the root hash of a tree that had any; an empty tree stays known by the first key of the batch, and populated |
| StructuredTree.StructuredHashTree.GetSubtreeKeys | aim/common/hashtree/structured_tree.py:436-444 | each real, error-free key of a subtree is listed once |
| StructuredTree.StructuredHashTree.Diff | aim/common/hashtree/structured_tree.py:392-444 | the pruned walk lists exactly the naive difference: each key to add and each key to remove, once; for roots at different depths it lists both trees whole |
| StructuredTree.StructuredHashTree.DiffChildren | aim/common/hashtree/structured_tree.py:409-434 | two lists of siblings contribute exactly the naive difference under them |
| StructuredTree.StructuredHashTree.Equal | aim/common/hashtree/structured_tree.py:470-484 | trees are equal exactly when they hold the same attributes under the same real keys, and below the same root key if both have one |
| StructuredTree.StructuredHashTree.ValidView | aim/common/hashtree/structured_tree.py:486-528 | in a consistent tree every node has all its ancestors and is needed by a real node: there is no dummy leaf |
| ViewLaws.NodeShows | aim/common/hashtree/structured_tree.py:446-461 | what a node object of a tree holds: a partial hash over its key, dummy flag and attributes, a full hash over that and the full hashes of its children, which are one part longer and in order; a dummy has no attributes and some child |
| ViewLaws.AddedAt | aim/common/hashtree/structured_tree.py:254-301 | key by key after adding: the node is real with what was given, metadata kept, dropped or overridden entry by entry; placeholders are empty dummies on the way to it only; every other node is as it was |
| ViewLaws.ClearedAt | aim/common/hashtree/structured_tree.py:349-363 | key by key after clearing: the node is a dummy without attributes that keeps its error and metadata, a node stays exactly when another real one is at or below it, and stays as it was |
| ViewLaws.PoppedAt | aim/common/hashtree/structured_tree.py:327-343 | key by key after popping: nodes at or below the key are in the popped tree, a node stays exactly when a real one that was not popped is at or below it, all as they were |
| ViewLaws.OneRootMeans | aim/common/hashtree/structured_tree.py:303-325 | the condition of a batch: no two of its keys differ in their first part, nor does one from the root of the tree |
| ViewLaws.ToAddMeans | aim/common/hashtree/structured_tree.py:409-434 | a difference lists a key to add once exactly when it is real and free of error here, and there it is missing, or free of error and a dummy or with other attributes |
| ViewLaws.ToRemoveMeans | aim/common/hashtree/structured_tree.py:409-434 | and a key to remove once exactly when it is real and free of error there, and here missing or a dummy free of error |
| TreeStore.AddChildStep | aim/common/hashtree/structured_tree.py:69-70 | hanging a placeholder keeps the shape and makes only the hashes on its path stale |
| TreeStore.SetNodeStep | aim/common/hashtree/structured_tree.py:287-298 | changing what a node stands for makes only the hashes on its path stale |
| TreeStore.RehashStep | aim/common/hashtree/structured_tree.py:446-451 | rehashing the lowest stale node moves the stale part of the path up by one |
| TreeStore.CutStep | aim/common/hashtree/structured_tree.py:511-528 | cutting a subtree off keeps the rest a consistent tree but for the hashes above |
| TreeStore.SettledIsGood | aim/common/hashtree/structured_tree.py:446-451 | with the path rehashed and its end needed, the class invariant is back |
| TreeStore.TrimOfGood | aim/common/hashtree/structured_tree.py:486-488 | a consistent tree has no node that no real node needs |
| TreeTheory.FullHashDetermines | aim/common/hashtree/structured_tree.py:446-451 | equal full hashes mean the same nodes with the same attributes below |
| TreeTheory.ContentDeterminesHash | aim/common/hashtree/structured_tree.py:446-455 | the same real keys and attributes below a key mean equal hashes there |
| TreeTheory.RootHashIsContent | aim/common/hashtree/structured_tree.py:446-455 | the hash of a root node is equal exactly when the maps of real keys to attributes are |
| TreeRuns.Run | aim/common/hashtree/structured_tree.py:254-363 | any sequence of add, pop and clear leaves the map that the sequence means |
| TreeRuns.SameRootIffSameContent | aim/common/hashtree/structured_tree.py:478-484 | history independence: two trees agree on their root node, by having none or by its hash, exactly when their maps agree |
| TreeRuns.RootFullHashIsContent | aim/common/hashtree/structured_tree.py:226-232 | the hash of the whole tree is equal exactly when the maps are, and two empty trees are known by the same root key |
| TreeRuns.NewAndEmptied | aim/common/hashtree/structured_tree.py:226-232 | two trees that hold nothing and have different hashes: a new one, and one whose root has come and gone |
| TreeRuns.RejectedBatch | aim/common/hashtree/structured_tree.py:303-325 | a batch with two roots on a new tree: it is rejected and leaves nothing, but the hash, which was none, is that of the root key asked for first |
| TreeRuns.ApplyDifference | aim/common/hashtree/structured_tree.py:392-434 | clearing what is to be removed and adding what is to be added makes the other tree equal and the difference empty, for different roots and empty trees too |
| TreeRuns.DifferenceOfContents | aim/common/hashtree/structured_tree.py:409-434 | without errors the naive difference is the difference of the maps |
| TreeRuns.NoDifference | aim/common/hashtree/structured_tree.py:392-434 | trees with the same map have an empty difference, whatever is in error |
| TreeDiff.PruningLosesNothing | aim/common/hashtree/structured_tree.py:427-430 | where the full hashes are equal, nothing below belongs to the difference |
| TreeDiff.PartialHashDecides | aim/common/hashtree/structured_tree.py:417-426 | partial hashes differ exactly when the node is a dummy in one tree only or has other attributes |
| TreeDiff.DifferenceAtNode | aim/common/hashtree/structured_tree.py:409-434 | the difference below a common node is that at the node and that below its children |
| TreeJson.ToString | aim/common/hashtree/structured_tree.py:87-96 | the text of a tree is the JSON form of its nodes, children in order |
| TreeJson.TextOfNode | aim/common/hashtree/structured_tree.py:87-96 | the text of a node is an object of seven named entries, its key the list of its parts, with the texts of its children in order |
| TreeJson.JsonDetermines | aim/common/hashtree/structured_tree.py:87-96 | the same text means the same nodes, field by field |
| TreeJson.FromString | aim/common/hashtree/structured_tree.py:234-252 | reading a text gives back every field of every node and the order of children; an empty one gives an empty tree with the supplied root key |
| TreeJson.Reload | aim/common/hashtree/structured_tree.py:234-252 | writing and reading a tree keeps its nodes and its root hash |
| TreeMaker.CleanRelated | aim/tree_manager.py:294-298 | terminates although it edits the tree it walks; makes dummies of exactly the nodes reached through related ones, and drops those nothing needs |
| TreeMaker.PrepareAimResource | aim/tree_manager.py:300-310 | the related nodes of a resource are cleaned before its nodes are added; a resource without a name has none |
| TreeMaker.Update | aim/tree_manager.py:337-350 | all resources are cleaned for first, and then exactly the nodes of all of them are added |
| TreeMaker.Delete | aim/tree_manager.py:352-366 | the main node and everything related below it become dummies, one resource after the other |
| TreeMaker.Clear | aim/tree_manager.py:368-383 | exactly the nodes the resources convert to become dummies |
| TreeMaker.AddOneMore | aim/tree_manager.py:347-349 | the order in which the nodes of a batch are added does not matter |
| TreeMaker.CleanStep | aim/tree_manager.py:294-298 | cleaning child by child, with nodes disappearing in between, amounts to cleaning at once |
| BuildLaws.ReachedMeans | aim/tree_manager.py:294-298 | cleaning below a node reaches a key exactly when every node from just below down to it is there and its metadata says related by a value that is not empty, zero or false |
| BuildLaws.CleanedAt | aim/tree_manager.py:294-298 | what is reached becomes a dummy without attributes, a node stays exactly when a real one that is not reached is at or below it, and is otherwise as it was |
| BuildLaws.ClearedAllAt | aim/tree_manager.py:368-383 | key by key after clearing resources: what one of them converts to is a dummy, and only what a real node needs is left |
| BuildLaws.UpdatedNode | aim/tree_manager.py:312-350 | a converted key gets its node from the last resource that converts to it: real, with these attributes, in error and pending as the resource is, monitored unless it is owned, related unless it is the main node |
| BuildLaws.UpdatedKeeps | aim/tree_manager.py:312-350 | every other entry of the metadata stays as the cleaning left it |
| BuildLaws.UpdatedElsewhere | aim/tree_manager.py:337-350 | a key that no resource converts to keeps its node, or gets an empty placeholder exactly on the way to a converted one |
| TreeBuilder.Segregate | aim/tree_manager.py:447-505 | the changes of every root are those of its own objects in order; monitored resources count for both trees, faults for the operational one, a status stands for its resource with its sync state, and statuses without a resource are told; `BuildLaws.BatchMeans` and `BuildLaws.MovedMeans` say which resources these are |
| TreeBuilder.SegregateUpdated | aim/tree_manager.py:451-469 | the list that grows while it is read is read to its end, and grows by exactly what its own statuses stand for, which `BuildLaws.MovedMeans` writes out |
| TreeBuilder.Build | aim/tree_manager.py:432-541 | each of the three trees gets its updates, deletions and clearings, in this order, and objects of other roots are passed over; `BuildLaws.StatusNode` and `BuildLaws.PlainNode` say what this makes of the nodes |
| BuildLaws.BatchMeans | aim/tree_manager.py:447-505 | which resources a batch updates and deletes in each tree: those it lists and those its statuses move, in the configuration tree with a monitored one faked as one that was there before; faults, and resources of deleted statuses, in the operational tree |
| BuildLaws.MovedMeans | aim/tree_manager.py:453-469 | exactly the statuses whose resource is in the database, in their root and to be synchronised move it, in error and not pending for a failed one, pending for a pending one, not pending for a synchronised one |
| BuildLaws.OrphansMean | aim/tree_manager.py:480-491 | exactly the statuses whose resource the database does not hold in their root are told |
| BuildLaws.PutNext | aim/tree_manager.py:447-505 | the objects of a batch are taken in order, each to the end of its lists: a monitored resource to two of them, a fault or the resource of a deleted status to one of the operational tree, anything of another root to none |
| BuildLaws.StatusNode | aim/tree_manager.py:453-469 | after the batch of one status, each node that its resource has in the configuration tree is in error exactly for a failed status or when the resource was, and pending exactly as the status says: true, false for failed and synchronised, unchanged for any other |
| BuildLaws.StatusMonNode | aim/tree_manager.py:453-469 | the same for the monitored tree, which has the nodes of a monitored resource that the other has not |
| BuildLaws.PlainNode | aim/tree_manager.py:312-350 | after the batch of one resource, each node that it has in the configuration tree is in error, pending and monitored as the resource is |
| BuildLaws.FailedIsNotListed | aim/tree_manager.py:461-464 | no difference with any other tree lists a node of a resource whose status failed |
| BuildLaws.ShownMeans | aim/tree_manager.py:447-541 | trees that show resources: a node is real in the configuration tree exactly when its owner converts to it there and the monitored tree has no claim to it, and in the monitored tree exactly when a monitored owner converts to it and would not if it had been there before |
| TreeBuilder.BatchKeepsExclusive | aim/tree_manager.py:517-534 | no batch makes a key real in both the configuration and the monitored tree |
| TreeBuilder.OwnershipIsExclusive | aim/tree_manager.py:507-541 | after any batches no key is real in both trees, for any conversion |
| TreeReplay.Layout.RelatedIsOwned | aim/tree_manager.py:294-298 | cleaning below a resource's node reaches nodes of that resource only |
| TreeReplay.Layout.OwnedIsRelated | aim/tree_manager.py:300-310 | cleaning below a resource's node reaches every real node of the resource but that one |
| TreeReplay.Layout.CreationReflects | aim/tree_manager.py:337-350 | building a creation makes both trees show exactly the new version of the resource, and the others as before |
| TreeReplay.Layout.DeletionReflects | aim/tree_manager.py:352-366 | building a deletion makes both trees show the other resources only |
| TreeReplay.Layout.BatchReflects | aim/tree_manager.py:447-541 | building any one object, status or fault included, makes the configuration and monitored trees show what it says |
| TreeReplay.Layout.ShownIsExclusive | aim/tree_manager.py:517-534 | trees that show resources have no real key in common |
| TreeReplay.Layout.ShownIsContent | aim/db/hashtree_db_listener.py:364-381 | trees have the same contents exactly when the resources they show give the same nodes |
| ActionLog.ChangeKeepsStep | aim/db/hashtree_db_listener.py:47-78 | logging a change keeps the log sufficient to bring the trees up to date, or a reset on its way |
| ActionLog.QueuesAre | aim/db/hashtree_db_listener.py:246-294 | after a whole log, the list of a name ends with its last entry that counts, taken from the database, and everything before is void |
| ActionLog.ProcessedSays | aim/db/hashtree_db_listener.py:213-294 | the last word about a resource is the same in whatever order the lists of rules are emptied |
| ActionLog.RightExactly | aim/db/hashtree_db_listener.py:213-294 | replaying makes a resource what the database wants, except exactly that a rule voided by another of its name stays as it was, and a blocked rule with a status is shown |
| ActionLog.ReplayIsWantedExactly | aim/db/hashtree_db_listener.py:213-294 | a log without reset that tells the database replays to the wanted resources exactly when every voided rule that nothing else speaks of is shown right already and no blocked rule is shown for its status |
| ActionLog.ReplayIsLast | aim/db/hashtree_db_listener.py:340-351 | what becomes of a resource is what the last word about it says |
| ActionLog.SharedNameIsMissed | aim/db/hashtree_db_listener.py:276-285 | of two new rules of one name, the first is not made what the database wants |
| ActionLog.UniqueNamesMissNothing | aim/db/hashtree_db_listener.py:276-285 | when a log names every rule uniquely and no blocked rule has a status in it, nothing is missed |
| LogLaws.WaitsExactly | aim/db/hashtree_db_listener.py:246-285 | a rule waits to be replayed exactly when it has an entry that agrees with the database and behind which there is none for a rule with the same last identity attribute |
| LogLaws.DifferentNamesAreHeard | aim/db/hashtree_db_listener.py:246-285 | rules whose last identity attributes differ do not void one another: each with an entry that agrees with the database waits, and what is said of it is what the database holds, unless it is blocked |
| LogLaws.OthersAreHeard | aim/db/hashtree_db_listener.py:213-294 | of a resource of another kind the last entry about it decides, or a later status that finds it in the database; its entries are never void |
| LogRuns.ReplayIsReplayed | aim/db/hashtree_db_listener.py:213-294 | what the trees show after a replay is a function of the log, the database and what they showed |
| LogRuns.RunKeepsOrder | aim/db/hashtree_db_listener.py:47-211 | over any run the log is bounded and sufficient, or a reset is on its way, and what is lost is known |
| LogRuns.CatchUpLosesExactly | aim/db/hashtree_db_listener.py:183-294 | a catch-up that replays the log leaves exactly those resources wrong that the log misses, lost ones of before included |
| LogRuns.DrainedIsWanted | aim/db/hashtree_db_listener.py:307-362 | with the log drained the trees show exactly the resources of the database if and only if nothing is lost |
| LogRuns.UniqueNamesLoseNothing | aim/db/hashtree_db_listener.py:183-294 | a run loses nothing when no log that it replays names two rules alike; one name may be used at two times |
| LogRuns.SharedNameIsLost | aim/db/hashtree_db_listener.py:276-285 | committing two new rules of one name and catching up leaves the first in the database and out of the trees |
| LogRuns.StatusShowsBlocked | aim/tree_manager.py:453-469 | a blocked rule that the trees rightly lack is shown once its status is logged |
| LedgerLaws.ChangeOne | aim/db/hashtree_db_listener.py:55-78 | one change writes the database and adds one entry: a creation, a deletion for what goes or is not to be synchronised, a reset in place of either once there are ten thousand; behind a reset nothing is added |
| LedgerLaws.ChangesAreLogged | aim/db/hashtree_db_listener.py:55-78 | the changes of a commit are logged one by one in order, as long as the log does not fill up |
| LedgerLaws.CaughtUpMeans | aim/db/hashtree_db_listener.py:183-211 | field by field what a catch-up does to an empty log, a log with a reset, one of a root that is to be rebuilt, and any other |
| LedgerLaws.LostMeans | aim/db/hashtree_db_listener.py:183-211 | with the log drained, a resource is lost exactly when it is not shown as the database holds it although it is to be synchronised and not blocked, or is shown although it is not |
| LedgerLaws.DifferentNamesAreShown | aim/db/hashtree_db_listener.py:276-285 | caught up with, a log in which no two rules share their last identity attribute loses nothing: exactly the resources to be synchronised and not blocked are shown, each as the database holds it |
| LedgerLaws.TwoNamesAreShown | aim/db/hashtree_db_listener.py:276-285 | two new rules of one tenant with different last identity attributes, committed and caught up with, are both shown |
| FaultRuns.FaultReflects | aim/tree_manager.py:447-530 | building any one object makes the operational tree show what it says of a fault; the deletion of a resource or of a status takes no fault with it |
| FaultRuns.ProcessedFaults | aim/db/hashtree_db_listener.py:213-294 | sorting the log changes nothing about faults, in whatever order the lists of rules are emptied |
| FaultRuns.RebuildFinds | aim/db/hashtree_db_listener.py:95-143 | a rebuild finds exactly the faults of the resources that belong in the trees, in whatever order it lists the resources |
| FaultRuns.FaultRunKeepsOrder | aim/db/hashtree_db_listener.py:47-211 | over any run the log tells of every fault that is not shown as the database holds it, or a reset is on its way |
| FaultRuns.ReplayedFaultsAreAll | aim/db/hashtree_db_listener.py:183-362 | a run that replays all its logs ends with every fault of the database shown, and no other |
| FaultRuns.RebuildKeepsFaults | aim/db/hashtree_db_listener.py:121-138 | with the log drained, a rebuild shows the same faults exactly when those omitted before are the ones of resources that do not belong in the trees |
| FaultRuns.FaultOfUnwanted | aim/db/hashtree_db_listener.py:121-138 | a fault of a resource that is not to be synchronised is shown by the replay, and a rebuild does not find it |
| FaultLaws.FaultsShownMeans | aim/tree_manager.py:508-530 | the real nodes of the operational tree are those that the shown faults convert to, with their attributes |
| FaultLaws.FaultChangeOne | aim/db/hashtree_db_listener.py:55-78 | one change of the root takes a fault into the database or out of it, and shows nothing yet |
| FaultLaws.FaultsCaughtUpMeans | aim/db/hashtree_db_listener.py:183-211 | which faults are shown and omitted after a rebuild, and after a replay |
| FaultLaws.ListedMeans | aim/db/hashtree_db_listener.py:121-143 | a rebuild lists of a resource its status, then its faults and then itself, and nothing of one that is blocked or not to be synchronised |
| RootsLog.PreprocessLogs | aim/db/hashtree_db_listener.py:213-294 | deals the entries of several roots out to lists: plain entries to their root in order, and then the list of each name, once, to the root of its last entry; and finds the roots with a reset; `RootsLog.TogetherHears` says what this means for rules of different names |
| RootsLog.CleanupResettingRoots | aim/db/hashtree_db_listener.py:296-301 | the lists of exactly the resetting roots are emptied; it is an error if one of them has no list |
| RootsLog.TogetherSays | aim/db/hashtree_db_listener.py:213-294 | what a root hears last of its own resources is the last word of the whole log, in whatever order the lists are dealt out, and it hears nothing of resources of other roots |
| RootsLog.TogetherHears | aim/db/hashtree_db_listener.py:246-294 | when no two rules of the log share their last identity attribute, each root has to replay of its own rules what the database holds, unless they are blocked |
| RootsLog.SaidTogether | aim/db/hashtree_db_listener.py:276-294 | catching up with several roots says of a resource what catching up with its root alone says, unless the rule is overtaken; then only its statuses speak for it |
| RootsLog.OvertakenByLaterRoot | aim/db/hashtree_db_listener.py:189-201 | as logs are read root by root, a rule is overtaken exactly when its own root would replay it and a later root has a rule of its name that counts |
| RootsLog.TogetherExactly | aim/db/hashtree_db_listener.py:213-294 | says of one resource exactly when a catch-up over several roots gets it right |
| RootsLog.CatchUpAmongKeepsOrder | aim/db/hashtree_db_listener.py:183-301 | a catch-up over several roots drains each log and keeps each ledger in order, so that every result about runs of one root applies to what follows |
| RootsLog.TogetherIsAlone | aim/db/hashtree_db_listener.py:183-294 | without overtaken rules every root ends up as if it had caught up alone |
| RootsLog.ListedExactly | aim/db/hashtree_db_listener.py:276-294 | a root gets a list exactly when some entry joins one of it: an entry that counts joins the root of the last of its name, any other its own |
| RootsLog.ListsToPush | aim/db/hashtree_db_listener.py:202-205 | sorting and cleaning up fail exactly when a resetting root has no list; otherwise a resetting root has nothing to replay, and each other one hears exactly the last words about its own resources |
| RootsLog.SharedNameAcrossRoots | aim/db/hashtree_db_listener.py:276-294 | two new rules of one name in two roots: the first is replayed when its root catches up alone, and not heard of when both catch up together |
| RootsLog.ResetWithoutList | aim/db/hashtree_db_listener.py:276-301 | a reset that came with a rule, and a rule of its name in another root: the resetting root has no list |
| DbListener.TreeRow.Get | aim/tree_manager.py:160-167 | the stored text gives back the stored tree, with the root key of its root |
| DbListener.HashTreeDbListener.OnCommit | aim/db/hashtree_db_listener.py:47-78 | a commit changes the database and the log object by object: first what it adds, then what it updates, then what it deletes; the log stays bounded and sufficient |
| DbListener.HashTreeDbListener.PreprocessLogs | aim/db/hashtree_db_listener.py:213-294 | for a root on its own: finds out whether a reset is on its way, and gives the entries of the sorted log, the plain ones, then the lists of all names, each once; without a reset, and when no two rules share their last identity attribute, the last of them about a rule says what the database holds |
| DbListener.HashTreeDbListener.PushChanges | aim/db/hashtree_db_listener.py:307-362 | the entries are replayed onto the three stored trees and the log is deleted, or the trees are rebuilt and the log stays |
| DbListener.HashTreeDbListener.RecreateTrees | aim/db/hashtree_db_listener.py:95-143 | whatever states and faults the database holds, the rebuilt configuration and monitored trees show exactly the resources to be synchronised, without blocked rules |
| DbListener.HashTreeDbListener.ResetRoot | aim/db/hashtree_db_listener.py:164-169 | emptying and rebuilding ends with the resources of the database and no reset asked for |
| DbListener.HashTreeDbListener.CatchUpWithActionLog | aim/db/hashtree_db_listener.py:183-211 | replays and drains the log, or gives way to a rebuild, as the ledger says; the log is drained unless a reset was asked for from outside; when no two rules of the log share their last identity attribute nothing is lost, and exactly the resources to be synchronised and not blocked are shown |
| DbListener.HashTreeDbListener.StoredAreExclusive | aim/tree_manager.py:517-534 | the stored configuration and monitored trees share no real key |
| DbListener.HashTreeDbListener.ValidateConfigTree | aim/db/hashtree_db_listener.py:364-381 | a rebuild leaves the root hash of the configuration tree as it was exactly when the resources shown before give the same nodes as those of the database; likewise for the monitored tree |
| DbListener.HashTreeDbListener.Run | aim/db/hashtree_db_listener.py:183-211 | incremental equals rebuilt, over any run of commits, catch-ups and requests for a reset, overflow, rule compaction, statuses and faults included: the hashes of the configuration tree and of the monitored one are each the same exactly when what the run shows gives the nodes of the database in that tree, which it does when nothing is lost in the end |
| DbListener.HashTreeDbListener.RunWithFaults | aim/db/hashtree_db_listener.py:183-211 | over any run the operational tree shows the faults that the ledger says, and with the log drained these are the faults of the database without those omitted by a rebuild |
| DbListener.HashTreeDbListener.CompareFaultsWithRebuilt | aim/db/hashtree_db_listener.py:95-143 | a rebuild leaves the hash of the operational tree as it was exactly when the faults shown give the same nodes as those of the resources that belong in the trees |
| DbListener.SharedNameLosesRule | aim/db/hashtree_db_listener.py:276-285 | two rules of one name, committed and caught up with: the hash of the configuration tree is not that of a rebuild |
| SampleLayout.SampleIsRegular | aim/tree_manager.py:300-335 | there is a conversion that meets all that the replay takes for granted, whatever the owners of the resources are |
| SampleLayout.TwoRulesOfOneName | aim/db/hashtree_db_listener.py:276-285 | two rules of one name in two groups, committed and caught up with by a listener with that conversion: the hash is not that of a rebuild |
| SampleLayout.TwoRulesOfTwoNames | aim/db/hashtree_db_listener.py:276-285 | two rules of one group with different names, committed and caught up with: both are shown, and both hashes are those of a rebuild |
| SampleLayout.FaultOfUnsynced | aim/db/hashtree_db_listener.py:121-143 | a tenant that is not to be synchronised and its fault, committed and caught up with: the operational tree is not that of a rebuild |
| SyncStatus.Schema.SearchFindsDescendants | aim/aim_manager.py:541-553 | descendant classes with the same leading identity attributes are exactly the descendants by parent |
| SyncStatus.Schema.UnderIsByParent | aim/aim_manager.py:541-553 | a resource is below another exactly when that is its parent or above its parent |
| SyncStatus.AimManager.constructor | aim/aim_manager.py:141-152 | the tree of classes lists every class under its parent and nothing else |
| SyncStatus.AimManager.GetSubtree | aim/aim_manager.py:538-553 | finds exactly the stored descendants of a resource |
| SyncStatus.AimManager.GetStatus | aim/aim_manager.py:357-389 | gives the status of a resource, which it creates when there is none |
| SyncStatus.AimManager.SetResourceSync | aim/aim_manager.py:411-423 | changes exactly one status, unless it is excluded or there is nothing to change |
| SyncStatus.AimManager.SetResourceSyncPending | aim/aim_manager.py:437-463 | terminates, and its effect on the whole table is one climb over failed ancestors and one sweep |
| SyncStatus.PendingReaches | aim/aim_manager.py:437-463 | a resource becomes pending exactly when it is the one asked for, or failed and inside the subtree of the last of the unbroken chain of failed ancestors; which rows are created is exact too |
| SyncStatus.PendingStops | aim/aim_manager.py:437-450 | a call that does not go on creates the row of the resource, if it can have one, and changes nothing |
| SyncStatus.ErrorReaches | aim/aim_manager.py:465-477 | row by row, an error reaches the resource unless it had failed, and everything below it that had not; what had failed keeps its message |
| SyncStatus.World.TopIsInside | aim/aim_manager.py:451-459 | the chain of failed ancestors is unbroken and maximal |
| SyncStatus.AimManager.SetResourceSyncError | aim/aim_manager.py:465-477 | the resource and its whole subtree fail, except what had failed already, which keeps its message |
| SyncStatus.AimManager.RecoverRootErrors | aim/aim_manager.py:428-435 | exactly the failed rows of the root are pending again, without a message; every other row stays, and none is created |
| SyncStatus.AimManager.SetResourceSyncSynced | aim/aim_manager.py:425-426 | only the row of the resource itself changes: it is synced, without a message |
| SyncStatus.StepKeepsSafe | aim/aim_manager.py:411-477 | no operation puts a pending resource directly under a failed parent |
| SyncStatus.RunsAreSafe | aim/aim_manager.py:411-477 | over any run, creation and deletion of resources included, no pending resource sits directly under a failed parent |
| SyncStatus.RunOps | aim/aim_manager.py:158-477 | any operations on a manager, performed one after the other, leave the table that the run means, with no pending resource directly under a failed parent |
| SyncStatus.RetryUndoesError | aim/aim_manager.py:437-477 | an error reaches the whole subtree, and a retry of the same resource reaches all of it again |
| HashRing.ConsistentHashRing.constructor | aim/common/hashring.py:58-79 | the ring of the given nodes, sorted, with all their points |
| HashRing.ConsistentHashRing.AddNodes | aim/common/hashring.py:103-118 | the ring stays sorted and holds every node's points exactly as often as its weight says, reweighting included; the owners at every hash are those of the nodes that left and came, in that order |
| HashRing.ConsistentHashRing.AddNode | aim/common/hashring.py:94-101 | the same for one node |
| HashRing.ConsistentHashRing.RemoveNodes | aim/common/hashring.py:128-142 | the points of the removed nodes leave the ring, unknown nodes are passed over, and at every hash the first owners go, whoever they are |
| HashRing.ConsistentHashRing.RemoveNode | aim/common/hashring.py:120-126 | the same for one node |
| RingLaws.JoinedMeans | aim/common/hashring.py:81-118 | the stars a new node brings are the hashes of its name followed by the decimal numbers below its count, and no star goes |
| RingLaws.DecimalMeans | aim/common/hashring.py:88-89 | the number is written in decimal digits, the last one first to be split off |
| RingLaws.GrowsByWeight | aim/common/hashring.py:84-89 | a new node adds as many stars as the number of virtual nodes times its weight, or the default weight when it has none |
| HashRing.ConsistentHashRing.AssignKey | aim/common/hashring.py:144-161 | the result is the first nodes met on the walk from the key, or an index error on an empty ring |
| HashRing.ExactIsUnique | aim/common/hashring.py:103-142 | with distinct hashes the ring depends only on the nodes and their weights, not on how it came about |
| HashRing.DistinctIffNotNested | aim/common/hashring.py:88-92 | for a hash that tells strings apart, stars are distinct exactly when no name is another name and a number whose tenfold is below the number of stars of that other node |
| HashRing.ApartIsReproducible | aim/common/hashring.py:103-118 | when no hash is shared by two nodes, the ring is the same in whatever order they came |
| HashRing.SharedIsFirstCome | aim/common/hashring.py:103-118 | when two nodes share a hash, rings in which one or the other came first are different |
| HashRing.TwoOrders | aim/common/hashring.py:94-118 | whatever the hash is, nodes "a" and "a1" added in the two orders give rings of the same nodes that differ |
| HashRing.RemovalUndoesAddition | aim/common/hashring.py:103-142 | adding a node and removing it gives the ring back exactly when none of its stars falls on one that was there |
| HashRing.StrayStar | aim/common/hashring.py:128-142 | whatever the hash is, a removal by hash can take the star of another node and leave that of the removed one |
| HashRing.ReplicaCount | aim/common/hashring.py:144-161 | a key is served by distinct nodes, as many as asked for or as own a point |
| RingLaws.ServedAnticlockwise | aim/common/hashring.py:144-161 | the nodes that serve a key come in the order in which the walk, one star back at a time from the first star after the key, first meets them |
| HashRing.MinimalDisruption | aim/common/hashring.py:103-161 | with distinct hashes, a new node takes replicas over but moves none among the others, for any number of replicas, and its removal gives them back |
| TenantAssignment.TenantAssignation | aim/agent/aid/service.py:291-312 | an agent serves exactly the roots whose first candidate it is, or none when it is down; when stars collide, on the ring of the agents in some order |
| RingLaws.ServedMeans | aim/common/hashring.py:144-161 | a root is served by the owner of the first star whose hash is greater than its own, or of the first star of all when there is none |
| TenantAssignment.AgentsAreDistinct | aim/agent/aid/service.py:304-306 | agents have distinct stars exactly when no name is that of another agent and a number whose tenfold is below the number of virtual nodes |
| TenantAssignment.ServedOnce | aim/agent/aid/service.py:291-312 | every root has exactly one agent that serves it |
| TenantAssignment.AllAssignations | aim/agent/aid/service.py:291-312 | agents that see the same agents, roots and virtual nodes divide the roots among themselves |
| TenantViews.ServedByFirst | aim/common/hashring.py:144-161 | on the ring of agents that came in some order, a root is served by the first of them, in that order, with a star at the next hash after the root |
| TenantViews.EachView | aim/agent/aid/service.py:291-312 | when every agent works out its share from its own order of the others, a root is served by exactly the agents that come first, in their own order, among those with a star at the next hash |
| TenantViews.OneServerIffUnshared | aim/agent/aid/service.py:291-312 | a root has exactly one server whatever the orders are, if and only if the star that serves it is of one agent alone |
| TenantViews.SharedStar | aim/agent/aid/service.py:291-312 | where two agents share the star that serves a root, there are orders in which both serve it and orders in which nobody does |
| TenantViews.NamesakesShare | aim/common/hashring.py:88-89 | an agent and one whose name is that of the former and a low number share a star, whatever the digest is |
| TenantViews.NoNamesakesNoSharing | aim/common/hashring.py:88-92 | with a digest that tells strings apart and no such names, no star is shared |
| DivergenceTracker.BackoffIsBounded | aim/common/utils.py:131-136 | a wait is never longer than the longest one, nor than the power of two of its retry count |
| DivergenceTracker.BackoffDoubles | aim/common/utils.py:131-136 | with a draw above zero the first wait is half the draw, one more retry doubles the wait until it reaches the longest one, and the longest one it is from the retry on whose power of two is too large |
| DivergenceTracker.BackoffIs | aim/common/utils.py:131-136 | in closed form, a wait is the draw times two to the retry count, or the longest wait where that is less |
| DivergenceTracker.Tracker.constructor | aim/agent/aid/universes/base_universe.py:280-293 | the limits come from the configured retries, the longest wait is ten minutes |
| DivergenceTracker.Tracker.TrackUniverseActions | aim/agent/aid/universes/base_universe.py:607-673 | every operation is looked at once, what is not asked for is forgotten, and a resource of another root is an error that leaves the record as it was; exactly the operations asked for again before their time are skipped, and exactly those attempted past their limit after a reset are reported as failed |
| DivergenceTracker.TrackRun | aim/agent/aid/universes/base_universe.py:607-673 | over any run of iterations of a root, what is recorded is what the good ones say, and every iteration reports exactly its resets, failures and skips, or the argument error |
| DivergenceTracker.ReportsFollowLaw | aim/agent/aid/universes/base_universe.py:650-672 | with a retry configured, a reset is reported exactly when some operation is attempted for the (2m+2)-th time in a row, and a failure of exactly those whose streak is due |
| DivergenceTracker.RecordedIsStreak | aim/agent/aid/universes/base_universe.py:631-673 | what is recorded depends only on how many attempts in a row were not skipped |
| DivergenceTracker.RetryLawNeedsRetry | aim/agent/aid/universes/base_universe.py:285-289 | a reset on attempt 2m+2 only, failures on attempt 4m+2 and every fifth after it: exactly when at least one retry is configured |
| DivergenceTracker.ResetsOnce | aim/agent/aid/universes/base_universe.py:650-672 | an operation that is asked for without a gap asks for one reset only |
| DivergenceTracker.WaitIsBounded | aim/agent/aid/universes/base_universe.py:640-649 | after any run nothing waits longer than the longest wait from then |
| DivergenceTracker.AttemptSetsWait | aim/agent/aid/universes/base_universe.py:647-649 | the k-th attempt in a row makes an operation wait for the draw times two to the k minus two, or the longest wait |
| DivergenceTracker.SkippedUntil | aim/agent/aid/universes/base_universe.py:640-646 | an operation that is asked for again is skipped exactly before the time recorded for it, and that time stays |
| DivergenceTracker.TriedAgain | aim/agent/aid/universes/base_universe.py:631-673 | over a run without a gap, an operation that was attempted for the k-th time is skipped exactly until its wait has passed |
| DeletionVote.Universe.VoteEmpty | aim/agent/aid/universes/aim_universe.py:138-146 | exactly the tenants that are wanted empty and are not vetoed become candidates |
| DeletionVote.Universe.VetoOwned | aim/agent/aid/universes/aim_universe.py:393-400 | exactly the tenants with a one-part key of their own that is no dummy are vetoed, and are candidates no more |
| DeletionVote.Universe.MaskTenantState | aim/agent/aid/universes/base_universe.py:325-329 | exactly the known candidates are desired to be empty |
| DeletionVote.Universe.ReconcileTenant | aim/agent/aid/universes/base_universe.py:357-448 | counts quiet cycles of a candidate and puts it off until there were enough, unless handling it stops early; something is created or deleted only where the desired tree differs from this one |
| DeletionVote.Universe.ReconcileTrees | aim/agent/aid/universes/base_universe.py:349-449 | every tenant both universes know is handled once, whatever the order |
| DeletionVote.Universe.FinalizeConfig | aim/agent/aid/universes/aim_universe.py:148-157 | keeps the candidates that the other universe shows emptied |
| DeletionVote.Universe.FinalizeOwn | aim/agent/aid/universes/aim_universe.py:402-412 | keeps the candidates of which nothing is left here |
| DeletionVote.Agent.ReconciliationCycle | aim/agent/aid/service.py:180-216 | what one cycle drops and how it leaves the counters: the three pairs in turn, each with the candidates that the one before left, and with the counters of what is dropped deleted |
| DeletionVote.VotedExactly | aim/agent/aid/universes/aim_universe.py:138-146 | a tenant is voted for exactly when the desired tree has no node and every one-part key of its monitored tree is a dummy |
| DeletionVote.PassExactly | aim/agent/aid/universes/base_universe.py:357-448 | what a pair makes of one tenant, in terms of the two trees, the counter and how the handling ends: whether it is counted, starts again or is left alone, and whether it stays a candidate |
| DeletionVote.OwnedIsLeftAlone | aim/agent/aid/universes/aim_universe.py:393-400 | a tenant whose monitored tree has a one-part key that is no dummy is not voted for, no pair inspects it, it is not dropped, and its counters stay as they were |
| DeletionVote.DroppedIsEmpty | aim/agent/aid/service.py:187-215 | the candidates only shrink, and a dropped tenant is empty in every tree that counts |
| DeletionVote.VetoedIsKept | aim/agent/aid/universes/aim_universe.py:393-400 | a vetoed tenant is not dropped, whatever the others say |
| DeletionVote.CounterIsTrailing | aim/agent/aid/universes/base_universe.py:379-390 | a counter is the number of quiet looks in a row since the tenant was last dropped |
| DeletionVote.DroppedWasQuiet | aim/agent/aid/universes/base_universe.py:438-443 | a pair that got through with a dropped tenant found nothing to do in its last four looks |
| DeletionVote.TenQuietCycles | aim/agent/aid/service.py:187-215 | a tenant of which nothing is left is dropped in the tenth quiet cycle and not before, as the pairs wait in turn |
| DeletionVote.ResetIsKept | aim/agent/aid/universes/base_universe.py:402-406 | a pair that resets a tenant sees trees that differ, so something is left of the tenant, and it is not dropped |
| DeletionVote.SameContentsNothingToDo | aim/agent/aid/universes/base_universe.py:362-376 | trees with the same contents give nothing to create, nothing to delete and no reset, whatever is in error |
| DeletionVote.DroppedExactly | aim/agent/aid/service.py:187-215 | a cycle drops a tenant exactly when nothing is left of it where it counts and every pair has waited for it, raises on it or does not know it |
| DeletionVote.DroppedMeans | aim/agent/aid/service.py:187-215 | the same written out: no node left in the four trees that count, and for each pair that knows the tenant an exception after the comparison or a counter of at least three |
| DeletionVote.DroppedExactlyInRun | aim/agent/aid/service.py:187-215 | in a run, a tenant is dropped exactly when nothing is left of it and every pair that knows it and does not raise found nothing of it in its last three looks before |
| DeletionVote.FaultsSkipTheWait | aim/agent/aid/universes/base_universe.py:394-448 | when every pair raises, a tenant is dropped at once exactly when nothing is left of it |
| DeletionVote.RunCycles | aim/agent/aid/service.py:180-216 | over any run of cycles of a fresh agent, what each cycle drops and the counters at the end are those of the run |
| ConfigSubscription.ConfigSubscriber.RegisterCallback | aim/config.py:457-485 | a subscription is made for one host only, and both maps agree afterwards |
| ConfigSubscription.ConfigSubscriber.RenewSubscription | aim/config.py:487-492 | only the version of an existing subscription changes |
| ConfigSubscription.ConfigSubscriber.UnregisterCallbackOption | aim/config.py:494-526 | exactly that subscription goes, unless another host is named, and no empty map is left |
| ConfigSubscription.ConfigSubscriber.UnregisterCallback | aim/config.py:528-535 | a callback is erased from both maps, and nothing else is |
| ConfigSubscription.EntriesDetermineIndex | aim/config.py:413-430 | both maps are determined by the subscriptions they hold |
| ConfigSubscription.ValidMeans | aim/config.py:413-430 | an entry is in the map from options exactly when it is in the map from callbacks, it has one host, and neither map has an empty one inside |
| ConfigSubscription.UnregisterUndoesRegister | aim/config.py:457-526 | taking a new subscription back gives the very same maps |

## Left out

- Several roots at once: stored trees and reset flags are modelled for one root, and objects of other roots are passed over; the database serves roots one at a time under its own lock. For a catch-up over several roots `RootsLog` says what each of them has to replay.
- RootsLog.CatchUpAmongKeepsOrder: speaks of roots of which no reset was asked for from outside; such a root is rebuilt and keeps the entries of its list, those of other roots included, which is not followed further.
- The tables of statuses: what a rebuild reads from them is an input, which the results on faults take to agree with the table of faults; the deletion of statuses without a resource, which `TreeBuilder.Build` returns, is not carried back to the database.
- Conversions that raise: a failing root is logged and retried in the program; here conversions are total.
- Changing the owner of a resource between AIM and ACI, which the replay theorem excludes by `modeOf`.
- Creation of the base tree row and its deletion with the last tenant (aim/tree_manager.py:49-78, 110-120): the replay starts from existing empty trees. The stored copy of the root hash is left out; a reset does not refresh it.
- Log entries hold the resource itself, not its JSON text, and have no uuid: a catch-up reads and deletes all entries of a root in one transaction, which empties the log.
- A resource that a single commit both writes and deletes: the lists of a commit are applied in the order in which they are logged.
- Malformed JSON text, text that is no tree, and printing and parsing of characters: a JSON value stands for its text.
- Attributes named `key` or `_dummy`, which would clash with the arguments of the hash function.
- Metadata is a map; the program keeps it as a sorted list of pairs.
- Rings asked for less than one replica: `AssignKey` follows the code, but the counting results ask for at least one.
- The reading of agents, versions and down times that comes before the assignment of tenants.
- Deleting a resource in `SyncStatus` deletes its status; the refusal to delete a monitored one that is pending, and cascades, are left out.
- The resource given to the status functions is taken as one of the known classes; another class is an error in the program. The shortcut through an injected database id is left out.
- The pushing of resources and the updating of status objects inside a reconciliation: they can end the handling of a tenant, and otherwise do not touch the vote. Tenants that are served but have no tree in the snapshot yet, and the record of retries that is dropped for candidates, are left out of the vote.
- Threads, polling, sessions, event queues, heartbeats and the delivery of configuration changes to callbacks.
