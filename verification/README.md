# Verified model of the RBAC menu tree, its policy and caches, and the DeFi sync

This project models the parts of the backend whose correctness depends on state kept in two places at
once, and proves that the two places agree.

* **Menu tree.** Every menu stores a parent id and a redundant path, `id1.id2.` from the root to the parent.
  Subtrees are found by string prefix, ancestors by splitting the path, moves rewrite prefixes. `MenuTree`
  says what the path has to be; `MenuOps`, `MenuImport` and `MenuRuns` say exactly which operations keep it so;
  `ImportIdempotence` says when a file can be imported again without effect; `Ancestors`, `MenuQueries` and
  `MenuForest` prove the readers of the path right; `MenuContents` says field by field what rows and resources
  the operations write; `MenuDal` and `MenuBiz` are the tables and the service in place, each method proved to
  end in the state its specification gives.
* **Policy.** `Policy` defines what a role may reach by parent links alone; `PolicyImport` says what a file
  import does to it, `QuietImport` when it leaves it alone, read off file and tables before the call, and
  `PolicyEffects` which rules operations on roles and menus give and take. `PolicyLoad` is the producer, queue
  and workers that compile it; `PolicyRefresh` is the stamp polling that keeps it up to date, with changes of the
  tables between any two queries of a load; `PolicyOperations` runs the operations on menus, roles and users
  against it.
* **User cache.** `Access`, `AccessContents` and `AccessService`: users, roles, login and the cached role ids.
  `MemCache`: the flat store under `namespace:key` that is read as a store with two levels.
* **DeFi sync.** `Dates` (days and their rendering), `DefiDataset` (one snapshot per market and day),
  `DefiRepository` (the tables as a fold over committed datasets), `DefiSync` (runs under the try-lock).
* **Log hook.** `LogHook`: bounded queue, workers, one flush.

Objects that the code updates in place are classes; the concurrent parts are state machines whose steps may
interleave in any order, and their theorems range over every step sequence. Ids are strings without a dot;
a generator of ids is any function that returns one that occurs nowhere in the tables it is given.
`dafny verify dfyconfig.toml` verifies the whole project.

## What the code does not do

Some properties hold only under a condition that the code does not check. Each is stated as an equivalence, or
by a run that breaks it:

* A move of a menu into its own subtree is accepted and leaves wrong paths behind
  (`MenuOps.UpdateKeepsPathInv`, `MenuOps.MoveBelowItselfIsAccepted`).
* A file may give a root item a path of its own, which is then stored (`MenuImport.ImportKeepsPathInv`,
  `ImportIdempotence.RootPathIsAccepted`); what a caller can check on a file is `MenuImport.SafeFileIsSafe` and
  `ImportIdempotence.RepeatableKeepsPathInv`.
* An item with sequence 0 gets one on creation but is compared with 0 afterwards, so importing the file again
  changes it (`ImportIdempotence.ImportIsIdempotent`, `ImportIdempotence.SequenceZeroIsChangedTwice`).
* The import writes no stamp although it can change the policy (`PolicyImport.ImportChangesPolicyUnstamped`). At
  start-up it comes after the first load: if the cache holds no stamp then, no tick reacts to it, and the policy
  stays stale until one is written (`PolicyOperations.StartUpImport`, `PolicyOperations.ImportCanStayUnnoticed`).
  `QuietImport.QuietFileExactly` says for which files this cannot happen.
* Stamps are whole seconds. A change in a second whose stamp a load has begun to read can go unnoticed until the
  next change in a later second, which makes up for it (`PolicyOperations.SameSecondStaysUnnoticed`,
  `PolicyOperations.SomeRunEndsStale`, `PolicyRefresh.LaterStampHeals`). Two changes in one second before a load
  begins to read do no harm (`PolicyRefresh.CaughtUpMeansFresh`).
* With no worker, neither a policy nor a log entry gets through (`PolicyLoad.EveryInterleaving`,
  `LogHook.FlushExecutesEverything`).
* A failed status write leaves a run in status running for good, even if its data was committed
  (`DefiSync.RunsLeaveRunningOnce`, `DefiSync.Service.Sync`).
* The fill of the current day does not look at what it has just added
  (`DefiDataset.FillKeepsOnePerDay`).

## Model

| member | source | states |
|---|---|---|
| Paths.SplitJoin | internal/mods/rbac/schema/menu.go:107-111 | Splitting a stored path gives its ids and one empty piece at the end. |
| Paths.SplitUndoesJoin | internal/mods/rbac/schema/menu.go:107-116 | The non-empty pieces of the path built from some ids are these ids. |
| Paths.PrefixIsSequencePrefix | internal/mods/rbac/dal/menu.dal.go:43-45 | On dot-terminated paths string prefix is the same as prefix of the id sequences, both ways. |
| MenuTree.Chain | internal/mods/rbac/biz/menu.biz.go:323-331 | Under the path invariant the ancestors of a menu, root first, are stored rows with valid ids, and joined they give the stored path. |
| MenuTree.ChainIsAncestors | internal/mods/rbac/biz/menu.biz.go:323-331 | The chain lists exactly the proper ancestors found by following parent links. |
| MenuTree.ChainDistinct | internal/mods/rbac/biz/menu.biz.go:323-331 | No id occurs twice in a chain and no menu is its own ancestor. |
| MenuTree.InvariantMeaning | internal/mods/rbac/biz/menu.biz.go:313-363 | The row-by-row invariant gives acyclicity, existing parents, and paths that spell the ancestor chains. |
| MenuTree.PrefixSelectsDescendants | internal/mods/rbac/dal/menu.dal.go:43-45 | The prefix test with `parentPath + id + "."` selects exactly the proper descendants. |
| MenuOps.AddNewResourcesEffect | internal/mods/rbac/biz/menu.biz.go:348-355 | Create adds one new resource row per form entry, all attached to the new menu, and touches no other. |
| MenuOps.AddFormResourcesEffect | internal/mods/rbac/biz/menu.biz.go:443-455 | If no key is taken, Update adds one row per form entry, attached to the menu, and touches no other; what the rows carry is `MenuContents.FormResourcesCarryForm`. |
| MenuOps.CreateKeepsPathInv | internal/mods/rbac/biz/menu.biz.go:313-363 | Create keeps the path invariant, adds exactly one menu and its resources, and changes no other row, grant, role or stamp. |
| MenuOps.InsertedChain | internal/mods/rbac/biz/menu.biz.go:323-331 | A created menu hangs under the parent it names, and all other chains stay. |
| MenuOps.UpdateRelocates | internal/mods/rbac/biz/menu.biz.go:419-438 | Row by row: outside the subtree nothing changes; inside it the old prefix is exchanged for the new one, and a changed status reaches every row even though the cascade runs on the old path. |
| MenuOps.UpdatedMenusKeepPathInv | internal/mods/rbac/biz/menu.biz.go:378-438 | The menu table after Update has the path invariant if and only if the menu was not moved into its own subtree. |
| MenuOps.UpdateKeepsPathInv | internal/mods/rbac/biz/menu.biz.go:366-459 | The same for the whole operation with its resources and stamp. |
| MenuOps.MoveBelowItselfBreaks | internal/mods/rbac/biz/menu.biz.go:381-392 | Any relocation of a menu under itself or a descendant breaks the path invariant. |
| MenuOps.MoveBelowItselfIsAccepted | internal/mods/rbac/biz/menu.biz.go:381-413 | For every menu and every place in its own subtree, the form that moves it there is accepted by Update, and the resulting table breaks the path invariant. |
| MenuOps.UpdateMovesSubtree | internal/mods/rbac/biz/menu.biz.go:378-438 | After a move every descendant keeps its chain below the moved menu and gets the new chain above it, with all its other fields; rows outside keep row and chain. |
| MenuOps.DeleteIsExact | internal/mods/rbac/biz/menu.biz.go:462-511 | Delete removes exactly the menu and its descendants; every other row and chain stays, and the invariant holds. |
| MenuOps.DeleteLeavesNoReference | internal/mods/rbac/biz/menu.biz.go:485-511 | Afterwards no menu, resource or grant refers to a removed menu, and every row that did not is still there unchanged. |
| MenuContents.NewResourcesCarryForm | internal/mods/rbac/biz/menu.biz.go:348-355 | The rows that Create adds carry verb and path of the form entries, all of them and nothing else, with the current creation time. |
| MenuContents.FormResourcesCarryForm | internal/mods/rbac/biz/menu.biz.go:443-455 | So do the rows that Update adds. |
| MenuContents.FormResourcesKeepIds | internal/mods/rbac/biz/menu.biz.go:443-455 | An entry of Update that has an id is stored under it, with its own creation time if it has one and the current update time. |
| MenuContents.CreatedMenuSays | internal/mods/rbac/biz/menu.biz.go:313-363 | Create is turned down exactly for a missing parent or a sibling with the code; otherwise one row has every field of the form, the path of its parent and the current times, and its resources are those of the form. |
| MenuContents.UpdateRefusalSays | internal/mods/rbac/biz/menu.biz.go:366-411 | Update is turned down exactly for a missing menu, a missing new parent, or a new code that a menu under the parent has. |
| MenuContents.UpdateKeysSay | internal/mods/rbac/biz/menu.biz.go:443-455 | Once it is not, a form without resource ids succeeds, and one that names a resource of another menu fails on its key. |
| MenuContents.UpdatedMenuSays | internal/mods/rbac/biz/menu.biz.go:366-459 | After Update the row has every field of the form and keeps its id and creation time; the menu has a resource for each form entry, with verb and path as the entry has them, and no other; resources of other menus, grants and roles stay, and the stamp is written. |
| MenuImport.ImportKeepsRows | internal/mods/rbac/biz/menu.biz.go:91-138 | An import removes, moves and recodes no row, at any depth. |
| MenuImport.ImportOnlyAdds | internal/mods/rbac/biz/menu.biz.go:61-174 | An import loses and overwrites no resource and changes neither grants, roles nor the stamp. |
| MenuContents.FindSays | internal/mods/rbac/biz/menu.biz.go:65-85 | An item with an id is looked for by it alone; one without by its code, and without a code by its name, and it is the first such row under the parent. |
| MenuContents.FoundRowSays | internal/mods/rbac/biz/menu.biz.go:91-122 | A row found takes name, description, path, type, sequence and status of the item and keeps id, code, properties, parent, path of ids and creation time; its update time moves exactly if one of the six changed. |
| MenuContents.CreatedRowSays | internal/mods/rbac/biz/menu.biz.go:123-138 | A row created has the fields of the item, status enabled where it has none, the number of items left where its sequence is 0, and hangs under the parent of its level. |
| MenuContents.FileResourceSays | internal/mods/rbac/biz/menu.biz.go:140-165 | A resource whose id, or whose verb and path at the menu, is known changes nothing; any other is stored at the menu with its verb and path. |
| MenuContents.ImportAddsListed | internal/mods/rbac/biz/menu.biz.go:61-174 | At any depth, an import adds no resource that the file does not list. |
| MenuImport.RowPathInv | internal/mods/rbac/biz/menu.biz.go:123-138 | One imported row keeps the path invariant if and only if it was found, or has a valid id and brings no path to the top level. |
| MenuImport.ImportKeepsPathInv | internal/mods/rbac/biz/menu.biz.go:61-174 | A whole recursive import keeps the path invariant if and only if every item it creates is safe. |
| MenuImport.SafeFileIsSafe | internal/mods/rbac/biz/menu.biz.go:123-138 | A file with valid ids and no path at the top level is safe in every table state. |
| MenuImport.UnsafeStays | internal/mods/rbac/biz/menu.biz.go:61-174 | What an unsafe import breaks no further import repairs. |
| ImportIdempotence.ResolveInjective | internal/mods/rbac/dal/menu.dal.go:86-101 | A row is found at one position of code lookups only. |
| ImportIdempotence.ImportRun | internal/mods/rbac/biz/menu.biz.go:61-174 | After one run every item of the file is in the table as the file says, and only rows in the branches of its codes changed. |
| ImportIdempotence.ImportFixed | internal/mods/rbac/biz/menu.biz.go:91-122 | Where every item is already as the file says, an import changes nothing at all. |
| ImportIdempotence.RepeatableSafety | internal/mods/rbac/biz/menu.biz.go:78-79 | For a file without ids and with distinct sibling codes, safety is read off file and table before the import: every root item with a path is in the table. |
| ImportIdempotence.RepeatableKeepsPathInv | internal/mods/rbac/biz/menu.biz.go:61-174 | Importing such a file keeps the path invariant if and only if every root item with a path was there before. |
| ImportIdempotence.ImportIsIdempotent | internal/mods/rbac/biz/menu.biz.go:61-174 | From any table state a second run of a file without ids, with distinct sibling codes and resource paths, changes nothing if and only if the first run created no item with sequence 0. |
| ImportIdempotence.RootPathIsAccepted | internal/mods/rbac/biz/menu.biz.go:130-135 | For every table and every root item that is not in it, a one-item file that gives the item a path is imported and breaks the path invariant. |
| ImportIdempotence.SequenceZeroIsChangedTwice | internal/mods/rbac/biz/menu.biz.go:109-129 | For every table and every root item that is not in it, a one-item file that leaves the sequence 0 changes the tables again in its second run. |
| MenuRuns.StepIsExact | internal/mods/rbac/biz/menu.biz.go:61-511 | Each of Create, Update, Delete and import keeps the path invariant if and only if it is safe in the state it meets. |
| MenuRuns.ReachableStates | internal/mods/rbac/biz/menu.biz.go:61-511 | In any run from an empty table, each operation with its own source of ids, all states have the path invariant if and only if all operations of the run are safe. |
| MenuRuns.CheckedRunsKeepPaths | internal/mods/rbac/biz/menu.biz.go:61-511 | In a run in which the caller checks where menus are moved to and what files say, every state has the path invariant. |
| MenuDal.Database.QueryMenus | internal/mods/rbac/dal/menu.dal.go:23-67 | The query returns exactly the rows that meet all given filters, each once. |
| MenuDal.SelectsSays | internal/mods/rbac/dal/menu.dal.go:31-55 | What each filter asks: the id is listed, the name contains the text, the path goes on from the prefix, a grant to the role or to a role of the user exists. |
| MenuDal.Database.GetByCodeAndParentID | internal/mods/rbac/dal/menu.dal.go:86-101 | The matching row whose key comes first, or none if no row matches. |
| Identifiers.LeqSays | internal/mods/rbac/dal/menu.dal.go:86-101 | The order of keys that decides which row comes first is the order of strings, character by character. |
| MenuDal.Database.UpdateParentPath | internal/mods/rbac/dal/menu.dal.go:156-160 | Sets path and update time of the row with the id, if there is one, and leaves every other row as it is. |
| MenuDal.Database.UpdateStatusByParentPath | internal/mods/rbac/dal/menu.dal.go:162-166 | Sets status and update time of every row with the path prefix and leaves every other row as it is. |
| MenuBiz.MenuService.Create | internal/mods/rbac/biz/menu.biz.go:313-363 | The method ends in the state and answer of the specification, error cases included. |
| MenuBiz.MenuService.Update | internal/mods/rbac/biz/menu.biz.go:366-459 | The method ends in the state and answer of the specification, whose rows `MenuContents.UpdatedMenuSays` gives; a resource key already taken puts back every table. |
| MenuBiz.MenuService.WriteMenus | internal/mods/rbac/biz/menu.biz.go:419-438 | Status cascade, one path update per listed child and the row itself amount to one rewrite of the subtree. |
| MenuBiz.FoldIsRewrite | internal/mods/rbac/biz/menu.biz.go:427-434 | Updating the listed descendants one by one, in any order, rewrites exactly the rows with the old prefix. |
| MenuBiz.MenuService.Delete | internal/mods/rbac/biz/menu.biz.go:462-511 | The loop of single deletions ends in the state with the whole subtree and its references taken out. |
| MenuBiz.MenuService.InitFromFile | internal/mods/rbac/biz/menu.biz.go:33-59 | On the parsed items, the recursive loops end in the state of the import specification. |
| MenuBiz.MenuService.CreateInBatchByParent | internal/mods/rbac/biz/menu.biz.go:61-174 | The same for one level with everything below it. |
| MenuBiz.MenuService.ProcessRow | internal/mods/rbac/biz/menu.biz.go:65-138 | Lookup by id, code or name, field-by-field update or creation of one row. |
| MenuBiz.MenuService.ProcessResources | internal/mods/rbac/biz/menu.biz.go:140-165 | Resources that exist by id or by method, path and menu are passed over, the others created. |
| Ancestors.SplitParentIDs | internal/mods/rbac/schema/menu.go:99-121 | The loop with its early continue computes the specified list. |
| Ancestors.SplitParentIDsIsClosure | internal/mods/rbac/schema/menu.go:99-121 | With the list's own ids, the result is the ids and all their proper ancestors, and repeats none. |
| Ancestors.ParentIDsAreClosure | internal/mods/rbac/schema/menu.go:102-106 | Why skipping a seen item is sound: what was seen is closed under ancestors at every step. |
| Ancestors.CollectMenuIDs | internal/mods/rbac/casbin.go:157-177 | The loop of the role query computes the specified list. |
| Ancestors.CollectMenuIDsIsClosure | internal/mods/rbac/casbin.go:157-177 | It is the granted menus and all their proper ancestors, without repeats. |
| Ancestors.CollectedFromRows | internal/mods/rbac/casbin.go:157-177 | In any table at all, a collected id is a row's own or a piece of its path. |
| MenuQueries.AppendChildren | internal/mods/rbac/biz/menu.biz.go:244-290 | The hits, all their descendants and all ancestors of either, each once, ancestor-closed and in display order. |
| MenuQueries.Sort | internal/mods/rbac/schema/menu.go:80-89 | A permutation of the list in descending sequence, then descending creation time. |
| MenuQueries.LessIsDisplayOrder | internal/mods/rbac/schema/menu.go:80-85 | The comparison of the code is descending sequence, then descending creation time. |
| MenuQueries.QueryUserMenus | internal/mods/rbac/biz/login.biz.go:311-350 | A user's enabled menus and all their ancestors, each once, ancestor-closed and in display order. |
| MenuQueries.MissingIDs | internal/mods/rbac/biz/login.biz.go:333-339 | Exactly the parent ids that the list does not hold. |
| MenuForest.ToTree | internal/mods/rbac/schema/menu.go:123-141 | In place: the roots are returned in list order, and each node gains the items that name it as parent, in list order. |
| MenuForest.UnderKeepsOrder | internal/mods/rbac/schema/menu.go:126-138 | Of two items in a list of children, the later one stands later in the list. |
| MenuForest.BranchGoesOn | internal/mods/rbac/schema/menu.go:131-138 | In an ancestor-closed list every proper ancestor of an item has exactly the next item of the branch below it. |
| MenuForest.MetOnce | internal/mods/rbac/schema/menu.go:123-141 | Below siblings an item is met once if one of them is on its branch and never otherwise. |
| MenuForest.ForestLosesNothing | internal/mods/rbac/schema/menu.go:123-141 | On an ancestor-closed list without repeats the flattened forest is a permutation of the list. |
| MenuForest.WalkIsFlatten | internal/mods/rbac/schema/menu.go:131-138 | Walking the nodes along their children gives the flattened forest. |
| MenuForest.Forest | internal/mods/rbac/schema/menu.go:123-141 | The nodes built in place, walked from the returned roots, give a permutation of the list. |
| MenuQueries.SearchForest | internal/mods/rbac/biz/menu.biz.go:193-213 | From the hits to the returned forest: hits, descendants and ancestors, each exactly once. |
| MenuQueries.UserForest | internal/mods/rbac/biz/login.biz.go:311-353 | From the grants to the returned forest: granted menus and ancestors, each exactly once. |
| Policy.QueryRoleResources | internal/mods/rbac/casbin.go:142-187 | Under the path invariant exactly the resources attached to a menu the role holds enabled, or to an ancestor of one, each once. |
| Policy.AttachedAreReached | internal/mods/rbac/casbin.go:157-186 | What is read off the paths is what the role reaches by parent links. |
| Policy.CreateKeepsPolicy | internal/mods/rbac/biz/menu.biz.go:313-363 | In every table state, even with wrong paths, Create leaves each role's granted menus, collected ids and attached resources as they were. |
| Policy.CreateNeedsNoStamp | internal/mods/rbac/biz/menu.biz.go:343-362 | Under the path invariant nothing a load reads differs before and after Create, which writes no stamp. |
| PolicyImport.ImportIsQuiet | internal/mods/rbac/biz/menu.biz.go:61-174 | For every state and every file, with ids or not, an import changes nothing a load reads if and only if no role's reach differs afterwards and no created resource hangs on a menu that some role reaches. |
| PolicyImport.HeldMenusStayReached | internal/mods/rbac/biz/menu.biz.go:113-116 | For every safe file, with ids or not: if held menus are neither added, enabled nor disabled in the result, no role's reach changes. |
| PolicyImport.ImportChangesPolicyUnstamped | internal/mods/rbac/main.go:44-53 | In every state in which an enabled role holds an enabled menu, each rule the role lacks can be given to it by importing a safe file, which writes no stamp. |
| QuietImport.StatusAfterImport | internal/mods/rbac/biz/menu.biz.go:87-116 | The status of each stored row after the import is the one of the item that stands for it in the table before, or its old one if there is none. |
| QuietImport.ReachedAfterImport | internal/mods/rbac/casbin.go:142-177 | What a role reaches after the import is the closure, along the parent links before it, of the menus it holds that are enabled under the file's statuses. |
| QuietImport.HeldStatusesKeepReach | internal/mods/rbac/biz/menu.biz.go:113-116 | A file that, compared with the table before, enables and disables no menu that a role holds keeps every role's reach. |
| QuietImport.NothingNewExactly | internal/mods/rbac/biz/menu.biz.go:140-165 | The import adds no resource within reach if and only if every resource listed at a row that some role reaches is in the table before. |
| QuietImport.QuietFileExactly | internal/mods/rbac/biz/menu.biz.go:61-174 | For every table and every file without ids and with distinct sibling codes, the import leaves what a load reads alone if and only if file and tables before it satisfy both conditions. |
| PolicyLoad.StepConserves | internal/mods/rbac/casbin.go:82-110 | Every step keeps the number of copies of each line over roles not yet queried, queue, workers and buffer. |
| PolicyLoad.EveryInterleaving | internal/mods/rbac/casbin.go:74-110 | For every interleaving the finished buffer is, as a multiset, all lines called for - if and only if there is a worker or no line. |
| PolicyLoad.ProducerNeverBlocks | internal/mods/rbac/casbin.go:75-107 | In every reachable state with roles left the queue has room. |
| PolicyLoad.NoDeadlock | internal/mods/rbac/casbin.go:82-110 | In every reachable state that is not finished some step is possible. |
| PolicyLoad.RunsEnd | internal/mods/rbac/casbin.go:82-110 | No run is longer than the work it began with, and a run of that length is finished. |
| PolicyLoad.CompiledPolicyIsExact | internal/mods/rbac/casbin.go:61-110 | With a worker, the buffer has exactly one line per enabled role and resource it reaches, and no other. |
| PolicyLoad.BufferIsPolicy | internal/mods/rbac/casbin.go:61-110 | Read as rules, the buffer of any finished interleaving with a worker is the policy that the tables call for. |
| PolicyEffects.PolicySays | internal/mods/rbac/casbin.go:61-187 | A rule is in the policy if and only if its role is enabled and holds an enabled menu, and a resource with verb and path of the rule is attached to that menu or to one above it by parent links. |
| PolicyEffects.DisabledRoleHasNoRule | internal/mods/rbac/casbin.go:63-67 | A role that is not enabled, or not there, has no rule. |
| PolicyEffects.UpdatedRoleRules | internal/mods/rbac/biz/role.biz.go:110-151 | After Update an enabled role has exactly the rules that the menus of the form give, a disabled one none, and every other role the rules it had. |
| PolicyEffects.CreatedRoleRules | internal/mods/rbac/biz/role.biz.go:71-107 | The same for a role created. |
| PolicyEffects.DeletedRoleRules | internal/mods/rbac/biz/role.biz.go:154-175 | Deleting a role takes its rules and no other. |
| PolicyEffects.UpdatedMenuRules | internal/mods/rbac/biz/menu.biz.go:440-457 | After Update of an enabled menu every enabled role that holds it has a rule for each resource of the form, verb and path as the form has them, and the menu gives no other. |
| PolicyEffects.DisabledMenuGivesNothing | internal/mods/rbac/casbin.go:143-146 | A role all of whose menus are not enabled has no rule. |
| PolicyRefresh.StepKeepsOrder | internal/mods/rbac/casbin.go:189-215 | Whatever changes, the last update never decreases or passes the stamp, and only a finished load touches it or the policy. |
| PolicyRefresh.StepKeepsInv | internal/mods/rbac/casbin.go:189-215 | Every step keeps the freshness invariant, a change if no load has begun to read its stamp or it leaves the policy alone; menus are read off the stored paths, and changes may come between any two queries. |
| PolicyRefresh.CaughtUpMeansFresh | internal/mods/rbac/casbin.go:61-72 | In every run from start-up whose changes are of that kind, equal stamps included, whenever the loader has caught up the loaded policy is the current one if and only if that is not empty - also before the first stamp. |
| PolicyRefresh.UndisturbedLoadCatchesUp | internal/mods/rbac/casbin.go:201-213 | A load that read the current stamp catches up when it finishes, and stores the current policy unless that is empty. |
| PolicyRefresh.UnnoticedExactly | internal/mods/rbac/casbin.go:207-212 | For a loader at rest with the current policy: after a change a poll follows if and only if the stamp is later, and the loaded policy is right if and only if the change left it the same. |
| PolicyRefresh.StaysUnnoticed | internal/mods/rbac/casbin.go:192-213 | Until a later stamp is written, a loader that has caught up does nothing, whatever else changes. |
| PolicyRefresh.LaterStampHeals | internal/mods/rbac/casbin.go:207-212 | A change with a later stamp restores the freshness invariant in every state of every run, and a waiting loader polls. |
| PolicyRefresh.LoadStores | internal/mods/rbac/casbin.go:97-131 | However the queries of a load go on, it stores the rules read so far and those of the roles left, as the tables are now, unless there are none. |
| PolicyRefresh.DisturbedLoadExactly | internal/mods/rbac/casbin.go:207-212 | After any change during a load, the load ends with the current policy if and only if what it has read and will read is that policy. |
| PolicyRefresh.CanCatchUp | internal/mods/rbac/casbin.go:61-72 | From every state with the invariant, the loader alone can reach one in which it has caught up, with the current policy unless that is empty. |
| PolicyOperations.MenuOperationStamps | internal/mods/rbac/biz/menu.biz.go:313-515 | Create, Update and Delete of menus, successful or not, either write their stamp or change neither stamp nor anything a load reads. |
| PolicyOperations.AccessOperationStamps | internal/mods/rbac/biz/role.biz.go:71-179 | The same for every operation on roles, users and logins. |
| PolicyOperations.OperationIsChange | internal/mods/rbac/biz/menu.biz.go:61-515 | Every safe operation, imports included, is a change that the polling protocol admits, if the clock does not go backwards. |
| PolicyOperations.RunIsExec | internal/mods/rbac/casbin.go:189-215 | Every run of operations interleaved with loader steps is a run of the protocol. |
| PolicyOperations.TimelyIsHarmless | internal/mods/rbac/biz/menu.biz.go:56-58 | An operation whose stamp will be later than the one in place is harmless, and so is an import while the stamp in place is unread or of a quiet file. |
| PolicyOperations.OperationsStayFresh | internal/mods/rbac/casbin.go:189-215 | In every such run from start-up, imports included, whose operations are of that kind, a loader that has caught up has the current policy if and only if that is not empty. |
| PolicyOperations.ImportIsHarmless | internal/mods/rbac/biz/menu.biz.go:56-58 | The import of a file without ids and with distinct sibling codes is harmless if and only if the stamp in place is unread or the file is quiet. |
| PolicyOperations.StartUpImport | internal/mods/rbac/main.go:44-53 | After the first load, a poll follows the import if and only if the cache holds a stamp; without one the policy is right if and only if the import left it the same. |
| PolicyOperations.ImportCanStayUnnoticed | internal/mods/rbac/main.go:44-53 | From every state at rest in which an enabled role holds an enabled menu, some safe file leaves the policy stale through everything that happens before a later stamp. |
| PolicyOperations.SameSecondStaysUnnoticed | internal/mods/rbac/biz/role.biz.go:177-179 | From every state at rest, an operation in the second of the stamp is followed by no poll, and the policy stays as it was until a later stamp: right if and only if the operation left it the same. |
| PolicyOperations.SomeRunEndsStale | internal/mods/rbac/biz/menu.biz.go:513-515 | From empty tables, creating a page and, in one second, two roles that hold it, with a load in between, ends with a stale policy and no poll. |
| Access.CoherentRoles | internal/mods/rbac/biz/login.biz.go:59-66 | Of the roles that exist, a cached user has exactly the cached ones. |
| Access.UpdateUserKeeps | internal/mods/rbac/biz/user.biz.go:128-172 | After Update the user's roles are those of the form, the cached entry is gone, and all entries are coherent. |
| Access.DeleteUserKeeps | internal/mods/rbac/biz/user.biz.go:175-192 | Delete leaves every cached entry coherent. |
| Access.DeleteRoleKeeps | internal/mods/rbac/biz/role.biz.go:154-175 | Deleting a role, which does not touch the cache, leaves only ids behind that name no role. |
| Access.CacheFillKeeps | internal/mods/rbac/biz/login.biz.go:68-92 | Filling an entry from the tables or dropping one keeps all entries coherent. |
| Access.SameStatusesKeep | internal/mods/rbac/biz/user.biz.go:194-213 | Changes of users that leave statuses alone, such as new passwords and profiles, keep every cached entry coherent. |
| Access.StepKeepsCoherence | internal/mods/rbac/biz/login.biz.go:59-92 | Every operation on users, roles, logins, passwords and profiles keeps every cached entry coherent. |
| Access.CacheAlwaysCoherent | internal/mods/rbac/biz/user.biz.go:83-192 | In every state of every run from an empty cache: a cached user exists and is activated, has all current roles cached, and any extra id names no role. |
| Access.CreateRoleEffect | internal/mods/rbac/biz/role.biz.go:71-107 | A role created has the fields of the form and holds exactly its menus; every other role keeps row and grants, and the stamp is written. |
| Access.UpdatedRoleSays | internal/mods/rbac/biz/role.biz.go:110-151 | After Update the role has the fields of the form and its own id and holds exactly the menus of the form; every other role keeps row and grants, users and cache stay, and the stamp is written. |
| AccessContents.RoleRefusalSays | internal/mods/rbac/biz/role.biz.go:71-151 | Create of a role is turned down exactly for a code in use, Update exactly for a missing role, a new code in use, or a key already taken. |
| AccessContents.DeletedRoleSays | internal/mods/rbac/biz/role.biz.go:154-175 | Delete takes the role, exactly its grants and exactly its user rows. |
| AccessContents.CreatedUserSays | internal/mods/rbac/biz/user.biz.go:83-125 | Create is turned down exactly for a user name in use; otherwise one row has the fields of the form and the hashed password, and the user has exactly the roles of the form. |
| AccessContents.UpdatedUserSays | internal/mods/rbac/biz/user.biz.go:128-172 | After Update the row has the fields of the form, with the old password where the form has none; the user has exactly the roles of the form, other users keep theirs, and the cache entry is gone. |
| AccessContents.UserRefusalSays | internal/mods/rbac/biz/user.biz.go:128-172 | Update is turned down exactly for a missing user, a new name in use, or a key already taken. |
| AccessContents.UnknownUserSays | internal/mods/rbac/biz/login.biz.go:163-180 | A user name that nobody has gets the answer for wrong credentials. |
| AccessContents.LoginSays | internal/mods/rbac/biz/login.biz.go:163-197 | For a user name that somebody has, status comes before password; a success caches exactly the roles the user has and leaves every other entry. |
| AccessContents.ParseSays | internal/mods/rbac/biz/login.biz.go:59-92 | A request is let in exactly with a cached entry or an activated user, and runs with the cached roles or else exactly those of the tables. |
| AccessService.Service.GetRoleIDs | internal/mods/rbac/biz/user.biz.go:215-227 | The listed ids are those of the user's role rows. |
| AccessService.Service.CreateUser | internal/mods/rbac/biz/user.biz.go:83-125 | The method ends in the state and answer of the specification. |
| AccessService.Service.UpdateUser | internal/mods/rbac/biz/user.biz.go:128-172 | The same; a row key already taken puts everything back and keeps the cached entry. |
| AccessService.Service.DeleteUser | internal/mods/rbac/biz/user.biz.go:175-192 | The user, exactly the user's role rows and the cached entry go; an unknown id changes nothing. |
| AccessService.Service.ResetPassword | internal/mods/rbac/biz/user.biz.go:194-213 | Sets the password of the user, if there is one, and leaves every other user and all else as it is. |
| AccessService.Service.UpdatePassword | internal/mods/rbac/biz/login.biz.go:280-308 | Root is turned down; the password changes only if the old one was right, and nothing else does. |
| AccessService.Service.UpdateProfile | internal/mods/rbac/biz/login.biz.go:356-374 | Root is turned down; four profile fields change, and neither username, status nor password. |
| AccessService.Service.Login | internal/mods/rbac/biz/login.biz.go:151-197 | Root is never cached; another user is checked in the order of the code, and only success fills that user's entry, with the user's current roles. |
| AccessService.Service.ParseUserID | internal/mods/rbac/biz/login.biz.go:54-92 | Root passes without roles; a cached entry is used as it is; otherwise only an activated user is let in, and cached. |
| AccessService.Service.Logout | internal/mods/rbac/biz/login.biz.go:233-237 | Drops the user's entry and nothing else. |
| AccessService.Service.CreateRole | internal/mods/rbac/biz/role.biz.go:71-107 | Role and grants are added and stamped together. |
| AccessService.Service.UpdateRole | internal/mods/rbac/biz/role.biz.go:110-151 | The method ends in the state of the specification, which `Access.UpdatedRoleSays` gives grant by grant; on failure nothing changes. |
| AccessService.Service.DeleteRole | internal/mods/rbac/biz/role.biz.go:154-175 | The role, exactly its grants and its user rows go, with a stamp; an unknown id changes nothing. |
| MemCache.CollisionIsPrefix | pkg/cachex/cache.go:61-63 | Two namespaces share a flat key if and only if one, with the delimiter, begins the other. |
| MemCache.AbsentDelimiterIsPrefixFree | pkg/cachex/cache.go:23-35 | A one-character delimiter that no namespace contains keeps them apart; keys may contain it. |
| MemCache.KeysDiffer | pkg/cachex/cache.go:61-63 | Then flat keys are equal if and only if namespace and key are. |
| MemCache.StepRefines | pkg/cachex/cache.go:65-119 | One operation gives the same answer on the flat store as on the two-level one, whose steps are defined on namespace and key, and the stores still correspond. |
| MemCache.RunRefines | pkg/cachex/cache.go:65-119 | So does every sequence of operations, with expiry. |
| MemCache.SetThenGet | pkg/cachex/cache.go:65-81 | In namespaces that are kept apart a value set is read until its deadline, for ever without one, and not after it; every other key reads as before. |
| MemCache.DeleteThenGet | pkg/cachex/cache.go:75-91 | A key deleted is read no more; every other key reads as before. |
| MemCache.TakeThenGet | pkg/cachex/cache.go:75-103 | Taking a key answers what reading it would; it is read no more, and every other key reads as before. |
| MemCache.PrefixFreeIsNeeded | pkg/cachex/cache.go:61-63 | For any namespaces that are not kept apart some sequence of operations tells the stores apart. |
| MemCache.IterationIsNamespace | pkg/cachex/cache.go:105-114 | The entries under a prefix are exactly the live keys of the namespace in the two-level store. |
| MemCache.Cache.Set | pkg/cachex/cache.go:65-73 | The map gains, or exchanges, exactly the entry under namespace, delimiter and key: the value, and now plus the expiry as deadline if that is positive. |
| MemCache.Cache.Get | pkg/cachex/cache.go:75-81 | The live value under the flat key, or nothing; the store stays as it is. |
| MemCache.Cache.Exists | pkg/cachex/cache.go:83-86 | True if and only if Get would find a value. |
| MemCache.Cache.Delete | pkg/cachex/cache.go:88-91 | The map loses exactly the entry under namespace, delimiter and key. |
| MemCache.Cache.GetAndDelete | pkg/cachex/cache.go:93-103 | Removes the key and returns its value if it is live; otherwise the store stays as it is. |
| MemCache.Cache.Iterator | pkg/cachex/cache.go:105-114 | Visits live keys of the namespace, prefix stripped, none twice; goes on exactly while the callback agrees, and if it is never stopped visits all. |
| MemCache.Cache.Perform | pkg/cachex/cache.go:65-119 | Every operation of the class is the step of the flat store that the laws are about. |
| DefiDataset.DerivedUtilization | internal/mods/defi/graph/client.go:243-249 | A derived utilization is total debt over supply, whatever the price and the token's decimals. |
| DefiDataset.FiguresSay | internal/mods/defi/graph/client.go:237-262 | With exact numbers: prices have 8 decimals, amounts the token's; values are amounts times price, debt is variable and stable debt together, and each yield comes from its own rate. |
| DefiDataset.UtilizationSays | internal/mods/defi/graph/client.go:246-249 | A given utilization is taken as it is; without one it is borrowed over supplied value, if anything is supplied. |
| DefiDataset.RaySays | internal/mods/defi/graph/client.go:305-313 | A rate has 27 decimals; one that is not positive yields 0, any other is compounded over 31536000 seconds and yields at least itself. |
| DefiDataset.SnapshotSays | internal/mods/defi/graph/client.go:270-300 | A history snapshot stands at the start of its item's day with the item's market and figures. |
| Dates.CivilDateExact | internal/mods/defi/graph/client.go:338-340 | Every day number has a valid calendar date, and counting days and leap days back from it gives the number. |
| Dates.NumbersFollowTheCalendar | internal/mods/defi/graph/client.go:338-340 | Day 0 is 1 January 1970, and the date after a date has the next number, by the lengths of months and leap years. |
| Dates.DateStringExact | internal/mods/defi/graph/client.go:338-340 | Different days are rendered differently, and no rendered date contains a colon. |
| Dates.DateStringWidth | internal/mods/defi/graph/client.go:338-340 | For the years 0 to 9999 a rendered date has ten characters. |
| Dates.RenderedSays | internal/mods/defi/graph/client.go:338-340 | For years of four digits the rendering reads year, month, day, with a dash between them. |
| DefiDataset.DayKeyInjective | internal/mods/defi/graph/client.go:338-340 | For any market ids and any rendering of days that is injective and free of colons, the key tells markets and days apart. |
| DefiDataset.DayKeysOfTheCalendar | internal/mods/defi/graph/client.go:338-340 | The keys with calendar dates are equal if and only if market and day are. |
| DefiDataset.MapDataset | internal/mods/defi/graph/client.go:226-303 | The first error if there is one; otherwise one metric per reserve in order, and the history items that are first for their market and day. |
| DefiDataset.HistoryOnePerDay | internal/mods/defi/graph/client.go:268-301 | The history kept has at most one snapshot per market and day. |
| DefiDataset.HistoryKeepsLatest | internal/mods/defi/graph/client.go:268-301 | With history in descending time order the one kept is the latest of its day, for every market and day. |
| DefiDataset.Load | internal/mods/defi/graph/client.go:130-147 | The loops with their string keys append exactly the reserves without a snapshot on their day. |
| DefiDataset.EveryReserveHasItsDay | internal/mods/defi/graph/client.go:136-146 | Afterwards every reserve has a snapshot on its day of observation, and the earlier snapshots are unchanged. |
| DefiDataset.FillSays | internal/mods/defi/graph/client.go:136-145 | What the fill adds is market, figures and time of reserves, and every reserve without a snapshot on its day is among them. |
| DefiDataset.FillKeepsOnePerDay | internal/mods/defi/graph/client.go:140-145 | One snapshot per market and day survives the fill if and only if no two unrecorded reserves share market and day. |
| DefiDataset.DistinctMarketsStayOnePerDay | internal/mods/defi/graph/client.go:130-147 | In particular with distinct market ids. |
| DefiRepository.EnsureProtocolOnce | internal/mods/defi/dal/repository.go:30-55 | Whoever asks later gets the row of the first call, and no second row is made. |
| DefiRepository.Repository.EnsureProtocolRow | internal/mods/defi/dal/repository.go:30-55 | An existing row is returned as it is; otherwise one is inserted with the endpoint and flag given. |
| DefiRepository.Repository.Apply | internal/mods/defi/dal/repository.go:69-98 | The transaction succeeds if and only if the database accepts every statement it executes and the commit; then it is the specified upserts, otherwise nothing changes; it returns the reserves accepted before the first rejection. |
| DefiRepository.DatasetAt | internal/mods/defi/dal/repository.go:69-161 | What one dataset does to any reserve row and any snapshot row: same id and creation time, last value listed, everything else unchanged. |
| DefiRepository.LastForSays | internal/mods/defi/dal/repository.go:76-85 | The metric meant is the last one listed for the market. |
| DefiRepository.LastSnapshotForSays | internal/mods/defi/dal/repository.go:86-94 | The snapshot meant is the last one listed for market and time. |
| DefiRepository.UpsertTimes | internal/mods/defi/dal/repository.go:100-138 | A listed reserve is updated now; a new one is created now, under its protocol. |
| DefiRepository.LastMetricSays | internal/mods/defi/dal/repository.go:69-98 | Over several runs it is the last listing in the last committed run that lists the market. |
| DefiRepository.ReservesAreLast | internal/mods/defi/dal/repository.go:100-138 | After any runs there is one row per protocol and market listed in a committed dataset, and it holds the last metric. |
| DefiRepository.IdsAreStable | internal/mods/defi/dal/repository.go:107-110 | Id and creation time of a reserve row are those of its first insertion for ever. |
| DefiRepository.SnapshotsAreLast | internal/mods/defi/dal/repository.go:140-161 | After any runs there is one row per reserve and time listed, and it holds the last value. |
| DefiRepository.NoOrphans | internal/mods/defi/dal/repository.go:86-94 | After any runs every snapshot belongs to a stored reserve of its own market, and no two reserves share an id. |
| DefiRepository.ReapplyChangesOnlyTimes | internal/mods/defi/dal/repository.go:129-136 | Applying the same dataset again changes only the update times of reserves. |
| DefiSync.StepKeepsInv | internal/mods/defi/biz/service.go:38-99 | Every step of every caller keeps the run invariant. |
| DefiSync.AtMostOneInside | internal/mods/defi/biz/service.go:39-42 | However callers interleave, at most one is past the try-lock. |
| DefiSync.RunningRowsAreAccountedFor | internal/mods/defi/biz/service.go:51-80 | Rows in status running are exactly the lock holder's open one and those whose final write failed. |
| DefiSync.FinalIsOk | internal/mods/defi/biz/service.go:68-76 | With an accepted transaction a run ends succeeded with as many written as read, both the number of reserves; with a rejected one it failed with that number read and none written; without a dataset, with none of either. |
| DefiSync.RunsTellTheTruth | internal/mods/defi/biz/service.go:68-98 | Succeeded rows have written what they read, failed rows nothing, both with a finish time; what they read is the count of the dataset (`DefiSync.TablesAreTheFold`). |
| DefiSync.RunsLeaveRunningOnce | internal/mods/defi/biz/service.go:76-80 | A row that has left running is final, no row disappears, and a lost one stays running. |
| DefiSync.NewRowsRun | internal/mods/defi/biz/service.go:51-63 | Rows come only from run creation, in status running. |
| DefiSync.StepKeepsFold | internal/mods/defi/biz/service.go:44-76 | Every step keeps the tables the fold of the transactions begun under the lock, all under the one protocol row. |
| DefiSync.TablesAreTheFold | internal/mods/defi/biz/service.go:38-99 | However callers interleave, the tables are the fold, in lock order, of the transactions that committed; each run has at most one; every succeeded row committed and has read and written the number of reserves of its dataset, a failed row has read that number or, without a dataset, none, and written none; what committed has a succeeded row unless it is still open or its status write was lost. |
| DefiSync.MarketsHoldTheLastCommit | internal/mods/defi/dal/repository.go:69-138 | In every state of every such interleaving a market has a row if and only if a committed dataset listed it, and the row holds the last metric committed. |
| DefiSync.LockIsReleased | internal/mods/defi/biz/service.go:38-42 | While the lock is held only its holder moves, each step brings it nearer to releasing the lock, and others get a conflict without effect. |
| DefiSync.Service.Sync | internal/mods/defi/biz/service.go:38-99 | One call with every combination of failures: the data is committed if and only if the database accepts the transaction; answer and run row are given with status, number read, number written and finish time, and a failed status write alone leaves the run open; tables and rows are given in every case. |
| LogHook.StepKeepsInv | pkg/logging/hook.go:77-125 | Every step keeps conservation, faithful copies, the order of the flush and the queue bound. |
| LogHook.AlwaysConserved | pkg/logging/hook.go:55-66 | In every reachable state the entries sent are, each as often, those queued, in flight and executed; the queue is within its bound and holds what callers passed. Which calls send is `LogHook.CallsAreAccountedFor`. |
| LogHook.WriteReachesQueue | pkg/logging/hook.go:97-111 | With the hook open and room in the queue, an undisturbed Write gets its bytes into the queue. |
| LogHook.WriterLeaves | pkg/logging/hook.go:97-111 | In every state a Write returns at once exactly when the hook is closed, and later only by sending or because the queue holds the maximum at its room check. |
| LogHook.CallsAreAccountedFor | pkg/logging/hook.go:97-111 | Over every run the Write calls are those sent, those still inside, those that found the hook closed and those that found the queue full, and no other. |
| LogHook.OneWorkerKeepsOrder | pkg/logging/hook.go:77-95 | One worker executes entries in the order in which they were sent. |
| LogHook.FlushExecutesEverything | pkg/logging/hook.go:114-125 | When Flush has returned the executer was closed once, after every execution; everything sent was executed exactly once, with the contents of the Write call, if and only if there is a worker or nothing was sent. |
| LogHook.FlushNeverStuck | pkg/logging/hook.go:119-121 | Once the queue is closed, a worker or the flush can always go on. |
| LogHook.FlushEnds | pkg/logging/hook.go:114-125 | However the rest is scheduled, the flush returns after a number of worker and flush steps fixed when the queue closed. |

## Left out

- PolicyLoad.EveryInterleaving: does not model a role query that fails, which the code logs and skips; every query answers.
- PolicyLoad.CompiledPolicyIsExact: takes lines as role and resource rows, not as text with separators, and roles and resources as listed once.
- PolicyRefresh.CaughtUpMeansFresh: assumes that a stamp becomes visible together with its table change, that stamps do not go backwards, that no role query fails, and that every table of the run has the path invariant, which safe operations keep.
- QuietImport.QuietFileExactly: is about files without ids and with a code for every item, like the menu file of the repository; for other files `PolicyImport.ImportIsQuiet` compares the states before and after.
- ImportIdempotence.ImportIsIdempotent: does not cover files with ids or with items known by name only; there two items can stand for one row, which then changes back and forth.
- Policy.QueryRoleResources: without the path invariant only what is attached to the ids read off the paths is stated.
- MenuOps.UpdateMovesSubtree: is about moves that keep the path invariant; the other ones are `MenuOps.MoveBelowItselfBreaks`.
- Access.CacheAlwaysCoherent: operations are sequential; a cache fill that reads roles just before another request changes them is not modelled.
- AccessService.Service.Login: captcha, password hashing and tokens are reduced to the result of the password comparison.
- LogHook.FlushExecutesEverything: assumes that no writer is between its closed check and its send when the queue closes, that there is one flush, and that executing an entry does not panic.
- MemCache.Cache.Iterator: the snapshot that the code iterates over is taken as the store itself; a callback that changes the cache is not modelled, nor is the periodic removal of expired entries.
- DefiDataset.MapDataset: takes the decoded response; numbers and the yearly power are exact reals where the code rounds, and the upper-casing of symbols is a parameter.
- DefiSync.Service.Sync: source label and error summary of a run are not modelled.
- Database errors other than taken keys and the failures named in `DefiSync`, column lengths, decimal rounding, `LIKE` wildcards and case folding.
- Checks of form fields (`Validate`), reading, decoding and file types of menu files, and the back ends for Redis and Badger.
- Expansion of code paths in `fillQueryParam`, pagination, selection of columns, `Query` with `IncludeResources`.
- Sibling codes are not claimed to stay distinct: a move does not check them.
- The menus of the root user, which are filtered by status without adding ancestors.
- `Overview`, `Snapshots`, listing of reserves and the retry loop of the graph client.
- Loading of the policy file into the enforcer, HTTP, middleware, configuration, front end.
