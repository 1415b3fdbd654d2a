# A Dafny model of the task scheduling platform

The platform is a NestJS service layer over PostgreSQL: workspaces with members and invitations,
projects with nested tasks, reminders, notifications, and sessions kept alive by refresh tokens.
This project models the parts of it that are state machines or algorithms and proves what they
keep over whole runs.

A table is a map from key to row, and a service call is a step that changes those maps. Each
imperative service appears twice: as functions and predicates that say what a call does, about
which the lemmas speak, and as a class whose methods follow the service's own statements and are
proved to do exactly that. `dafny verify dfyconfig.toml` covers everything.

| file | what it models |
|---|---|
| `Forest.dfy` | the task table and the forest formed by its parent column |
| `Cte.dfy` | the two recursive queries, downward and upward, with `UNION ALL` bag semantics |
| `Tasks.dfy`, `TasksService.dfy` | create, update, remove, move and list; runs of them; the event log |
| `ConcurrentMoves.dfy` | moves whose checks and saves interleave with each other and with the other calls |
| `Subtree.dfy` | building the nested tree from query rows, on heap objects |
| `Ordering.dfy`, `Pagination.dfy` | `ORDER BY`, and keyset pages with millisecond cursors over microsecond stamps |
| `MembershipCache.dfy` | the membership cache with one step per `await`, under every interleaving |
| `Workspaces.dfy`, `WorkspacesService.dfy` | workspaces, members, invitations and the cache with atomic calls |
| `Reminders.dfy` | the reminder windows, one scan, and series of scans |
| `ReminderScans.dfy` | overlapping scans with failures between any two steps, and the scheduler's flag |
| `ReminderDelivery.dfy` | a queued reminder: five attempts and the failure mark |
| `RefreshTokens.dfy` | token families, rotation and reuse detection |
| `ConcurrentRotations.dfy` | rotations whose reads and writes interleave |
| `Notifications.dfy`, `TextKeys.dfy` | the in-process and the queue path from event to notification; text keys |
| `Slugs.dfy` | `slugify` |

## What is assumed

- Ids are uuids and are represented by numbers in the order PostgreSQL gives them; new ids, family
  ids and random tokens are ones not seen before. A request may write an id in several ways (`IdText`
  in `Forest.dfy`): the letters of a uuid can be upper or lower case, the request validation lets
  both through, PostgreSQL takes them for the same id and prints lower case, and the services compare
  text. Ids that only the database compares are modelled by value.
- `Tasks`, `Workspaces` and `RefreshTokens` take each service call as one atomic step, although
  `moveTask`, `rotate` and `invite` read, decide and write without a transaction. `rotate` may
  still fail between revoking and minting. `ConcurrentMoves`, `ConcurrentRotations`,
  `MembershipCache` and `ReminderScans` are about calls that interleave; in the first the reads of
  one check are taken together.
- A recursive query that would not end fails by the statement timeout (`QueryTimedOut`).
- Saving an entity writes the columns as they were read, and inserts the row if it was deleted meanwhile.
- SHA-256 is injective, and the text form of a cursor (ISO date, base64url) is invertible.
- `toLowerCase` and the case folding of `citext` columns are parameters; nothing is assumed of them.
- A query reads rows in some order that is a parameter (`scan`); what is proved holds for every order.
- `UNIQUE (workspace_id, user_id)` makes that pair the key of a membership. In `ReminderScans` a
  call that takes effect and reports a failure all the same is its step followed by `Fail`.
- `invite` leaves a missing workspace to the foreign key; the model reports it as not found.

## Where the documentation and the code differ

- `docs/PERFORMANCE.md` line 60 takes the subtree query to be bounded by depth 5. Only moves are held to
  that: `CreateGoesAnyDepth` has a run that creates a task at any depth. `RunShallowIff` says when a
  run stays within 5, and `RunDepthBounded` what holds in every run.
- `docs/PLAN.md` line 24 promises that cycles are prevented. Even with atomic calls that does not
  hold: the check compares the printed ids of the subtree with the text of the request, so a
  descendant written in another spelling passes it. `MoveUnderChild` is the smallest instance, after which
  the subtree query does not end; `MoveForestIff` and `Tasks.RunForestIff` give the exact condition, and
  `StoredTextsKeepForest` what holds when new parents are written as the database prints them.
- For the same reason `getSubtree` succeeds without a result for a task id in another spelling (`GetSubtree`).
- Calls that overlap can close a cycle with any spelling (`TwoMovesMeet`). `ConcurrentMoves.RunForestIff`
  and `ConcurrentMoves.RunShallowIff` give the exact conditions, `CurrentMovesKeepForest` and
  `UndisturbedMovesStayShallow` ones that callers can meet.
- `updateMemberRole` and `removeMember` are meant to refuse the workspace owner. They compare
  the stored id with the text of the request: `OwnerCanBeRemoved` is the instance, `StepOwnersIff` and
  `RunOwnersIff` the exact condition.
- The header of the pagination helper (`src/common/pagination/pagination.util.ts` lines 1-5) promises a
  walk that is stable under inserts. The cursor keeps milliseconds while the column keeps
  microseconds, so a walk can skip rows: `WalkCanDropRow` is an instance. `WalkCompleteIff` and
  `EveryLimitCompleteIff` give the exact condition, `PagesMiss` says which rows can be missed, and
  `StableWalk` what is stable when rows come and go.
- The membership cache is described as invalidated on every change. It is addressed by text, so a
  change under one spelling leaves the entries under others, even with atomic calls
  (`ChangeCanMissEntry`; `StepCacheIff` and `RunCacheIff` are the exact condition); and with overlapping calls
  the delete can come too early (`DeleteCanBeTooEarly`). `StepKeepsEntriesIff` and `RunEntriesIff` say
  exactly which steps and runs leave an outdated entry behind, `OrderlyRunsStayGuarded` how to avoid
  them, and `StalenessBound` limits the effect.
- `docs/PLAN.md` line 27 promises exactly one reminder and notification. At most one row, one
  job and one in-process notification hold always (`ReminderScans.RunFine`). At least one fails
  when a scan fails right after the insert, for good (`AbandonedForever`), and only then
  (`DeliveredIff`). A queued reminder can be notified more than once; `ExactlyOnceIff` says when it is not.
- The worker treats SENT as final (`src/modules/reminders/reminders.service.ts` lines 88-90), but the
  failure mark is unconditional: `SentCanBeOverwritten` is a job that turns its own SENT into FAILED;
  `OverwritesSentIff` and, for rows that were SENT before, `SentOverwrittenIff` are the exact conditions.
- `rotate` is documented to mint the next token of a family. Two rotations that overlap mint two live ones
  (`TwoRotationsMintTwo`); `RunOneLiveIff` is the exact condition, `SingleRotationsKeepOneLive` one that
  callers can meet, and `DeadForeverIff` says when a revoked family is revoked for good.

## Model

| member | source | states |
|---|---|---|
| Forest.NoCycleIsRanked | src/modules/tasks/tasks.service.ts:303-307 | a table without parent cycles has a numbering that grows from parent to child; with `RankedHasNoCycle` the two are equivalent |
| Forest.RankedHasNoCycle | src/modules/tasks/tasks.service.ts:303-307 | a numbering that grows from parent to child rules out every cycle |
| Forest.ChainIsShort | src/modules/tasks/tasks.service.ts:325-337 | without cycles no chain of parents is as long as the table has rows |
| Forest.DepthOfAncestor | src/modules/tasks/tasks.service.ts:325-337 | a task has an ancestor k steps up exactly for k up to its depth, and depth falls by one per step |
| Forest.InsertKeepsForest | src/modules/tasks/tasks.service.ts:49-62 | a new task under a parent of its project keeps the forest and all depths, and lies one below its parent |
| Forest.ReparentKeepsForest | src/modules/tasks/tasks.service.ts:276-321 | moving under a parent outside the subtree keeps the forest, shifts the moved subtree by one amount, keeps every other depth and keeps the rows of the subtree |
| Forest.ReparentForestIff | src/modules/tasks/tasks.service.ts:303-321 | a change of parent inside a project keeps the forest exactly if the new parent is not below the task, which otherwise lies on a cycle |
| Forest.CascadeExact | src/database/migrations/1780600700000-CreateTasks.ts:36-37 | deleting rows and cascading removes exactly the rows with an ancestor among them |
| Forest.RemoveIsSubtree | src/modules/tasks/tasks.service.ts:192-199 | removing a task removes exactly its subtree |
| Forest.RemoveKeepsForest | src/modules/tasks/tasks.service.ts:192-199 | what is left is a forest with unchanged depths |
| Forest.LongChainMeetsCycle | src/modules/tasks/tasks.service.ts:325-337 | on any table a chain of parents as long as the table ends on a cycle |
| Cte.DownEnds | src/modules/tasks/tasks.service.ts:291-301 | without cycles the downward query comes to an empty round within as many rounds as there are rows |
| Cte.CycleNeverEnds | src/modules/tasks/tasks.service.ts:293-299 | from a row on a parent cycle no round of the downward query is empty |
| Cte.DownEndsIff | src/modules/tasks/tasks.service.ts:293-299 | on any table, cyclic or not, the downward query from a task ends exactly if the task is not its own proper ancestor |
| Cte.UpAnswersIff | src/modules/tasks/tasks.service.ts:325-335 | the upward query ends exactly if the chain of parents does, on any table whose parents exist |
| Cte.DescendantsExact | src/modules/tasks/tasks.service.ts:222-235 | from a task on no cycle the downward query lists x at depth d exactly when d parent steps from x reach it, and lists each x once despite UNION ALL |
| Cte.AncestorsExact | src/modules/tasks/tasks.service.ts:325-337 | where it ends the upward query lists exactly the ancestor chain, so `depthOf` is its length, and 0 for a missing task |
| Tasks.HeightDecides | src/modules/tasks/tasks.service.ts:309-318 | where both queries end the one comparison of parent depth plus height holds exactly when every task of the moved subtree ends at depth at most 5 |
| Tasks.DescendantsDecide | src/modules/tasks/tasks.service.ts:303-307 | the downward query contains a task exactly when it is in the subtree, in whatever spelling |
| Tasks.TextDecides | src/modules/tasks/tasks.service.ts:303 | the check for cycles, which compares texts, finds a new parent exactly if it is in the subtree and written as the database prints it |
| Tasks.MoveForestIff | src/modules/tasks/tasks.service.ts:268-322 | a move keeps the forest exactly unless its new parent is another task of the moved subtree in another spelling and the other checks pass; then the task lies on a cycle |
| Tasks.ApplyForestIff | src/modules/tasks/tasks.service.ts:41-322 | creations, updates and removals always keep parents inside the project and the graph free of cycles, and moves but for those |
| Tasks.MoveAllowedIff | src/modules/tasks/tasks.service.ts:268-322 | in a forest a move is accepted exactly if project and task are found and the new parent is none, or another task of the project that is no descendant written as printed and under which no moved task gets deeper than 5 |
| Tasks.MoveRefusals | src/modules/tasks/tasks.service.ts:274-307 | what a refusal in a forest says, by the conditions of the request |
| Tasks.UpdateGives | src/modules/tasks/tasks.service.ts:145-188 | an update of a found task stores each given column and keeps the others, sets the completion time by the given status, and logs assignment, change of status and completion each exactly in its case |
| Tasks.CreateGives | src/modules/tasks/tasks.service.ts:47-84 | a creation fails exactly for a missing project or parent, else stores the columns given, with TODO and MEDIUM as defaults, and logs creation and assignment |
| Tasks.RunKeepsProjects | src/modules/tasks/tasks.service.ts:41-322 | after every sequence of operations parents exist and are of the same project |
| Tasks.RunForestIff | src/modules/tasks/tasks.service.ts:41-322 | every state of a run is a forest exactly if no move in it closes a cycle in that way |
| Tasks.StoredTextsKeepForest | src/modules/tasks/tasks.service.ts:41-322 | runs whose new parents are written as the database prints them stay forests |
| Tasks.MoveUnderChild | src/modules/tasks/tasks.service.ts:303-321 | moving a task under its child, written in another spelling, leaves a cycle on which the query never ends |
| Tasks.RunDepthBounded | src/modules/tasks/tasks.service.ts:313-321 | as long as the table is a forest no task is deeper than the larger of 5 and the depth it was created at |
| Tasks.RunShallowIff | src/modules/tasks/tasks.service.ts:30-62 | all states of a run are forests within depth 5 exactly when no move closes a cycle and no creation goes under a task at depth 5 or more |
| Tasks.CreateGoesAnyDepth | src/modules/tasks/tasks.service.ts:49-62 | for every depth there is a run of creations that reaches it |
| Tasks.RunKeepsIdentity | src/modules/tasks/tasks.service.ts:138-161 | over a run a task keeps project, creator and creation time, the log only grows, and no removed id comes back |
| Tasks.RunLogMatches | src/modules/tasks/tasks.service.ts:153-188 | over any run completedAt is set exactly when a task is DONE, its logged status changes lead without gap from TODO to its status, and completions pair one to one with changes into DONE |
| Tasks.RunAssigneesAnnounced | src/modules/tasks/tasks.service.ts:77-83 | over any run a task's assignee is the one named by its last assignment event |
| TasksServiceModel.TasksService.FindOneOrFail | src/modules/tasks/tasks.service.ts:125-136 | finds the task exactly if the project is in the workspace and the task in the project, and says which is missing |
| TasksServiceModel.TasksService.Create | src/modules/tasks/tasks.service.ts:41-85 | fails exactly for a missing project or parent, else stores a row with the columns given and logs creation and assignment; a forest is kept |
| TasksServiceModel.TasksService.Update | src/modules/tasks/tasks.service.ts:138-190 | each given column is stored and each other kept, completion time and events follow the given status and assignee exactly, other rows stay; naming the present assignee in another spelling announces them again |
| TasksServiceModel.TasksService.Remove | src/modules/tasks/tasks.service.ts:192-199 | exactly the task and everything below it is gone, and the other rows stay |
| TasksServiceModel.TasksService.MoveTask | src/modules/tasks/tasks.service.ts:268-322 | on success only the parent changes, to the one asked for; in a forest it succeeds exactly under the condition of `MoveAllowedIff`, and the forest is kept exactly unless a descendant slips past the check |
| TasksServiceModel.TasksService.CheckParent | src/modules/tasks/tasks.service.ts:291-318 | the two queries, the text comparison and the depth sum find exactly what is wrong with a new parent |
| TasksServiceModel.TasksService.GetSubtree | src/modules/tasks/tasks.service.ts:205-261 | returns nodes that form the nested tree of the task exactly if its id is written as the database prints it, else nothing; fails exactly for an unknown task or one on a cycle |
| TasksServiceModel.TasksService.List | src/modules/tasks/tasks.service.ts:88-123 | the page asked for: the newest `limit` (20 by default) tasks of the project that meet each filter and come after the cursor, newest first, with a next cursor exactly when some are left, and with each key its row |
| TaskListing.FetchedIsPage | src/modules/tasks/tasks.service.ts:93-122 | what the query and the page helper yield is that page, said by columns, filters and cursor |
| TaskListing.MatchingExact | src/modules/tasks/tasks.service.ts:96-110 | the filters select exactly the matching tasks of the project, each once |
| TaskListing.ListingIgnoresScan | src/modules/tasks/tasks.service.ts:96-101 | the listing does not depend on the order rows are read in |
| TaskListing.TaskWalkCompleteIff | src/modules/tasks/tasks.service.ts:88-123 | following cursors returns exactly the matching tasks if and only if the page boundaries are clear |
| ConcurrentMoves.AloneIsMove | src/modules/tasks/tasks.service.ts:268-322 | a check and its save with nothing in between amount to the atomic move |
| ConcurrentMoves.SavedForestIff | src/modules/tasks/tasks.service.ts:320-321 | saving a row as it was read, also one deleted meanwhile, keeps the forest exactly if the new parent does not lie below it |
| ConcurrentMoves.StepGoodIff | src/modules/tasks/tasks.service.ts:268-322 | with moves, creations, updates and removals interleaved, a step keeps the forest exactly if it does not save a parent that lies below its task |
| ConcurrentMoves.RunForestIff | src/modules/tasks/tasks.service.ts:268-322 | every state of such a run is a forest exactly if no step of it does that |
| ConcurrentMoves.CurrentMovesKeepForest | src/modules/tasks/tasks.service.ts:303-321 | if no check lets a descendant slip past and no move is saved between the check and the save of another, every state is a forest, whatever else happens meanwhile |
| ConcurrentMoves.RunShallowIff | src/modules/tasks/tasks.service.ts:309-321 | every state of such a run is a forest within depth 5 exactly if no step closes a cycle, creates below depth 5 or saves a move that goes too deep by then |
| ConcurrentMoves.UndisturbedMovesStayShallow | src/modules/tasks/tasks.service.ts:309-321 | if moreover no task is created between the check and the save of a move, nor ever below depth 5, every state is within depth 5 |
| ConcurrentMoves.TwoMovesMeet | src/modules/tasks/tasks.service.ts:291-321 | on every forest two moves towards each other, with ids as stored, that pass their checks before either is saved leave a cycle, and the downward query from there never has an empty round |
| Subtree.NestedMembers | src/modules/tasks/tasks.service.ts:251-258 | a nested tree holds exactly the descendants, each at its distance from the root |
| Subtree.NestedDistinct | src/modules/tasks/tasks.service.ts:251-258 | no task occurs twice in a nested tree whose root is on no cycle |
| Subtree.NestedHoldsDescendants | src/modules/tasks/tasks.service.ts:222-258 | the nodes of a nested tree are the rows of the query, none dropped and none repeated |
| Subtree.NestedUnique | src/modules/tasks/tasks.service.ts:222-260 | there is one nested tree per task, so the result does not depend on the order rows are read in |
| Subtree.SubtreeRowsSorted | src/modules/tasks/tasks.service.ts:233 | the query rows come by depth and then id, each descendant once |
| Subtree.TreeOfNested | src/modules/tasks/tasks.service.ts:250-258 | the child lists pushed by the second pass form a nested tree: depth is nesting level, children are the child tasks in id order |
| Subtree.MakeNodes | src/modules/tasks/tasks.service.ts:237-249 | the first pass makes one node per row with the row's fields and no children |
| Subtree.LinkNodes | src/modules/tasks/tasks.service.ts:250-260 | the second pass gives each node the nodes of its child rows in row order and finds the root exactly if its printed id is the text asked for |
| Subtree.BuildSubtree | src/modules/tasks/tasks.service.ts:237-260 | following children from the node yields the nested tree of the task; there is a node to return exactly if the id was written as printed |
| Ordering.OrderBySorts | src/modules/tasks/tasks.service.ts:99-100 | sorting orders the rows and keeps each with its multiplicity |
| Pagination.BuildPage | src/common/pagination/pagination.util.ts:40-49 | the page is the first `limit` rows, with a next cursor exactly if rows are left, made from the last row |
| Pagination.EncodeNotAbove | src/common/pagination/pagination.util.ts:18-20 | the millisecond cursor of a row never lies above the row |
| Pagination.PageExact | src/modules/tasks/tasks.service.ts:96-122 | a page holds the largest keys below the cursor in strictly descending order |
| Pagination.WalkDescends | src/common/pagination/pagination.util.ts:36-49 | following cursors yields strictly descending keys for all data, so nothing is repeated or invented |
| Pagination.WalkCompleteIff | src/common/pagination/pagination.util.ts:18-49 | the walk is the whole listing exactly when at each page boundary the next row lies below the truncated cursor |
| Pagination.EveryLimitCompleteIff | src/common/dto/pagination-query.dto.ts:10-16 | no page size loses a row exactly when each row lies below the cursor of the row before it |
| Pagination.ApartIff | src/common/pagination/pagination.util.ts:19 | an older row lies below the cursor of a newer one exactly if their milliseconds differ, or it is on the millisecond with a smaller id |
| Pagination.WalkCompleteAligned | src/common/pagination/pagination.util.ts:18-20 | with stamps on whole milliseconds the walk is complete for every page size |
| Pagination.WalkCompleteSpaced | src/common/pagination/pagination.util.ts:18-20 | with no two rows in one millisecond the walk is complete for every page size |
| Pagination.WalkCanDropRow | src/common/pagination/pagination.util.ts:19 | two rows within one millisecond of which the walk returns only the first |
| Pagination.PagesMiss | src/common/pagination/pagination.util.ts:19 | a missed row shares its millisecond with a newer row that was returned |
| Pagination.VisitDescends | src/modules/tasks/tasks.service.ts:111-119 | also on a table that changes between requests rows come in strictly descending order |
| Pagination.VisitExactlyOnce | src/common/pagination/pagination.util.ts:1-5 | a row that matches throughout a finished walk and is apart from the others is returned exactly once, whatever is inserted or deleted meanwhile |
| Pagination.VisitEnds | src/common/pagination/pagination.util.ts:36-49 | when nothing new appears below the cursor a walk on a changing table ends within as many requests as the rows first found fill pages |
| Pagination.StableWalk | src/common/pagination/pagination.util.ts:1-5 | with rows inserted above the cursor only and deleted anywhere the walk ends, descends, and returns exactly once every row that is there throughout and apart from the others |
| Pagination.NewestAreNotBelow | src/common/pagination/pagination.util.ts:1-5 | inserts of rows newer than all others never appear below a cursor of the walk |
| MembershipCache.StalenessBound | src/modules/workspaces/workspaces.service.ts:82-98 | under every interleaving a returned role was the table's at a moment no older than 30 000 ms plus the longest read-to-set delay |
| MembershipCache.ServedForLifetime | src/modules/workspaces/workspaces.service.ts:86-96 | an entry just set is served for exactly 30 000 ms if nothing else happens |
| MembershipCache.StepKeepsGuardedIff | src/modules/workspaces/workspaces.service.ts:123-141 | cached or just read roles differ from the table only while a writer still has to delete that text's entry, except after exactly the described steps |
| MembershipCache.RunGuardedIff | src/modules/workspaces/workspaces.service.ts:82-153 | over whole runs: all states are so guarded exactly if no step of the run is one of those |
| MembershipCache.StepKeepsEntriesIff | src/modules/workspaces/workspaces.service.ts:82-142 | outdated entries stay guarded by a pending delete unless a reader sets an outdated role with no delete pending, the text's last writer stops before deleting, or a role is saved under one text while another text's entry differs, and in those cases do not |
| MembershipCache.RunEntriesIff | src/modules/workspaces/workspaces.service.ts:82-153 | throughout a run no outdated entry is without a pending delete exactly if the run has no such step |
| MembershipCache.KeyTextInjective | src/modules/workspaces/workspaces.service.ts:144-146 | the cache has one place for each way to write a membership |
| MembershipCache.OrderlyRunsStayGuarded | src/modules/workspaces/workspaces.service.ts:82-153 | with ids as stored, no save of a key between find and set of a reader of it, and no writer that stops, an outdated entry is always about to be deleted |
| MembershipCache.DeleteCanBeTooEarly | src/modules/workspaces/workspaces.service.ts:91-96 | an interleaving after which an outdated role is served although save and delete are done |
| MembershipCache.DeleteCanMissText | src/modules/workspaces/workspaces.service.ts:144-153 | calls that do not overlap, after which a role looked up under one text and changed under another is served on |
| Workspaces.RunGood | src/modules/workspaces/workspaces.service.ts:32-142 | after every run rows refer to existing workspaces, at most one invitation is pending per workspace and folded address, slugs are canonical and unique, addresses of users are unique, and non-owner memberships stem from distinct accepted invitations |
| Workspaces.RunAdvances | src/modules/workspaces/invitations.service.ts:84-129 | invitations are never removed, and accepted, expired and revoked ones never change again |
| Workspaces.RunRolesAsInvited | src/modules/workspaces/invitations.service.ts:103-111 | in runs without an explicit role change every non-owner has the role of the invitation that brought them in |
| Workspaces.RunRolesAsAsked | src/modules/workspaces/invitations.service.ts:57-66 | in such runs every non-owner has the role that an inviter of the workspace and address asked for, or MEMBER if none was asked for |
| Workspaces.StepOwnersIff | src/modules/workspaces/workspaces.service.ts:108-142 | a call takes an owner's ADMIN membership away exactly if it removes or demotes the owner under a text that is not the stored one |
| Workspaces.RunOwnersIff | src/modules/workspaces/workspaces.service.ts:108-142 | owners are ADMIN members throughout a run exactly if no call of it does that |
| Workspaces.OwnerCanBeRemoved | src/modules/workspaces/workspaces.service.ts:131-140 | the owner named in another spelling is removed like any other member |
| Workspaces.AloneIsLookup | src/modules/workspaces/workspaces.service.ts:82-98 | the steps of a lookup with nothing in between amount to the atomic call |
| Workspaces.AloneIsChange | src/modules/workspaces/workspaces.service.ts:123-141 | and so do those of a change of role or a removal |
| Workspaces.LookupExactIff | src/modules/workspaces/workspaces.service.ts:82-98 | with atomic calls a lookup answers what the table says exactly unless a live entry of that text says otherwise |
| Workspaces.ApplyKeepsPending | src/modules/workspaces/invitations.service.ts:45-67 | no call makes a second pending invitation for a workspace and folded address |
| Workspaces.StepCacheIff | src/modules/workspaces/workspaces.service.ts:108-153 | a call leaves a cached role that differs from the table exactly if it changes a membership also cached, with another role, under another text |
| Workspaces.RunCacheIff | src/modules/workspaces/workspaces.service.ts:82-153 | cached roles equal the table throughout a run exactly if no call of it does that |
| Workspaces.ChangeCanMissEntry | src/modules/workspaces/workspaces.service.ts:144-153 | a role looked up under one text and changed under another is answered on until the entry expires |
| Workspaces.StoredTextsKeepOwnersAndCache | src/modules/workspaces/workspaces.service.ts:82-153 | with ids written as stored owners stay ADMIN members and cached roles equal the table after every run |
| Workspaces.NextKeepsInvited | src/modules/workspaces/invitations.service.ts:98-115 | memberships of non-owners keep stemming from one accepted invitation each, for their workspace and address |
| WorkspacesServiceModel.WorkspacesService.Create | src/modules/workspaces/workspaces.service.ts:32-52 | keeps the invariants of `RunGood`; succeeds exactly if the slug made from the slug or name given is free, then that workspace has it, the name and the owner as only member, ADMIN, and nothing else changes |
| WorkspacesServiceModel.WorkspacesService.GetMembership | src/modules/workspaces/workspaces.service.ts:82-98 | a live entry of that text is answered; else the table is, and a role found is cached for 30 000 ms while absence is not; so the answer is the table's exactly unless a live entry differs |
| WorkspacesServiceModel.WorkspacesService.UpdateMemberRole | src/modules/workspaces/workspaces.service.ts:108-127 | refused exactly for a missing workspace, the owner as stored and a missing member; then the table has the new role, the text's entry is gone and nothing else changes; owners and cache stay right but for the exact exceptions |
| WorkspacesServiceModel.WorkspacesService.RemoveMember | src/modules/workspaces/workspaces.service.ts:129-142 | refused exactly in the same cases; then the member and the text's entry are gone and nothing else changes; owners and cache stay right but for the exact exceptions |
| WorkspacesServiceModel.WorkspacesService.Invite | src/modules/workspaces/invitations.service.ts:30-68 | succeeds exactly if the workspace exists, the address is no member's and nothing is pending for it; the new row has the address and inviter given, the role asked for or MEMBER and seven days to live, and is the only pending one; a failure changes nothing |
| WorkspacesServiceModel.WorkspacesService.Accept | src/modules/workspaces/invitations.service.ts:78-116 | returns a membership exactly for a pending, unexpired invitation to the same address, which becomes ACCEPTED; the user is then a member, with the earlier role if there was one; an expired one becomes EXPIRED and any other failure changes nothing |
| WorkspacesServiceModel.WorkspacesService.Revoke | src/modules/workspaces/invitations.service.ts:118-130 | a pending invitation of the workspace, and no other, becomes REVOKED, after which none is pending for its address |
| Reminders.WindowsPartition | src/modules/reminders/reminders.service.ts:45-52 | the two windows are disjoint and together are the open tasks due within 24 hours from now or earlier |
| Reminders.DueSoonInTime | src/modules/reminders/reminders.service.ts:44-71 | with scans at most 24 hours apart, in queue mode or not, a task open through the day before its due date has its DUE_SOON row stored before it |
| Reminders.OverdueAfterDue | src/modules/reminders/reminders.service.ts:50-52 | a task still open at a scan at or after its due date has its OVERDUE row stored from then on |
| Reminders.WiderGapMisses | src/modules/reminders/reminders.service.ts:17-18 | for any gap beyond 24 hours there are scans that miss the window |
| Reminders.StoredStep | src/modules/reminders/reminders.service.ts:44-71 | after each scan of a series the stored keys are those of remaining tasks and the ones the scan wants |
| Reminders.StoredWereWanted | src/modules/reminders/reminders.service.ts:44-71 | a series of scans stores no reminder that none of them asked for |
| Reminders.RescanChangesNothing | src/modules/reminders/reminders.service.ts:173-188 | in a series of scans one repeated on unchanged tasks changes neither rows nor jobs nor notices, in whatever order tasks are read |
| Reminders.ScanGrows | src/modules/reminders/reminders.service.ts:44-71 | a scan adds exactly the missing wanted reminders, keeps the old rows, and queues exactly the new ones |
| Reminders.ScanIdempotent | src/modules/reminders/reminders.service.ts:173-188 | a scan whose reminders all exist, such as a repeated one, changes nothing |
| Reminders.ScanNotifies | src/modules/reminders/reminders.service.ts:142-151 | an in-process scan sends one notice per new reminder whose task has an assignee, due soon first |
| Reminders.WantedReminds | src/modules/reminders/reminders.service.ts:44-71 | a scan calls for exactly the reminders of tasks that are neither DONE nor CANCELLED with a due date up to now, or up to 24 hours ahead |
| Reminders.ScanAnnounces | src/modules/reminders/reminders.service.ts:142-171 | the notices an in-process scan adds are, as a bag, one to the assignee for each newly stored reminder whose task has one, of that task and type, and no others |
| Reminders.RemindersService.CreateReminder | src/modules/reminders/reminders.service.ts:173-188 | inserts the row and returns its id, or nothing if the key exists |
| Reminders.RemindersService.Dispatch | src/modules/reminders/reminders.service.ts:117-151 | creates the reminder exactly if its key is new, then queues it, or notifies the assignee of the type and task, and reports what it did |
| Reminders.RemindersService.DispatchAll | src/modules/reminders/reminders.service.ts:66-71 | the loop does what dispatching the list does, and its tallies count the new rows |
| Reminders.RemindersService.Scan | src/modules/reminders/reminders.service.ts:44-83 | afterwards exactly the old reminders and the ones called for exist; in-process exactly the assignees of the new ones are notified, once each; created equals the new rows and delivered plus enqueued, and the tasks found are counted |
| ReminderScans.RunFine | src/modules/reminders/reminders.service.ts:66-151 | under every interleaving and failure at most one row, one in-process notification and one job per task, type and due date; tallies add up; the scheduler never overlaps itself |
| ReminderScans.StepKeepsScheduler | src/modules/reminders/scheduler.service.ts:17-31 | the flag is up exactly while a scheduled scan is under way, and there is at most one |
| ReminderScans.FinishedTallies | src/modules/reminders/reminders.service.ts:57-82 | a scan that finishes has created equal to delivered plus enqueued |
| ReminderScans.DeliveredIff | src/modules/reminders/reminders.service.ts:117-151 | over every run a reminder that was inserted and is in no scan's hand has its one job (queue) or its one notification (in-process, with assignee) exactly if no scan failed right after inserting it, and is marked sent in-process exactly if none failed with it in hand |
| ReminderScans.FailedIff | src/modules/reminders/reminders.service.ts:121-151 | the record of failures names exactly the keys that were in the hands of a scan when it failed, and at which point |
| ReminderScans.AbandonedForever | src/modules/reminders/reminders.service.ts:117-151 | after a failure right after the insert, and any further steps, nothing was sent or queued for the reminder and no scan has it |
| ReminderDelivery.WorkExact | src/modules/reminders/reminder.processor.ts:23-37 | attempts made, final row and notices sent of a job, exactly, for every pattern of failures (at the read and after the update too), deletions and row status |
| ReminderDelivery.FiveAttempts | src/modules/reminders/reminders.service.ts:127-139 | a reminder ends SENT, FAILED or deleted (PENDING only if the mark fails too) within five attempts and five notifications; FAILED exactly if all five failed and the mark worked |
| ReminderDelivery.ExactlyOnceIff | src/modules/reminders/reminders.service.ts:86-100 | a reminder that ends SENT to an assignee was notified once, to that assignee, exactly if no attempt before the one that made the update notified and then failed |
| ReminderDelivery.WhatIsLeft | src/modules/reminders/reminders.service.ts:91-108 | the row counts its attempts, one more when SENT and five when FAILED, and all notices are of its task and type, to assignees of the attempts |
| ReminderDelivery.WasSentIff | src/modules/reminders/reminders.service.ts:86-100 | a job that finds its row unsent goes on after SENT exactly if an attempt fails after its update was committed |
| ReminderDelivery.OverwritesSentIff | src/modules/reminders/reminders.service.ts:86-108 | such a job overwrites SENT with FAILED exactly if an attempt fails after its update, all later ones fail at the read, the row stays and the mark does not fail |
| ReminderDelivery.SentOverwrittenIff | src/modules/reminders/reminders.service.ts:86-108 | a job on a SENT row notifies nobody and ends FAILED exactly if the row is there, every attempt fails at the read and the mark does not fail |
| ReminderDelivery.SentCanBeOverwritten | src/modules/reminders/reminders.service.ts:103-108 | an attempt whose update commits and whose answer is lost, then four failing reads, turn SENT into FAILED |
| ReminderDelivery.ReminderProcessor.DeliverReminder | src/modules/reminders/reminders.service.ts:86-100 | returns normally only with the row SENT, one attempt more counted and the assignee notified of its task and type, or already SENT or gone; otherwise leaves the row unless it failed after the update; never notifies for a SENT row |
| ReminderDelivery.ReminderProcessor.Process | src/modules/reminders/reminder.processor.ts:23-37 | the loop over the attempts ends as `Outcome` says, with the number of attempts and final row of `WorkExact` |
| RefreshTokens.RunFamilies | src/modules/auth/refresh-token.service.ts:23-91 | in every run each family has one user and at most one unrevoked token |
| RefreshTokens.RotatesOnce | src/modules/auth/refresh-token.service.ts:34-58 | a token rotated once is detected as reused ever after |
| RefreshTokens.ReplayKillsFamily | src/modules/auth/refresh-token.service.ts:45-48 | presenting a revoked token is detected, and its family has no unrevoked token from then on |
| RefreshTokens.DeadStaysDead | src/modules/auth/refresh-token.service.ts:34-73 | a family without unrevoked token never gains one |
| RefreshTokens.LogoutEndsFamily | src/modules/auth/refresh-token.service.ts:60-66 | revoking the live token of a family ends the family |
| RefreshTokens.RotatesExactlyInTime | src/modules/auth/refresh-token.service.ts:34-91 | a token handed out and not revoked since rotates exactly until the configured time after that, and is answered as expired afterwards |
| RefreshTokens.LiveIff | src/modules/auth/refresh-token.service.ts:34-73 | a live token stays so exactly as long as no call logs it out, rotates it in time or presents a revoked token of its family |
| RefreshTokens.RotateGives | src/modules/auth/refresh-token.service.ts:27-58 | a rotation yields a successor of the same user and family that lives for the configured time exactly for a live token that is not expired, reuse detected and the family stamped exactly for a revoked one, and otherwise no change |
| RefreshTokens.RefreshTokenService.IssueForNewSession | src/modules/auth/refresh-token.service.ts:22-25 | keeps one user and one live token per family; the new token, with the user, family and lifetime given, is the only live one of its family and other families are as before |
| RefreshTokens.RefreshTokenService.Rotate | src/modules/auth/refresh-token.service.ts:34-58 | keeps the invariants; each kind of presented token has exactly its answer, the successor lives for the configured time and alone is live, the old one or its family is stamped, other families are as before |
| RefreshTokens.RefreshTokenService.Revoke | src/modules/auth/refresh-token.service.ts:60-66 | a live token is stamped and its family dead, otherwise nothing changes |
| RefreshTokens.RefreshTokenService.RevokeFamily | src/modules/auth/refresh-token.service.ts:68-73 | stamps exactly the unrevoked tokens of the family |
| ConcurrentRotations.AloneIsRotate | src/modules/auth/refresh-token.service.ts:34-58 | the steps of a rotation with nothing in between amount to the atomic call |
| ConcurrentRotations.RunOneLiveIff | src/modules/auth/refresh-token.service.ts:34-91 | with reads, saves and mints interleaved every state has at most one live token per family exactly if no step mints one beside a live one |
| ConcurrentRotations.SingleRotationsKeepOneLive | src/modules/auth/refresh-token.service.ts:34-58 | if no token is found while another rotation that found it valid has not saved it, every state has at most one live token per family |
| ConcurrentRotations.TwoRotationsMintTwo | src/modules/auth/refresh-token.service.ts:38-57 | two rotations that both find a live token before either saves it mint two live tokens of one family |
| ConcurrentRotations.DeadForeverIff | src/modules/auth/refresh-token.service.ts:45-58 | a family without live token stays so whatever comes exactly if no rotation of it is under way past its checks |
| Notifications.NotifiesOthersOnly | src/modules/notifications/notification-mapping.ts:18-68 | an event notifies exactly the user it concerns, unless there is none or they caused it |
| Notifications.MapsToNews | src/modules/notifications/notification-mapping.ts:18-68 | each kind of event gives its type, title, entity and recipient, exactly if the user concerned exists and did not act |
| Notifications.JobIdInjective | src/modules/notifications/notification.constants.ts:14-16 | for uuid ids, in either case, equal job ids mean equal recipient, type and entity |
| Notifications.JobIdNeedsUuids | src/modules/notifications/notification.constants.ts:14-16 | without uuids a family of different notifications shares job ids |
| Notifications.JobIdHasNoColon | src/modules/notifications/notification.constants.ts:9-16 | a job id has no colon |
| Notifications.KeyDeterminesInput | src/modules/notifications/notification-mapping.ts:18-68 | recipient, type and entity determine the whole notification the mappers make |
| Notifications.SamePaths | src/modules/notifications/notification-queue.listener.ts:61-71 | for every event sequence the queue holds a job for exactly the notifications the in-process listener stores |
| Notifications.SameKeysNotified | src/modules/notifications/notification.listener.ts:54-56 | both paths cover the same recipient, type and entity keys |
| Notifications.NotificationListener.On | src/modules/notifications/notification.listener.ts:34-56 | appends the event's notification exactly if it concerns somebody else, and nothing otherwise |
| Notifications.NotificationQueueListener.On | src/modules/notifications/notification-queue.listener.ts:41-71 | adds a job for it under the derived id unless the id is taken, and nothing otherwise |
| Slugs.SlugifyIsSlug | src/common/utils/slugify.util.ts:2-11 | every result has 1 to 60 characters: words of a-z and 0-9 joined by single hyphens |
| Slugs.SlugifyIdempotent | src/common/utils/slugify.util.ts:2-11 | slugifying a slug changes nothing |
| Slugs.SlugifyJoinsWords | src/common/utils/slugify.util.ts:3-10 | the slug is the words of the lower-cased input joined by hyphens and cut to 60 characters, or "workspace" |

## Left out

- Controllers, guards, request validation, configuration, logging, health and the start-up code: no algorithm of their own.
- The realtime gateway, the Redis adapters and the notification channels of the worker.
- `markRead`, `markAllRead` and `unreadCount` of notifications, project and comment services, password login: each is settled by one branch. The notification list pages as the task list does.
- Concurrent calls of `invite`, whose race a partial unique index settles, and of `create` and `update` of tasks among themselves.
- Deletion of users, projects and workspaces, and what it cascades to.
- The queue's own timing, stalled jobs, manual retries and the eviction of completed jobs (after which a job id could be used again).
- Malformed cursors that decode to two parts which are no date or uuid, and so fail in the database.
- Null in fields of an update that the table declares NOT NULL, which the database refuses.
