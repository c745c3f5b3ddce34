# Layer 3 switch: verified models of the timer manager, the OSPF core and the forwarding database

This project models three parts of the switch and proves what they are for.

**Timers** (`src/lib`). A timer's duration is packed into hours, minutes, seconds and ticks; the timer is filed in one of
four red-black trees and moves to a faster one each time the clock of its wheel reaches its key.
`RbShape`, `RbLinks`, `RbInsert`, `RbErase`, `RbRemove` and `RbTree` model the linked trees field by field: rotations,
recolouring, splicing and the search loops work on node objects with child, parent and colour fields, and every step is
proved against a value that fixes all links at once (a subtree and the way back up to the root). `TimeFormat` models the
packed word, `TimerRun` the manager as a state machine over whole runs, and `TimerManager` the manager over the trees,
proved to do what the state machine does. The main result gives the exact tick at which every timer fires.

**OSPF** (`src/ospf`, RFC 2328). `DrElection` and `Ism` model the election of Designated Router and Backup (section 9.4),
the interface state machine (section 9.3), the count of active interfaces and the area border flag (section 3.3). `Lsdb`
models the counters of the link-state database, `Flood` flooding and the retransmission lists (sections 13, 13.1, 13.3),
`MaxAge` the removal of aged LSAs (section 14), `TransitArea` the improvement of routes through transit areas
(section 16.3) and `AbrTask` the announcement of summaries by a border router (section 12.4.3).

**Forwarding database** (`src/bridge/fdb.c` over `src/lib/hashlib.c` over `src/lib/mem_main.c`). `MemPool`, `HashTable`
and `Fdb` model block pools, chained hashing over pool blocks and the learning and ageing of addresses. Blocks keep their
contents when they are given back, which the ageing walk relies on.

`Shared` holds what several of them use.

Threads, locks, semaphores and event queues are not modelled: each tick, each packet and each call is one step. Clock
readings, hash functions, filters and the state of other routers are parameters.

Four things the code does that one might not expect are stated as results, with the exact condition for each:

- A timer may fire early by less than one unit of its leading field, never late (`TimerRun.DueBound`); a duration that is a
  multiple of 1024 hours is counted but never fires (`TimerRun.EmptyTimerNeverFires`).
- The election is stable exactly unless an interface said to be DR takes both roles, which no run reaches, or one said to
  hold no role still claims to be DR and is outclaimed (`DrElection.ElectStableExactly`, `Ism.RunStableExactly`); a DR that
  is looped back gets there (`Ism.StaleAfterLoop`, `Ism.StaleElectionUnstable`).
- Summaries of ranges are announced into areas configured to get no summaries (`AbrTask.NoSummaryExactly`), and a summary
  announced again with an unchanged cost while it is being flushed is not brought back (`AbrTask.RevivedBySource`);
  `AbrTask.NoSummaryBroken` and `AbrTask.NotRevived` are cases of both.
- Deleting from a retransmission list keeps the counters exact only for the instance that is listed (`Flood.DeleteExact`,
  with a case in `Flood.DeleteOther`), and a pool whose padding is as large as a block accepts an address past its last
  block (`MemPool.PaddingHoldsBlock`, with a case in `MemPool.PaddedPool`).

## Model

| member | source | states |
|---|---|---|
| RbLinks.RbRoot.RotateLeft | src/lib/rbtree.c:27-48 | a left rotation resets child, parent and root links so that the tree at that place is the rotated one and everything around it is untouched |
| RbLinks.RbRoot.RotateRight | src/lib/rbtree.c:50-71 | the mirror image |
| RbLinks.RbRoot.LinkNode | src/inc/rbtree.h:101-108 | hanging a node in an empty slot makes it a red leaf there |
| RbInsert.InsertColor | src/lib/rbtree.c:73-136 | recolouring after hanging a red leaf restores all red-black conditions and keeps the in-order sequence |
| RbErase.SiblingExists | src/lib/rbtree.c:138-216 | the sibling the erase fix-up dereferences is never null |
| RbErase.EraseColor | src/lib/rbtree.c:138-216 | the fix-up after losing a black node restores equal black heights, no red under red and a black root, and keeps the in-order sequence |
| RbTree.Erase | src/lib/rbtree.c:218-283 | erasing any member leaves a valid red-black tree whose in-order sequence is the old one without exactly that node |
| RbTree.Insert | src/lib/update.c:68-99 | a node is filed after all equal keys and before all larger ones, the order stays sorted, the tree valid |
| RbTree.Find | src/lib/update.c:109-139 | the search returns a node with the key if and only if the tree holds one, duplicates and rotations notwithstanding |
| RbTree.First | src/lib/rbtree.c:356-370 | the first node in order, none exactly for the empty tree |
| RbTree.Next | src/lib/rbtree.c:384-410 | the node after a given one in order, none exactly for the last |
| RbTree.Balanced | src/lib/rbtree.c:73-283 | the conditions kept bound every way down by twice the black height, and the number of nodes from below by a power of two of it |
| TimeFormat.EncodeDecode | src/lib/tmrtypes.h:99-102 | packing fields that fit and reading them back gives the same fields |
| TimeFormat.DecodeEncode | src/lib/tmrtypes.h:77-102 | and every word is the packing of its fields |
| TimeFormat.PackIsEncode | src/lib/tmrtypes.h:94-97 | or-ing fields into their bit ranges gives the word that is the sum of the fields in their places |
| TimeFormat.GetIsDecode | src/lib/tmrtypes.h:99-102 | shifting and masking any 32-bit word reads the fields its division into places gives |
| TimeFormat.MaskIsClear | src/lib/update.c:28-33 | and-ing any word with the mask of a wheel makes the field of that wheel zero and leaves the other three |
| TimeFormat.SplitWorth | src/lib/tmr_init.c:59-72 | the fields of a duration fit the word and are worth the duration modulo 1024 hours |
| TimerRun.AdvanceSynced | src/lib/tmr_init.c:267-274 | second, minute and hour clocks stay the tick clock divided by 100, 6000 and 360000, exactly until the tick clock wraps |
| TimerRun.PlaceDue | src/lib/tmr_init.c:35-57 | a timer filed now is bound for the last turn of its wheel plus its worth, and lies ahead of the clock |
| TimerRun.ServeExact | src/lib/update.c:49-66 | a service fires a record if and only if it is bound for that tick, and leaves any other bound for the same tick as before |
| TimerRun.PassLower | src/lib/update.c:17-26 | a record called up and filed again goes to a faster wheel |
| TimerRun.DrainGoesOn | src/lib/update.c:40-45 | taking up one timer is one step from the state before a drain to the state after it, in any order |
| TimerRun.DrainLeavesNone | src/lib/update.c:35-47 | once a wheel is drained no record of its reading is left |
| TimerRun.DrainedMoves | src/lib/update.c:49-66 | draining a wheel takes up the timers it called up before the service began, each once |
| TimerRun.CountExact | src/lib/tmrtypes.h:104-106 | over every run the timer count is the number of pending timers plus the arms with an empty duration |
| TimerRun.GateComplete | src/lib/tmr_init.c:243-265 | the per-tick gate never skips a tick on which a service would have done anything |
| TimerRun.GateExactly | src/lib/tmr_init.c:243-265 | exactly when the gate is open |
| TimerRun.TimerFiresExactly | src/lib/tmr_init.c:267-278 | over every run a timer armed at a tick is pending before, and fired at, the one tick known when it is armed |
| TimerRun.ServedLeaves | src/lib/update.c:49-66 | the timers that stop being pending in a service are exactly those it fires, recorded at that tick |
| TimerRun.TrackedLeaves | src/lib/tmr_init.c:267-278 | a timer leaves the wheels in the tick that brings the clock to its due tick and in no other |
| TimerRun.TickedLeaves | src/lib/update.c:17-26 | a timer that leaves the wheels in a tick is recorded as fired at that tick |
| TimerRun.DueBound | src/lib/tmr_init.c:41-51 | that tick is never late and early by less than one unit of the leading field |
| TimerRun.DueExactly | src/lib/tmr_init.c:35-57 | spelled out: a duration is counted from now, from the last second, from the last minute or from the last hour, by its size |
| TimerRun.DueShort | src/lib/tmr_init.c:47-51 | and exact for durations under a second |
| TimerRun.EmptyTimerNeverFires | src/lib/tmr_init.c:50-56 | a duration that packs to zero is never filed and never fires |
| TimerRun.StoppedNeverFires | src/lib/tmr_init.c:207-222 | a timer stopped in time never fires |
| TimerRun.PendingBefore | src/lib/update.c:151-168 | a running timer never has negative time left |
| TimerRun.RemainingTime | src/lib/update.c:160-167 | the remaining time shown is the nominal one if and only if that fits a signed word |
| TimerRun.NoneLeft | src/lib/update.c:160-167 | a timer past its expiry shows none left |
| TimerRun.TickedPunctual | src/lib/update.c:151-168 | a tick keeps every pending timer due by its nominal expiry until the tick clock wraps |
| TimerRun.ArmedPunctual | src/lib/tmr_init.c:59-72 | and so does arming a timer |
| TimerManager.TimerAdd | src/lib/update.c:68-99 | filing into one wheel leaves the other three trees alone |
| TimerManager.TimerDel | src/lib/update.c:101-107 | taking out of one wheel leaves the other three trees alone |
| TimerManager.TimerTreeWalk | src/lib/update.c:109-139 | finds a record called up by a reading if and only if there is one |
| TimerManager.Manager.constructor | src/lib/tmr_init.c:25-28 | four empty trees, clocks at zero, nothing pending |
| TimerManager.Manager.FindSlotAndPlace | src/lib/tmr_init.c:35-57 | a timer is filed under the record the state machine gives it, or nowhere if its time is spent |
| TimerManager.Manager.ExpiryAction | src/lib/update.c:17-26 | a timer called up expires if its time is spent and is filed again otherwise |
| TimerManager.Manager.CallUp | src/lib/update.c:42-43 | the field of the wheel is masked out of the word and the node leaves the tree |
| TimerManager.Manager.ProcessTimers | src/lib/update.c:35-47 | the draining loop terminates in the drained state, counts the timers called up, and appends exactly the fired ones to the expired list, each once |
| TimerManager.Manager.ServiceTimers | src/lib/update.c:49-66 | draining the wheels in turn is the service of the state machine; the expired list grows by exactly the timers that stop being pending, and the result counts the timers taken up, each once |
| TimerManager.Manager.TimersPendingForService | src/lib/tmr_init.c:243-265 | the gate read off the trees is the gate of the state machine |
| TimerManager.Manager.UpdateTimes | src/lib/tmr_init.c:267-278 | one tick over the trees is one tick of the state machine; the expired list grows by exactly the timers fired at that tick, and the others stay on schedule until the wrap |
| TimerManager.Manager.CalcTime | src/lib/tmr_init.c:59-72 | the word built is the packing of the duration, and the nominal expiry is set |
| TimerManager.Manager.StartTimer | src/lib/tmr_init.c:74-115 | a new timer is armed, or refused exactly when more than 2000 are counted; pending timers stay on schedule |
| TimerManager.Manager.ModTimer | src/lib/tmr_init.c:141-170 | an idle timer is armed again for a number of seconds, converted in 32 bits |
| TimerManager.Manager.StopTimer | src/lib/tmr_init.c:207-222 | a running timer leaves its wheel and the count, an idle one is left alone |
| TimerManager.Manager.GetRemainingTime | src/lib/update.c:151-168 | nothing for an idle timer; for a pending one on schedule what is left to its nominal expiry, which is positive, or zero exactly when that does not fit a signed word |
| DrElection.BestUnique | src/ospf/ospf_ism.c:55-69 | priority, then router id, then place in the list leave one best router |
| DrElection.ElectionSub | src/ospf/ospf_ism.c:49-72 | the pass over a list finds the best router of it, none exactly for the empty list |
| DrElection.OspfInterface.EligibleRouters | src/ospf/ospf_ism.c:165-180 | the list holds exactly the routers with an id, of positive priority and in two-way contact |
| DrElection.OspfInterface.ElectBdr | src/ospf/ospf_ism.c:112-152 | stores the best of those claiming to be Backup, else of those not claiming to be DR |
| DrElection.OspfInterface.ElectDr | src/ospf/ospf_ism.c:74-110 | stores the best of those claiming to be DR, else the Backup just stored |
| DrElection.OspfInterface.DrChange | src/ospf/ospf_ism.c:182-198 | every other router in two-way contact is told, in order |
| DrElection.ToldExactly | src/ospf/ospf_ism.c:182-198 | exactly which routers are told of a change, each once and in order |
| DrElection.OspfInterface.Election | src/ospf/ospf_ism.c:200-247 | the election with its conditional second round; neighbours are told exactly when DR or BDR changed |
| DrElection.RoundByClaims | src/ospf/ospf_ism.c:84-93 | a round depends on the router's own claims and on nothing else it stores |
| DrElection.RoundElects | src/ospf/ospf_ism.c:49-180 | in terms of the neighbours' fields: only routers with an id, of positive priority and in two-way contact are elected; who wins, by priority, id and place, as Backup and as DR; zero is stored exactly for nobody |
| DrElection.ElectRounds | src/ospf/ospf_ism.c:218-237 | exactly when a second round is held, and the state that results |
| DrElection.TwoRoundsSettle | src/ospf/ospf_ism.c:218-237 | two rounds settle the election from whatever was stored, and never on both roles |
| DrElection.OneRoundSettlesExactly | src/ospf/ospf_ism.c:74-152 | one round settles the election exactly unless the router takes both roles or is outclaimed as DR with no better Backup than itself |
| DrElection.ElectSettles | src/ospf/ospf_ism.c:200-247 | from agreement with the interface state the election settles, agrees again and never gives both roles |
| DrElection.ElectStable | src/ospf/ospf_ism.c:241-246 | a second election over unchanged neighbours gives the same DR, BDR and state and tells nobody |
| DrElection.ElectStableExactly | src/ospf/ospf_ism.c:200-247 | whatever is stored, a second election changes nothing exactly unless a router in state DR takes both roles or one said to hold no role is outclaimed |
| DrElection.BothExactly | src/ospf/ospf_ism.c:227-237 | the router ends as both DR and Backup exactly when its state is DR, its own address is not stored as DR, nobody claims to be DR and it is elected Backup |
| DrElection.StaleDrTakesBoth | src/ospf/ospf_ism.c:227-237 | a concrete interface for which that happens |
| Ism.EarlyCheckIdle | src/ospf/ospf_ism.c:568-569 | the border check made before the count is brought up to date changes nothing |
| Ism.EnteredSound | src/ospf/ospf_ism.c:535-603 | entering a state keeps counts and flag exact, the zero guard never acts, and a route calculation is scheduled exactly when the flag changes |
| Ism.TableAgrees | src/ospf/ospf_ism.c:425-521 | the rule for next states agrees with the table in every state for every event |
| Ism.NextByTables | src/ospf/ospf_ism.c:354-521 | every event does in every state what the handler in the table does, with the state the handler or the table names |
| Ism.RunSound | src/ospf/ospf_ism.c:605-635 | over every run an area's count is the number of its interfaces not in Down and the flag is what the counts say |
| Ism.StandardFlag | src/ospf/ospf_abr.c:535-543 | a standard border router's flag means interfaces up in more than one area |
| Ism.CiscoFlag | src/ospf/ospf_abr.c:552-557 | a Cisco border router's flag means interfaces in more than one area and one up in the backbone |
| Ism.IbmFlag | src/ospf/ospf_abr.c:545-550 | an IBM one's means interfaces up in more than one area and one in the backbone |
| Ism.RunNeverBoth | src/ospf/ospf_ism.c:428-521 | in every reachable state no election leaves the router both DR and Backup |
| Ism.RunStable | src/ospf/ospf_ism.c:428-521 | in every state reached with no loopback indication to an interface in a role the next election is stable |
| Ism.RunStableExactly | src/ospf/ospf_ism.c:428-521 | in every reachable state the next election is stable exactly unless the interface is said to hold no role and is outclaimed |
| Ism.LoopKeepsAgreement | src/ospf/ospf_ism.c:380-389 | a loopback indication keeps the agreement exactly when the interface holds no role |
| Ism.StaleAfterLoop | src/ospf/ospf_ism.c:455-465 | a DR looped back, freed and brought up waits with its old role stored |
| Ism.StaleElectionUnstable | src/ospf/ospf_ism.c:227-228 | a concrete election from there that a second one changes |
| Ism.Ospf.CountAreas | src/ospf/ospf_abr.c:504-521 | the walk counts configured and active areas and sees whether the backbone is among them |
| Ism.Ospf.CheckAbrStatus | src/ospf/ospf_abr.c:490-570 | sets the flag by border router type and schedules a calculation when it changes |
| Ism.Ospf.Recount | src/ospf/ospf_ism.c:571-578 | the count follows an interface into and out of Down |
| Ism.Ospf.ChangeState | src/ospf/ospf_ism.c:535-603 | entering a state in place is entering it in the state machine |
| Ism.Ospf.Action | src/ospf/ospf_ism.c:354-425 | the handlers: elections, bringing up and bringing down, and what state they ask for |
| Ism.Ospf.IsmEvent | src/ospf/ospf_ism.c:605-635 | handling an event in place is the step of the state machine |
| Lsdb.SumWithout | src/ospf/ospf_lsdb.c:94-98 | a sum over the stored instances does not depend on the order they are taken in |
| Lsdb.RecomputedWith | src/ospf/ospf_lsdb.c:132-141 | counting an instance in is what recomputing the counters gives, checksums modulo two to the 32 |
| Lsdb.RecomputedWithout | src/ospf/ospf_lsdb.c:94-97 | counting an instance out is what recomputing the counters gives |
| Lsdb.Database.DeleteEntry | src/ospf/ospf_lsdb.c:84-107 | takes an entry out and keeps every counter equal to the recomputed one |
| Lsdb.Database.Add | src/ospf/ospf_lsdb.c:109-143 | stores an instance in place of any other with its key, adding it again changes nothing, counters stay exact |
| Lsdb.Database.Delete | src/ospf/ospf_lsdb.c:145-177 | deletes this very instance only |
| Lsdb.Database.DeleteAll | src/ospf/ospf_lsdb.c:179-193 | leaves an empty database with every counter zero |
| Flood.RecentMeans | src/ospf/ospf_lsa.c:3147-3187 | when an instance is the more recent, by the order of section 13.1 |
| Flood.RecentSymmetric | src/ospf/ospf_lsa.c:3147-3187 | the comparison does not depend on which instance is named first, and an instance counts as the same as itself |
| Flood.RecentTransitive | src/ospf/ospf_lsa.c:3147-3187 | being more recent is transitive |
| Flood.SameNotTransitive | src/ospf/ospf_lsa.c:3179-3186 | counting as the same is not |
| Flood.SameChain | src/ospf/ospf_lsa.c:3179-3186 | exactly when it is, for two instances the same as a third |
| Flood.AddExact | src/ospf/ospf_flood.c:858-886 | adding to a list, with or without replacement, keeps every counter equal to the number of lists holding that instance |
| Flood.DeleteExact | src/ospf/ospf_flood.c:888-901 | deleting keeps the counters exact if and only if the instance given is the one listed, or none is |
| Flood.DeleteOther | src/ospf/ospf_flood.c:888-901 | a concrete deletion of another instance, after which a counter is negative |
| Flood.RunExact | src/ospf/ospf_flood.c:858-974 | in every reachable state, with instances learned and ageing and neighbours joining, changing and leaving, a counter is the number of neighbours listing that very instance, zero exactly when none does |
| Flood.LeaveExact | src/ospf/ospf_neighbor.c:116-118 | a neighbour that leaves with its list keeps the counters exact |
| Flood.FloodedMeans | src/ospf/ospf_flood.c:381-486 | a neighbour the LSA should reach lists an instance at least as recent, every other list stays, and other LSAs are untouched |
| Flood.FloodedNeverOlder | src/ospf/ospf_flood.c:864-885 | what is listed afterwards is never less recent than what was |
| Flood.FloodReaches | src/ospf/ospf_flood.c:344-487 | after a flood every neighbour in Exchange or above on an interface flooded, other than the sender and those known to have an instance as recent, lists an instance at least as recent; no other list changes |
| Flood.FloodExactly | src/ospf/ospf_flood.c:344-487 | the whole effect of a flood on one neighbour: the request it answers is gone, the LSA is listed unless the neighbour is left out or has an instance as recent listed, everything else stays |
| Flood.AsOutExactly | src/ospf/ospf_flood.c:608-672 | exactly the interfaces an AS-wide flood goes out of |
| Flood.AreaOutExactly | src/ospf/ospf_flood.c:573-577 | exactly those an area-wide flood goes out of |
| Flood.AreaScope | src/ospf/ospf_flood.c:562-597 | an area-wide flood changes only neighbours of that area, over virtual links only in the backbone |
| Flood.AsScope | src/ospf/ospf_flood.c:599-677 | an AS-wide flood of Type 5 touches no stub or NSSA neighbour, of Type 7 only its own area |
| Flood.AsFlooded | src/ospf/ospf_flood.c:599-677 | an AS-wide flood has that effect on the neighbours on enabled interfaces of ordinary areas (Type 7: of its own NSSA) and on no other |
| Flood.AreaFlooded | src/ospf/ospf_flood.c:561-597 | an area-wide flood on those of the area |
| Flood.SentExactly | src/ospf/ospf_flood.c:489-559 | exactly the interfaces the LSA is sent out of, and when an acknowledgement is asked for |
| Flood.PurgedExactly | src/ospf/ospf_flood.c:934-953 | purging takes an LSA off a list exactly where the interface is covered and enabled and the instance listed has its sequence number |
| Flood.Flooding.RetransmitAdd | src/ospf/ospf_flood.c:858-886 | the list and all counters after adding |
| Flood.Flooding.RetransmitDelete | src/ospf/ospf_flood.c:888-901 | the list and the counter after deleting, whatever instance is given |
| Flood.Flooding.RetransmitClear | src/ospf/ospf_flood.c:903-925 | empties a list and keeps all counters exact |
| Flood.Flooding.NbrDelete | src/ospf/ospf_neighbor.c:104-123 | a neighbour goes away, its list cleared first, and the counters stay exact |
| Flood.Flooding.RetransmitDeleteNbrIf | src/ospf/ospf_flood.c:934-953 | no neighbour of an enabled interface lists an instance with this sequence number afterwards; instances with another one stay |
| Flood.Flooding.RetransmitDeleteNbrArea | src/ospf/ospf_flood.c:955-964 | the same for every interface of an area |
| Flood.Flooding.RetransmitDeleteNbrAs | src/ospf/ospf_flood.c:966-974 | the same for every interface |
| Flood.Flooding.FloodNbr | src/ospf/ospf_flood.c:368-487 | what happens to the request and retransmission list of one neighbour |
| Flood.Flooding.FloodThroughInterface | src/ospf/ospf_flood.c:344-559 | every neighbour of the interface is considered; the LSA is sent unless it came in there from DR or Backup or this router is Backup; otherwise an acknowledgement is asked for exactly when it came in there |
| Flood.Flooding.FloodThroughArea | src/ospf/ospf_flood.c:561-597 | every eligible interface of the area is flooded and no other |
| Flood.Flooding.FloodThroughAs | src/ospf/ospf_flood.c:599-677 | every eligible interface of every area the LSA may enter is flooded and no other |
| MaxAge.FloodKeepsScope | src/ospf/ospf_flood.c:561-677 | flooding puts LSAs only on lists of neighbours in their scope |
| MaxAge.FloodTells | src/ospf/ospf_flood.c:381-486 | a flood puts the very instance on the list of every neighbour it reaches that has no more recent one to acknowledge |
| MaxAge.SameSlot | src/ospf/ospf_lsa.c:2538-2562 | two instances share a place exactly when they are of the same LSA and, unless it is external, of the same area |
| MaxAge.PurgeOthers | src/ospf/ospf_lsa.c:2563-2581 | purging an LSA changes the counter of no instance stored elsewhere |
| MaxAge.PurgeThins | src/ospf/ospf_flood.c:925-974 | purging an LSA takes nothing stored elsewhere off any list |
| MaxAge.PurgeWithdraws | src/ospf/ospf_lsa.c:2563-2581 | purging leaves no neighbour in scope on an enabled interface with the instance, and its counter at zero if all interfaces are enabled |
| MaxAge.WaitsForAck | src/ospf/ospf_lsa.c:2830-2834 | a listed LSA waits exactly when some neighbour's retransmission list holds it |
| MaxAge.ListedWaits | src/ospf/ospf_lsa.c:2830-2834 | an LSA on the MaxAge list stays there while any retransmission list holds it |
| MaxAge.RemovedExactly | src/ospf/ospf_lsa.c:2825-2862 | left on the MaxAge list are exactly the LSAs some neighbour lists, and what leaves the database is exactly where the others were |
| MaxAge.Aging.CheckNbrStatus | src/ospf/ospf_lsa.c:2786-2808 | whether no neighbour on an enabled interface is in Exchange or Loading |
| MaxAge.Aging.LsaMaxage | src/ospf/ospf_lsa.c:2892-2918 | a stored LSA goes on the list, once |
| MaxAge.Aging.FlushArea | src/ospf/ospf_flood.c:980-986 | a flushed LSA is at MaxAge, on the MaxAge list and on the retransmission list of every neighbour to be told |
| MaxAge.Aging.FlushAs | src/ospf/ospf_flood.c:988-994 | the same through the whole AS |
| MaxAge.Aging.LsaMaxageDelete | src/ospf/ospf_lsa.c:2879-2890 | takes an LSA off the list and leaves the others in order |
| MaxAge.Aging.DiscardFromDb | src/ospf/ospf_lsa.c:2538-2585 | the stored instance is listed by no neighbour in its scope on an enabled interface, and is off the MaxAge list |
| MaxAge.Aging.Install | src/ospf/ospf_lsa.c:2690-2700 | a new instance takes the slot; the one replaced is listed by no neighbour in its scope on an enabled interface, and is off the MaxAge list |
| MaxAge.Aging.RemoveOne | src/ospf/ospf_lsa.c:2857-2862 | an LSA leaves the database and the MaxAge list and is listed by no neighbour in its scope on an enabled interface; other counters unchanged |
| MaxAge.Aging.Remover | src/ospf/ospf_lsa.c:2812-2877 | nothing is removed while databases are exchanged; otherwise exactly the listed LSAs on no retransmission list are, retransmission lists lose nothing else, and the remover comes again exactly when some are left; an LSA some neighbour has to acknowledge stays |
| TransitArea.SameOffers | src/ospf/ospf_ia.c:49-69 | the pass never changes a route to a border router through a transit area, so no summary's offer changes |
| TransitArea.FindFirst | src/ospf/ospf_ia.c:49-69 | the search for a route through an area finds the first one, and none only if there is none |
| TransitArea.OfferExactly | src/ospf/ospf_ia.c:324-333 | a summary offers something exactly when it is finite, not aged, not own and its advertiser is a border router with a route through the area; it offers the cost of the first such route plus its metric, in 32 bits, by the next hops of that route |
| TransitArea.WorkExactly | src/ospf/ospf_ia.c:636-639 | the pass looks at exactly the summaries received in transit areas other than the backbone |
| TransitArea.SettledUnique | src/ospf/ospf_ia.c:398-432 | least cost, next hops of all ways of that cost, and nothing else changed pin a route down |
| TransitArea.NetworkSettled | src/ospf/ospf_ia.c:306-433 | after the pass a backbone network route has the least of its own cost and of all usable summaries for it, area and path type unchanged |
| TransitArea.NetworkKept | src/ospf/ospf_ia.c:337-396 | every other network route is left as it is and none appears |
| TransitArea.NetworkLeast | src/ospf/ospf_ia.c:306-433 | after the pass an internal backbone route to a network has the least of its own cost and of route cost plus metric over all summaries of use, with the next hops of every way of that cost; every other route to a network is as it was |
| TransitArea.RouterSettled | src/ospf/ospf_ia.c:435-530 | the same for the backbone route to a boundary router |
| TransitArea.RouterKept | src/ospf/ospf_ia.c:462-513 | every other route to a router is left as it is |
| TransitArea.RouterLeast | src/ospf/ospf_ia.c:435-530 | likewise the first backbone route to a boundary router, and every other route to a router is as it was |
| TransitArea.OrderIndependent | src/ospf/ospf_ia.c:590-601 | both tables are the same whatever the order of areas and summaries |
| TransitArea.RoutingTables.FindOffer | src/ospf/ospf_ia.c:324-333 | the cost by way of the advertising router, if there is a route to it through that area |
| TransitArea.RoutingTables.UpdateNetworkRoute | src/ospf/ospf_ia.c:306-433 | one summary applied to the network table in place |
| TransitArea.RoutingTables.UpdateRouterRoute | src/ospf/ospf_ia.c:435-530 | one summary applied to the router table in place |
| TransitArea.RoutingTables.ProcessTransitSummary | src/ospf/ospf_ia.c:532-588 | unusable summaries change nothing |
| TransitArea.RoutingTables.ExamineTransitSummaries | src/ospf/ospf_ia.c:590-601 | all summaries of an area applied in turn |
| TransitArea.RoutingTables.TransitPass | src/ospf/ospf_ia.c:636-639 | the pass over all transit areas but the backbone |
| AbrTask.TaskSweeps | src/ospf/ospf_abr.c:1836-1884 | after a run the router's own summaries announced in it are approved with the cost announced last, every other own one is at MaxAge, and those of other routers are untouched |
| AbrTask.NotBorderSweepsAll | src/ospf/ospf_abr.c:1857-1878 | a router that is no border router ages out all of its summaries |
| AbrTask.NothingLeaks | src/ospf/ospf_abr.c:874-951 | every announcement comes from a route, an active range or a default that belongs in that area: never into the route's own area, nothing inter-area into the backbone |
| AbrTask.SurvivorSourced | src/ospf/ospf_abr.c:1694-1724 | so does every approved own summary left after a run |
| AbrTask.NetworkComplete | src/ospf/ospf_abr.c:888-950 | every route to be announced is announced, or counted towards its range, for every area it may go into |
| AbrTask.NetworkAnnouncedExactly | src/ospf/ospf_abr.c:874-951 | a network is announced into an area with a cost exactly when a route to it with that cost belongs there |
| AbrTask.RouterAnnouncedExactly | src/ospf/ospf_abr.c:1183-1234 | the same for boundary routers |
| AbrTask.AnnouncedExactly | src/ospf/ospf_abr.c:1836-1884 | a run announces exactly what has a route, an active range or a default as its source |
| AbrTask.RangeCost | src/ospf/ospf_abr.c:572-602 | a range counts what it gathers and carries its configured cost or the largest gathered |
| AbrTask.RangeStandsForRoutes | src/ospf/ospf_abr.c:944-948 | a range is active exactly when some route counts towards it, and without a configured cost carries the largest cost of those routes |
| AbrTask.NoSummaryExactly | src/ospf/ospf_abr.c:1474-1501 | an area configured for no summaries gets one other than the default exactly when an advertised range of another area has a route counted towards it |
| AbrTask.NoSummaryBroken | src/ospf/ospf_abr.c:1474-1501 | a concrete configuration in which it does |
| AbrTask.RevivedExactly | src/ospf/ospf_abr.c:747-754 | a summary announced while at MaxAge stays at MaxAge exactly when its cost is unchanged |
| AbrTask.RevivedBySource | src/ospf/ospf_abr.c:747-754 | in terms of routes: a summary with a source stays at MaxAge exactly when it was there and no source has another cost |
| AbrTask.NotRevived | src/ospf/ospf_abr.c:747-754 | a concrete summary that is approved and still at MaxAge |
| AbrTask.Abr.UnapproveSummaries | src/ospf/ospf_abr.c:1362-1402 | clears the approval of every own summary and of no other |
| AbrTask.Abr.PrepareAggregates | src/ospf/ospf_abr.c:1404-1427 | every range starts a run empty |
| AbrTask.Abr.AnnounceToArea | src/ospf/ospf_abr.c:730-804 | an unchanged summary is approved, any other originated anew |
| AbrTask.Abr.UpdateAggregate | src/ospf/ospf_abr.c:572-602 | one route counted towards a range |
| AbrTask.Abr.AnnounceNetworkTo | src/ospf/ospf_abr.c:894-949 | what a network route gives rise to in one area |
| AbrTask.Abr.AnnounceNetwork | src/ospf/ospf_abr.c:874-951 | and in all areas |
| AbrTask.Abr.MayAnnounce | src/ospf/ospf_abr.c:1027-1102 | the checks pass over exactly the routes that are not announced |
| AbrTask.Abr.ProcessNetworkRt | src/ospf/ospf_abr.c:1014-1110 | every route that may be announced is, no other |
| AbrTask.Abr.AnnounceRtr | src/ospf/ospf_abr.c:1183-1234 | a boundary router is announced into every area that takes external routes and is not on the way to it |
| AbrTask.Abr.MayAnnounceRtr | src/ospf/ospf_abr.c:1298-1324 | the same for the best routes to boundary routers |
| AbrTask.Abr.ProcessRouterRt | src/ospf/ospf_abr.c:1298-1326 | the best route to each boundary router is announced |
| AbrTask.Abr.AnnounceAggregates | src/ospf/ospf_abr.c:1429-1508 | active ranges to be advertised are announced into all other areas, backbone ranges into no transit area |
| AbrTask.Abr.AnnounceStubDefaults | src/ospf/ospf_abr.c:1615-1655 | the default goes into stub areas and NSSAs other than the backbone |
| AbrTask.Abr.RemoveUnapprovedSummaries | src/ospf/ospf_abr.c:1694-1724 | sets every unapproved own summary to MaxAge and no other |
| AbrTask.Abr.Run | src/ospf/ospf_abr.c:1836-1884 | one border run in place does what the model of it says |
| MemPool.PaddingHoldsBlock | src/lib/mem_main.c:68-82 | an address past the last block passes the range check exactly when the padding holds a block |
| MemPool.PaddedPool | src/lib/mem_main.c:68-82 | a concrete pool with room for a block in its padding |
| MemPool.Pool.constructor | src/lib/mem_main.c:137-157 | every block is free and known by its address |
| MemPool.Pool.AllocBlock | src/lib/mem_main.c:187-208 | hands out a block not in use, refused exactly when none is left |
| MemPool.Pool.FreeBlk | src/lib/mem_main.c:210-241 | takes back a block exactly if it is in use; wrong addresses and double frees change nothing |
| MemPool.Pool.UsedBound | src/lib/mem_main.c:187-241 | no more blocks are in use than there are |
| HashTable.DeletedOk | src/lib/hashlib.c:122-140 | splicing a block out leaves all chains linked, each block in the chain of its key once |
| HashTable.InsertedOk | src/lib/hashlib.c:161-189 | hanging a block behind its chain does too |
| HashTable.HashTbl.Find | src/lib/hashlib.c:73-94 | the chain walk finds the block of a key, with the one before it, if and only if the key is in the table |
| HashTable.HashTbl.Lookup | src/lib/hashlib.c:96-105 | the data of a key |
| HashTable.HashTbl.DeleteEntry | src/lib/hashlib.c:107-143 | takes a key out, changing only the link that led to its block, and gives the block back |
| HashTable.HashTbl.AddEntry | src/lib/hashlib.c:145-193 | adds a new key at the end of its chain, refused exactly when no block is left; an old key changes nothing |
| Fdb.InsertedStandsFor | src/bridge/fdb.c:119-134 | a key added with a new data block adds its entry to the map |
| Fdb.DeletedStandsFor | src/bridge/fdb.c:136-145 | a key taken out with its data block takes its entry out of the map |
| Fdb.ForwardingDb.CountsAgree | src/bridge/fdb.c:49-78 | in every state entries, table count, nodes in use and data blocks in use are equally many, at most 1024 |
| Fdb.ForwardingDb.FdbAddEntry | src/bridge/fdb.c:119-134 | a new address is added, refused exactly when 1024 entries are live; a refusal changes no mapping and loses no block |
| Fdb.ForwardingDb.FdbDeleteEntry | src/bridge/fdb.c:142-145 | an entry leaves the map and both of its blocks go back |
| Fdb.ForwardingDb.MacAddressUpdate | src/bridge/fdb.c:80-107 | static entries stay, known ones move and are refreshed, new ones are added, and the discard counter rises exactly on refusal |
| Fdb.LearnedExactly | src/bridge/fdb.c:80-134 | entry by entry: who is learned on what port until when, and who stays |
| Fdb.LearnedLives | src/bridge/fdb.c:80-169 | an address learned or seen again at a time is there when the database is aged if and only if that is before the ageing time is over, on the port last seen; a static one keeps port and expiry |
| Fdb.AheadAfterDelete | src/lib/hashlib.c:255-258 | deleting the block under the cursor changes no block the walk has still to come to, nor the link it follows next |
| Fdb.ForwardingDb.WalkSlot | src/lib/hashlib.c:251-260 | the walk of one chain visits each of its entries once and deletes exactly the expired ones |
| Fdb.ForwardingDb.AgingTimerExpired | src/bridge/fdb.c:156-169 | ageing visits every entry, static ones included, exactly once and leaves exactly those that expire later |

## Left out

- Timer handlers, repeating timers, `timer_restart`, and arming a timer that is pending: outside the contract of the manager.
- TimerManager.Manager.ModTimer: requires the timer not to be pending; the code would then file it twice.
- TimerManager.Manager.StopTimer: requires a timer whose running flag says whether this manager has it pending.
- TimerRun.TimerFiresExactly: up to the wrap of the 32-bit tick clock; `TimerRun.AdvanceSynced` shows the clocks go out of step there.
- Timer records: the two records the code keeps per timer are one object, and filing a timer allocates a new link node that
  carries its key instead of rewriting the key in place.
- TimerManager.Manager.UpdateTimes: the service runs within the tick; the code may hand it to another thread.
- HashTable.HashTbl.DeleteEntry: returns the data to be released instead of calling a release function.
- Fdb: Jenkins hashing is any function into the buckets; creation of the table and its failure paths are not modelled.
- Ism.Ospf.ChangeState: multicast membership, LSA origination, timers and SNMP traps of a state change.
- Ism.Ospf.Action: an interface brought down forgets its neighbours at once; the code kills them through their own state machines.
- Lsdb.Database.Add: an instance's self flag and checksum are fixed while it is stored; lock counts are not modelled.
- Lsdb.Database.DeleteEntry: lock counts, likewise.
- Flood.Flooding.FloodNbr: the loading-done event after a request is answered.
- Flood.Flooding.FloodThroughInterface: opaque LSAs, and separate copies on non-broadcast networks.
- MaxAge.Aging.LsaMaxage: requires the instance that is stored; with another one the remover would withdraw the stored one.
- MaxAge.Aging.FlushArea: requires the stored instance and floods it through its own area, as its callers do; likewise
  `MaxAge.Aging.FlushAs`, which is for external and Type 7 LSAs.
- MaxAge.Aging.Remover: LSAs aged prematurely to renew their sequence number, and yielding to other threads.
- TransitArea: Shortcut border routers, which may add routes and change their area.
- AbrTask.Abr.MayAnnounceRtr: whether a router is a boundary router, and which route to it is the best, are inputs; likewise
  `AbrTask.Abr.ProcessRouterRt`.
- AbrTask.Abr.Run: discard routes.
- MemPool.Pool.constructor: requires padding smaller than a block; in any other pool a block past the last one could be given
  back, which writes outside the array (`MemPool.PaddingHoldsBlock` says which pools those are).
- Fdb.ForwardingDb.FdbAddEntry: requires a new address; its one caller has just failed to find it.
- AbrTask: translation of Type 7 LSAs, discard routes, and the choice of the best route to a boundary router, which is an input.
- `ospf_ase.c`, the part of `ospf_ia.c` outside transit areas, packet and LSA encoding, command line, SNMP and logging.
