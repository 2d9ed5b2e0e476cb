# PCQuestSystem quest core in Dafny

This project models the quest state machine and event router of PCQuestSystem. PCQuestSystem is a quest plugin for Unreal Engine, and two revisions of its core sit side by side in the repository:

- **The Actors revision** (`Public/Actors/QuestManager.h`, `Private/Actors/QuestManager.cpp`), modelled by the modules `Objectives`, `Quests`, `ActorRouting` and `ActorQuestManager`:
  - five objective kinds: GoTo, TalkWith, Kill, Gather and Catch;
  - gameplay tags;
  - an "all players" gate that records the distinct player controllers that completed a step;
  - a manager actor, `AQuestManager`.
- **The older revision** (`Public/QuestManager.h`, `Private/QuestManager.cpp`), modelled by the modules `EnumText`, `LegacyObjectives`, `LegacyQuests`, `LegacyRouting` and `LegacyQuestManager`:
  - four objective kinds, identified by enums;
  - step descriptions built from enum names;
  - a manager component, `UQuestManager`.

`Common` holds the list operations both revisions share: Unreal's `TArray::AddUnique`, `TArray::Remove` and `TArray::Sort`, and an option type standing in for a nullable pointer.

How the model is built:

- **Objectives** are datatypes. Each handler (arrival, talk, kill, gather, catch, reset) is a function returning the updated objective.
- **Quests** are datatypes holding their objectives in step order.
  - `Init` is a method with the source's collection loops followed by the sort.
  - `ResetQuest` is a method with the source's reset loop.
  - The remaining quest queries are functions.
- **Each manager** is a class. Its fields are:
  - the registry of all quests;
  - the active list of quest IDs, which may hold an ID twice;
  - the focused quest, as an optional quest ID;
  - the IDs whose completion waits for the next tick, standing in for the engine's next-tick timer;
  - a log of the delegate broadcasts.
- **The four event handlers** are nested `while` loops over the active list and each quest's objectives, as in the source. Each loop is proved equal to a fold (`RouteActive`), and the lemmas about that fold state what routing does as a whole:
  - for any active list, duplicates included, only matching, incomplete objectives of active quests change (`RouteActiveLeavesUnmatched`);
  - an event nobody matches is a no-op;
  - with no duplicates, every active quest advances exactly once;
  - exactly the completed quests are scheduled for the next tick and exactly the completed steps are reported (`RouteSchedulesExactly`), and everything routing adds names an active quest (`RouteActiveAdds`), in both revisions;
  - a quest active twice is advanced twice.

Points where the code's behaviour is easy to misread:

- `ResetStepQuest` clears only the completed flag. The kill, gather and catch counters and the recorded controllers survive a reset. `Objectives.KillAfterResetCompletesAtOnce` and `LegacyObjectives.KillAfterResetCompletesAtOnce` show the consequence: the first kill after a reset can complete the step at once.
- The current step of a quest is not stored anywhere. It is always recomputed as the first incomplete objective, from the objectives' completed flags. The rest of the progress lives in the objectives too: the counters and the recorded controllers.
- Completing a quest removes it from the active list but does not move the focus.
- In both revisions `GetCurrentObjective`, and the manager's `GetCurrentQuestCurrentObjective` built on it, return an `FQuestStepObjective` by value. The copy keeps only the base struct's fields and loses the kind's own (place, entity, counters), and the model returns that base part (`Objectives.Base`, `LegacyObjectives.Base`).
- The Actors revision resets a quest on activation when it has started. The older revision resets it only when it is completed.

The Actors `.cpp` was written against older signatures than its header:

- Objective semantics come from the header. In particular, the controller that triggered an event is a parameter of every handler, and the number of connected players is a parameter too.
- Control flow comes from the `.cpp`.
- The focus is an optional quest ID.

## Model

| member | source | states |
|---|---|---|
| Common.AddUnique | Source/PCQuestSystem/Public/Actors/QuestManager.h:182 | `AddUnique` appends x only when absent. The result holds exactly the old elements and x, its length grows by one iff x was new, and it keeps a list free of duplicates. |
| Common.RemoveAll | Source/PCQuestSystem/Private/Actors/QuestManager.cpp:82-88 | `Remove` drops every occurrence of x: x is absent afterwards, every other element survives with its multiplicity, and the result is never longer. |
| Common.RemoveAbsent | Source/PCQuestSystem/Private/Actors/QuestManager.cpp:82-88 | Removing an ID that is not in the list leaves the list unchanged. |
| Common.RemoveConcat | Source/PCQuestSystem/Private/Actors/QuestManager.cpp:82-88 | Removal keeps the relative order of the survivors: it distributes over concatenation. |
| Common.RemoveEach | Source/PCQuestSystem/Private/Actors/QuestManager.cpp:378-385 | Removing a series of IDs leaves exactly the elements not in the series. |
| Common.InsertBy | Source/PCQuestSystem/Public/Actors/QuestManager.h:504 | Inserting into a list sorted by key keeps it sorted and adds exactly one element. |
| Common.SortBy | Source/PCQuestSystem/Public/Actors/QuestManager.h:504 | The sort of `ObjectivesArray` by step order has an ascending result that is a permutation of its input. |
| Common.InsertByDistinct | Source/PCQuestSystem/Public/Actors/QuestManager.h:504 | Inserting an element with a fresh key keeps the keys distinct. |
| Common.SortByDistinct | Source/PCQuestSystem/Public/Actors/QuestManager.h:504 | Sorting keeps step orders distinct when they were distinct. |
| Objectives.TypeOf | Source/PCQuestSystem/Public/Actors/QuestManager.h:28-36 | The step type each kind's constructor sets is None iff the objective is the base struct, not one of the five kinds. |
| Objectives.Base | Source/PCQuestSystem/Public/Actors/QuestManager.h:539-549 | A copy into the base struct keeps order, parent quest, gate flag, completed flag, recorded controllers and the step type, and nothing of the kind's own fields. |
| Objectives.DefaultObjective | Source/PCQuestSystem/Public/Actors/QuestManager.h:92-97 | The default objective has order -1, is not completed and has no step type. |
| Objectives.OnCompleted | Source/PCQuestSystem/Public/Actors/QuestManager.h:170-184 | A null controller changes nothing. Without the gate the step becomes completed. With the gate the controller is recorded once, the recorded controllers stay free of duplicates, the step is completed iff their number equals the player count, and nothing else changes. |
| Objectives.OnArrivedToPlace | Source/PCQuestSystem/Public/Actors/QuestManager.h:252 | Arrival completes a GoTo step through `OnCompleted`. A null controller changes nothing. An ungated step becomes completed and nothing else changes. A gated step's controllers become exactly the old ones plus the player, with no duplicate added, and it is completed iff their number equals the player count; a player already recorded leaves the controllers as they were. Only the completed flag and the controllers change. |
| Objectives.OnTalkedWithEntity | Source/PCQuestSystem/Public/Actors/QuestManager.h:291 | Talking completes a TalkWith step through `OnCompleted`, by the same clauses as arrival. A null controller changes nothing. An ungated step becomes completed and nothing else changes. A gated step's controllers become exactly the old ones plus the player, without duplicates, and it is completed iff their number equals the player count. Only the completed flag and the controllers change. |
| Objectives.IsValid | Source/PCQuestSystem/Public/Actors/QuestManager.h:219-222 | Valid iff the order is positive and the step has a real type; the default objective is never valid. |
| Objectives.Progress | Source/PCQuestSystem/Public/Actors/QuestManager.h:328-335 | The shared counting rule. Only the completed flag and the recorded controllers can change. Completed implies count >= target. Without a gate or a controller, completed is exactly count >= target and the controllers are kept. At the target with the gate, the controllers become the old ones plus this one, and the step is completed iff their number equals the player count. No controller is recorded twice. |
| Objectives.OnEntityKilled | Source/PCQuestSystem/Public/Actors/QuestManager.h:328-335 | One kill raises the counter by exactly 1. Without a gate or without a controller, completed is exactly counter >= AmountToKill and the controllers are kept. Below the target the controllers are kept too. At the target with the gate, the controllers become exactly the old ones plus the player, and the step is completed iff their number equals the player count. Completion implies counter >= AmountToKill, the gate invariant is preserved, and nothing but the counter, the flag and the controllers changes. |
| Objectives.OnItemGathered | Source/PCQuestSystem/Public/Actors/QuestManager.h:369-377 | The gathered amount is added to the counter. Without a gate or without a controller, completed is exactly counter >= AmountToGather and the controllers are kept. Below the target the controllers are kept too. At the target with the gate, the controllers become exactly the old ones plus the player, and the step is completed iff their number equals the player count. Completion implies counter >= AmountToGather, the gate invariant is preserved, and nothing but the counter, the flag and the controllers changes. |
| Objectives.OnCatched | Source/PCQuestSystem/Public/Actors/QuestManager.h:407-414 | One catch raises the counter by 1. Without a gate or without a controller, completed is exactly counter >= AmountNeeded and the controllers are kept. Below the target the controllers are kept too. At the target with the gate, the controllers become exactly the old ones plus the player, and the step is completed iff their number equals the player count. Completion implies counter >= AmountNeeded, the gate invariant is preserved, and nothing but the counter, the flag and the controllers changes. |
| Objectives.ResetStepQuest | Source/PCQuestSystem/Public/Actors/QuestManager.h:186-190 | A reset clears the completed flag and keeps the counters, the recorded controllers, the order and the parent. |
| Objectives.SetCompleted | Source/PCQuestSystem/Public/Actors/QuestManager.h:206-210 | The step is marked completed whatever its progress, and nothing else changes. |
| Objectives.AllPlayersGate | Source/PCQuestSystem/Public/Actors/QuestManager.h:182-183 | After any series of triggers from a consistent start, the recorded controllers are exactly the old ones plus the distinct triggering ones, with no duplicate. The step is completed iff their number equals the player count. |
| Objectives.RepeatedControllerIsNoOp | Source/PCQuestSystem/Public/Actors/QuestManager.h:182-183 | A repeated trigger from a recorded controller changes nothing. |
| Objectives.ThreePlayerGate | Source/PCQuestSystem/Public/Actors/QuestManager.h:170-184 | With three players, two triggers leave the step open, the third completes it, and a repeat then changes nothing. |
| Objectives.KillAfterResetCompletesAtOnce | Source/PCQuestSystem/Public/Actors/QuestManager.h:186-190 | Because a reset keeps the kill counter, a Kill step that had reached its target completes again on the next kill. |
| Quests.DefaultQuest | Source/PCQuestSystem/Public/Actors/QuestManager.h:448 | The default quest has ID -1 and no objectives. |
| Quests.BuildEach | Source/PCQuestSystem/Public/Actors/QuestManager.h:479-502 | One collection loop of `Init` builds one objective per map entry, in entry order. |
| Quests.UnsortedOrders | Source/PCQuestSystem/Public/Actors/QuestManager.h:479-502 | The objectives collected before the sort carry the row's keys as their orders, map after map. |
| Quests.UnsortedCoversRow | Source/PCQuestSystem/Public/Actors/QuestManager.h:479-502 | The collected objectives are one per map entry across all five maps: an objective for every entry and none that comes from no entry. |
| Quests.Collect | Source/PCQuestSystem/Public/Actors/QuestManager.h:479-482 | The loop over one map appends one built objective per entry, in order. |
| Quests.Init | Source/PCQuestSystem/Public/Actors/QuestManager.h:477-505 | `Init` keeps the quest ID. Its result is sorted ascending by step order and is a permutation of the collected objectives: one per entry of the five maps. Each objective has ParentQuestID == QuestID and is not completed, and step orders are distinct when the row's keys are. |
| Quests.SortedRow | Source/PCQuestSystem/Public/Actors/QuestManager.h:504 | Sorting the collected objectives keeps one per entry, all fresh, with distinct orders when the keys are distinct. |
| Quests.FromRowIsFresh | Source/PCQuestSystem/Public/Actors/QuestManager.h:98-108 | A freshly built objective belongs to its quest, is not completed and has recorded no controller. |
| Quests.GoToStep | Source/PCQuestSystem/Public/Actors/QuestManager.h:242-246 | The GoTo constructor keeps the quest ID, the map key as order, the gate flag and the place; the step starts incomplete with no controllers, and is valid iff its order is positive. |
| Quests.TalkWithStep | Source/PCQuestSystem/Public/Actors/QuestManager.h:269-276 | The TalkWith constructor keeps the quest ID, order, gate flag and entity; the step starts incomplete with no controllers, and is valid iff its order is positive. |
| Quests.KillStep | Source/PCQuestSystem/Public/Actors/QuestManager.h:308-315 | The Kill constructor keeps the quest ID, order, gate flag, entity and AmountToKill; the counter starts at 0 and the step is valid iff its order is positive. |
| Quests.GatherStep | Source/PCQuestSystem/Public/Actors/QuestManager.h:354-360 | The Gather constructor keeps the quest ID, order, gate flag, item and AmountToGather; the counter starts at 0 and the step is valid iff its order is positive. |
| Quests.CatchStep | Source/PCQuestSystem/Public/Actors/QuestManager.h:394-398 | The Catch constructor keeps the quest ID, order, gate flag and the allowed tags; it takes no amount, so AmountNeeded is 1 whatever the row says, and the counter starts at 0. |
| Quests.IsValidQuest | Source/PCQuestSystem/Public/Actors/QuestManager.h:577-580 | Valid iff the ID is above -1; the default quest is never valid. |
| Quests.FromRowCountsFromZero | Source/PCQuestSystem/Public/Actors/QuestManager.h:328-416 | A fresh Kill, Gather or Catch counter is 0. A Catch step needs exactly one catch, because the constructor `Init` calls leaves AmountNeeded at its default of 1. |
| Quests.AllCompleted | Source/PCQuestSystem/Public/Actors/QuestManager.h:515-525 | The loop is true iff every objective is completed. |
| Quests.AnyCompleted | Source/PCQuestSystem/Public/Actors/QuestManager.h:527-537 | The loop is true iff some objective is completed. |
| Quests.IsQuestCompleted | Source/PCQuestSystem/Public/Actors/QuestManager.h:515-525 | Completed iff every objective is completed. |
| Quests.HasQuestStarted | Source/PCQuestSystem/Public/Actors/QuestManager.h:527-537 | Started iff some objective is completed. |
| Quests.FirstIncomplete | Source/PCQuestSystem/Public/Actors/QuestManager.h:543-546 | The search finds the first objective that is not completed, and finds none iff all are. |
| Quests.GetCurrentObjectiveSharedPtr | Source/PCQuestSystem/Public/Actors/QuestManager.h:552-563 | Null iff the quest is completed; otherwise the first incomplete objective in list order. |
| Quests.GetCurrentObjective | Source/PCQuestSystem/Public/Actors/QuestManager.h:539-550 | The result is the base-struct copy of the first incomplete objective in list order, or the default objective (order -1) once the quest is completed. |
| Quests.StepIndex | Source/PCQuestSystem/Public/Actors/QuestManager.h:565-572 | The lookup finds the first objective with the step order. |
| Quests.GetStepObjectiveById | Source/PCQuestSystem/Public/Actors/QuestManager.h:565-572 | The result is the first objective of the quest with that order: no earlier objective has it. The step must exist, because the source dereferences the result unchecked. |
| Quests.StepIndexOfDistinct | Source/PCQuestSystem/Public/Actors/QuestManager.h:565-572 | With distinct orders, looking a step up by its own order finds that step. |
| Quests.ResetAll | Source/PCQuestSystem/Public/Actors/QuestManager.h:507-513 | A reset quest has the same ID and as many objectives, each of them the reset of the old one. |
| Quests.ResetQuest | Source/PCQuestSystem/Public/Actors/QuestManager.h:507-513 | The reset loop yields `ResetAll`. |
| Quests.ResetClearsProgressFlags | Source/PCQuestSystem/Public/Actors/QuestManager.h:507-513 | After a reset the quest has not started, and it is completed iff it has no objectives. Orders, kinds with their counters, and recorded controllers are kept. |
| Quests.ResetIdempotent | Source/PCQuestSystem/Public/Actors/QuestManager.h:507-513 | Resetting twice is resetting once. |
| Quests.CurrentObjectiveValidity | Source/PCQuestSystem/Public/Actors/QuestManager.h:539-550 | When all steps are valid, the current objective is valid iff the quest is not completed. |
| Quests.CurrentObjectiveAdvances | Source/PCQuestSystem/Public/Actors/QuestManager.h:539-550 | Completing the current step moves the current step strictly later, or ends the quest iff all later steps are completed. |
| ActorRouting.Notify | Source/PCQuestSystem/Private/Actors/QuestManager.cpp:260-290 | The handler for the event's kind keeps the step's order and parent. |
| ActorRouting.AdvanceQuest | Source/PCQuestSystem/Private/Actors/QuestManager.cpp:92-94 | Every objective of the quest advances once; the ID and the number of objectives are kept. |
| ActorRouting.AdvanceActive | Source/PCQuestSystem/Private/Actors/QuestManager.cpp:92 | Exactly the quests whose ID is active advance; the others are unchanged. |
| ActorRouting.QuestIndex | Source/PCQuestSystem/Private/Actors/QuestManager.cpp:347-355 | The lookup finds the first quest with the ID. |
| ActorRouting.GetQuestByID | Source/PCQuestSystem/Private/Actors/QuestManager.cpp:347-355 | The result is a quest with the ID, the only one when IDs are distinct. The ID must exist, because the source dereferences the search result. |
| ActorRouting.RouteStep | Source/PCQuestSystem/Private/Actors/QuestManager.cpp:96-112 | One visit of the inner loop changes only the visited objective, which advances, and keeps the shape of every quest. |
| ActorRouting.RouteObjectives | Source/PCQuestSystem/Private/Actors/QuestManager.cpp:94-114 | The inner loop touches no other quest and keeps every quest's shape. |
| ActorRouting.RouteQuest | Source/PCQuestSystem/Private/Actors/QuestManager.cpp:94-114 | Visiting one quest keeps every quest's shape. |
| ActorRouting.RouteActive | Source/PCQuestSystem/Private/Actors/QuestManager.cpp:90-116 | Visiting each active quest in turn keeps every quest's shape: IDs, objective counts and step orders. |
| ActorRouting.RouteObjectivesEffect | Source/PCQuestSystem/Private/Actors/QuestManager.cpp:94-114 | After j visits, the first j objectives have advanced once and the rest are untouched. |
| ActorRouting.RouteQuestEffect | Source/PCQuestSystem/Private/Actors/QuestManager.cpp:94-114 | Visiting a quest advances each of its objectives once and changes no other quest. |
| ActorRouting.RouteActiveDistinct | Source/PCQuestSystem/Private/Actors/QuestManager.cpp:146-172 | With distinct IDs and no duplicate in the active list, one event advances every matching objective of every active quest, possibly several, and leaves the others unchanged. |
| ActorRouting.AdvanceActiveSnoc | Source/PCQuestSystem/Private/Actors/QuestManager.cpp:92 | Advancing one more quest, not active before, changes that quest alone. |
| ActorRouting.RouteUnmatchedNoOp | Source/PCQuestSystem/Private/Actors/QuestManager.cpp:90-116 | An event that no objective of an active quest matches changes nothing: no progress, no broadcast, nothing scheduled. |
| ActorRouting.RouteActiveLeavesUnmatched | Source/PCQuestSystem/Private/Actors/QuestManager.cpp:90-116 | For any active list of known IDs, duplicates included, an objective that does not match the event, or whose quest is not active, is unchanged by routing. A completed objective never matches, so only matching, incomplete objectives of active quests change. |
| ActorRouting.RouteQuestLeavesUnmatched | Source/PCQuestSystem/Private/Actors/QuestManager.cpp:94-114 | Visiting one quest leaves an objective unchanged when it does not match the event or belongs to another quest. |
| ActorRouting.UnmatchedObjectivesNoOp | Source/PCQuestSystem/Private/Actors/QuestManager.cpp:94-114 | The inner loop over objectives none of which matches changes nothing. |
| ActorRouting.VisitedGrows | Source/PCQuestSystem/Private/Actors/QuestManager.cpp:101-111 | The bookkeeping after a visit only makes progress: log and schedule only grow, and a completed step is untouched. |
| ActorRouting.VisitedPending | Source/PCQuestSystem/Private/Actors/QuestManager.cpp:107-110 | The bookkeeping schedules exactly the quest the visit completes. |
| ActorRouting.VisitedSteps | Source/PCQuestSystem/Private/Actors/QuestManager.cpp:102-105 | The bookkeeping reports exactly the step the visit completes. |
| ActorRouting.RouteStepPending | Source/PCQuestSystem/Private/Actors/QuestManager.cpp:96-112 | One visit keeps the schedule exact. |
| ActorRouting.RouteStepSteps | Source/PCQuestSystem/Private/Actors/QuestManager.cpp:96-112 | One visit keeps the step reports exact. |
| ActorRouting.RouteObjectivesPending | Source/PCQuestSystem/Private/Actors/QuestManager.cpp:94-114 | The inner loop keeps the schedule exact. |
| ActorRouting.RouteObjectivesSteps | Source/PCQuestSystem/Private/Actors/QuestManager.cpp:94-114 | The inner loop keeps the step reports exact. |
| ActorRouting.CompletedQuestStays | Source/PCQuestSystem/Private/Actors/QuestManager.cpp:96 | Routing never changes a completed quest, because it skips completed objectives. |
| ActorRouting.PendingExactTrans | Source/PCQuestSystem/Private/Actors/QuestManager.cpp:90-116 | Exact scheduling composes over consecutive visits. |
| ActorRouting.PendingDisjoint | Source/PCQuestSystem/Private/Actors/QuestManager.cpp:107-110 | With distinct IDs, no quest is scheduled twice across consecutive visits. |
| ActorRouting.NotCompletedAgain | Source/PCQuestSystem/Private/Actors/QuestManager.cpp:107-110 | With distinct IDs, a quest already completed is not scheduled again. |
| ActorRouting.StepsExactTrans | Source/PCQuestSystem/Private/Actors/QuestManager.cpp:90-116 | Exact step reporting composes over consecutive visits. |
| ActorRouting.RouteActivePending | Source/PCQuestSystem/Private/Actors/QuestManager.cpp:90-116 | A whole routing pass schedules exactly the quests it completes, each once when IDs are distinct. |
| ActorRouting.RouteActiveSteps | Source/PCQuestSystem/Private/Actors/QuestManager.cpp:90-116 | A whole routing pass reports exactly the steps it completes. |
| ActorRouting.RouteSchedulesExactly | Source/PCQuestSystem/Private/Actors/QuestManager.cpp:90-116 | One routed event schedules exactly the quests it completed and reports exactly the steps it completed. It never undoes a completed step, and it leaves the earlier log and schedule as they were. |
| ActorRouting.OnlyActiveAddedTrans | Source/PCQuestSystem/Private/Actors/QuestManager.cpp:90-116 | Adding only active quests' reports composes. |
| ActorRouting.RouteStepAdds | Source/PCQuestSystem/Private/Actors/QuestManager.cpp:96-112 | One visit adds only step reports and schedule entries of the visited quest, and keeps what was logged before. |
| ActorRouting.RouteObjectivesAdds | Source/PCQuestSystem/Private/Actors/QuestManager.cpp:94-114 | The inner loop adds only the visited quest's reports and schedule entries. |
| ActorRouting.RouteActiveAdds | Source/PCQuestSystem/Private/Actors/QuestManager.cpp:90-116 | A routing pass keeps the earlier log and schedule. Everything it adds is a step report or a schedule entry for an active quest. |
| ActorRouting.DuplicateActiveCountsTwice | Source/PCQuestSystem/Private/Actors/QuestManager.cpp:68-73 | A quest added twice, because `Add` does not check for duplicates, has its Kill step counted twice for one kill. |
| ActorQuestManager.Loaded | Source/PCQuestSystem/Private/Actors/QuestManager.cpp:339-340 | BeginPlay passes no Catch map to the quest constructor. |
| ActorQuestManager.Completions | Source/PCQuestSystem/Private/Actors/QuestManager.cpp:378-385 | Definition of the next tick's broadcast log: one quest-completed broadcast per scheduled ID, in order. |
| ActorQuestManager.RegistryLookup | Source/PCQuestSystem/Private/Actors/QuestManager.cpp:336-341 | With IDs handed out as 1, 2, …, quest ID k sits at position k - 1 and IDs are distinct. |
| ActorQuestManager.RegistryComplete | Source/PCQuestSystem/Private/Actors/QuestManager.cpp:336-341 | Every ID from 1 to n is found. |
| ActorQuestManager.LoadQuest | Source/PCQuestSystem/Private/Actors/QuestManager.cpp:339-341 | One loaded quest is `Init` of its row without the Catch map: a sorted permutation of the row's objectives under the ID, with distinct orders whenever the row's keys are distinct. |
| ActorQuestManager.StepObjectiveID | Source/PCQuestSystem/Public/Actors/QuestManager.h:108 | Every step's GUID is the zero GUID that `FGuid()` yields. |
| ActorQuestManager.QuestManager.BeginPlay | Source/PCQuestSystem/Private/Actors/QuestManager.cpp:325-345 | Without a data table nothing is loaded. With one, there is one quest per row in row order, with ID i + 1, sorted and built from the row without its Catch map. |
| ActorQuestManager.QuestManager.ActivateQuest | Source/PCQuestSystem/Private/Actors/QuestManager.cpp:31-52 | A started quest is reset first and an unstarted one keeps its state. The ID is appended to the active list, even when already there. The focus is set only when none exists. The activation is broadcast. |
| ActorQuestManager.QuestManager.OnAfterQuestActivated | Source/PCQuestSystem/Private/Actors/QuestManager.cpp:54-59 | It broadcasts the activation and changes nothing else. |
| ActorQuestManager.QuestManager.ResetQuest | Source/PCQuestSystem/Private/Actors/QuestManager.cpp:61-66 | Exactly the quest with the ID is reset. |
| ActorQuestManager.QuestManager.AddActiveQuest | Source/PCQuestSystem/Private/Actors/QuestManager.cpp:68-73 | The ID is appended without a duplicate check. |
| ActorQuestManager.QuestManager.SetCurrentActiveQuest | Source/PCQuestSystem/Private/Actors/QuestManager.cpp:75-80 | The quest gets the focus. |
| ActorQuestManager.QuestManager.RemoveActiveQuest | Source/PCQuestSystem/Private/Actors/QuestManager.cpp:82-88 | Every occurrence of the ID leaves the active list, and the others keep their order. The focus is untouched. |
| ActorQuestManager.QuestManager.OnQuestStep | Source/PCQuestSystem/Private/Actors/QuestManager.cpp:260-290 | The step is found by its order in the quest found by its ID, and its handler is applied. Nothing else changes. |
| ActorQuestManager.QuestManager.OnStepQuestCompleted | Source/PCQuestSystem/Private/Actors/QuestManager.cpp:387-398 | It broadcasts the step-completed event and changes nothing else. |
| ActorQuestManager.QuestManager.OnQuestCompleted | Source/PCQuestSystem/Private/Actors/QuestManager.cpp:372-376 | Completion is only scheduled for the next tick; the active list is untouched. |
| ActorQuestManager.QuestManager.Route | Source/PCQuestSystem/Private/Actors/QuestManager.cpp:90-116 | The nested loops compute `RouteActive` over the old active list. The active list and the focus are unchanged. |
| ActorQuestManager.QuestManager.RouteQuestObjectives | Source/PCQuestSystem/Private/Actors/QuestManager.cpp:94-114 | The inner loop computes `RouteQuest`. |
| ActorQuestManager.QuestManager.VisitObjective | Source/PCQuestSystem/Private/Actors/QuestManager.cpp:96-112 | One visit computes `RouteStep`. |
| ActorQuestManager.QuestManager.OnArrivedToPlace | Source/PCQuestSystem/Private/Actors/QuestManager.cpp:90-116 | An arrival is routed through every active quest. |
| ActorQuestManager.QuestManager.OnEntityTalkedTo | Source/PCQuestSystem/Private/Actors/QuestManager.cpp:118-144 | A talk is routed through every active quest. |
| ActorQuestManager.QuestManager.OnEntityKilled | Source/PCQuestSystem/Private/Actors/QuestManager.cpp:146-172 | A kill is routed through every active quest. |
| ActorQuestManager.QuestManager.OnItemGathered | Source/PCQuestSystem/Private/Actors/QuestManager.cpp:174-200 | A gather, with its amount, is routed through every active quest. |
| ActorQuestManager.QuestManager.OnQuestCompletedNextTick | Source/PCQuestSystem/Private/Actors/QuestManager.cpp:378-385 | The quest leaves the active list and then its completion is broadcast. The focus is kept. |
| ActorQuestManager.QuestManager.NextTick | Source/PCQuestSystem/Private/Actors/QuestManager.cpp:372-385 | The scheduled completions run in order: the scheduled IDs leave the active list, one broadcast is raised per ID, and the schedule empties. |
| ActorQuestManager.QuestManager.GetCurrentActiveQuest | Source/PCQuestSystem/Private/Actors/QuestManager.cpp:248-251 | The result is the focused quest, or the default quest. It is valid iff a quest has the focus. |
| ActorQuestManager.QuestManager.GetCurrentQuestCurrentObjective | Source/PCQuestSystem/Private/Actors/QuestManager.cpp:222-239 | The result is the base-struct copy of the focused quest's current objective, or the default objective. Any result other than order -1 is the copy of an incomplete objective of the focused quest. |
| ActorQuestManager.QuestManager.IsCurrentActiveQuest | Source/PCQuestSystem/Private/Actors/QuestManager.cpp:305-308 | True iff the quest's ID has the focus. |
| ActorQuestManager.QuestManager.IsCurrentQuestStepObjective | Source/PCQuestSystem/Private/Actors/QuestManager.cpp:310-313 | Corrected: true iff a quest has the focus and the step's quest and order are those of its first objective not yet completed (every earlier one completed); equivalently, the focused quest is not completed and the step matches its current objective. |
| ActorQuestManager.QuestManager.GetActiveQuests | Source/PCQuestSystem/Private/Actors/QuestManager.cpp:202-210 | One copy per active entry, in order, duplicates included. |
| ActorQuestManager.QuestManager.GetAllQuests | Source/PCQuestSystem/Private/Actors/QuestManager.cpp:212-220 | The registry, in order. |
| ActorQuestManager.AsWrittenAlwaysCurrent | Source/PCQuestSystem/Private/Actors/QuestManager.cpp:312 | The GUID comparison is true for every step. |
| ActorQuestManager.QuestManager.IsCurrentQuestStepObjectiveAsWritten | Source/PCQuestSystem/Private/Actors/QuestManager.cpp:310-313 | As written: the GUID comparison answers true for every step in every state. |
| ActorQuestManager.AsWrittenCounterexample | Source/PCQuestSystem/Private/Actors/QuestManager.cpp:312 | With no focus, a valid step is current as written and not as intended. |
| EnumText.FindSeparatorFrom | Source/PCQuestSystem/Private/QuestManager.cpp:311 | The search finds the first "::" at or after k, or reports that there is none. |
| EnumText.SplitEnumString | Source/PCQuestSystem/Private/QuestManager.cpp:308-313 | The result is the text after the first "::", or "" when there is none. |
| EnumText.SplitQualified | Source/PCQuestSystem/Private/QuestManager.cpp:308-313 | Splitting "Type::Name" gives Name back when Type holds no colon. |
| EnumText.SplitUnqualified | Source/PCQuestSystem/Private/QuestManager.cpp:308-313 | A string without a colon splits to "". |
| EnumText.DecimalText | Source/PCQuestSystem/Private/QuestManager.cpp:370 | `AsNumber` of a non-negative integer gives decimal digits with no leading zero. |
| EnumText.IntText | Source/PCQuestSystem/Private/QuestManager.cpp:370 | A negative number gets a minus sign in front. |
| EnumText.DecimalRoundTrip | Source/PCQuestSystem/Private/QuestManager.cpp:370 | Reading the decimal text gives the number back. |
| EnumText.DecimalInjective | Source/PCQuestSystem/Private/QuestManager.cpp:370 | Different counts show different texts. |
| LegacyObjectives.TypeOf | Source/PCQuestSystem/Public/QuestManager.h:78-86 | The step type is None iff the objective is the base struct. |
| LegacyObjectives.Base | Source/PCQuestSystem/Public/QuestManager.h:397-408 | The sliced copy keeps order, completed flag, description and step type. |
| LegacyObjectives.DefaultObjective | Source/PCQuestSystem/Public/QuestManager.h:72-77 | The default objective has order -1, is not completed and has an empty description. |
| LegacyObjectives.DefaultNotValid | Source/PCQuestSystem/Public/QuestManager.h:145-148 | The default objective is not valid. |
| LegacyObjectives.IsValid | Source/PCQuestSystem/Public/QuestManager.h:145-148 | Valid iff the order is positive and the step type is set; the default objective is never valid. |
| LegacyObjectives.ResetStepQuest | Source/PCQuestSystem/Public/QuestManager.h:125-128 | A reset clears the completed flag only. |
| LegacyObjectives.OnArrivedToPlace | Source/PCQuestSystem/Public/QuestManager.h:176 | Arrival sets completed unconditionally; nothing else changes. |
| LegacyObjectives.OnTalkedWithEntity | Source/PCQuestSystem/Public/QuestManager.h:219 | Talking sets completed unconditionally; nothing else changes. |
| LegacyObjectives.OnEntityKilled | Source/PCQuestSystem/Public/QuestManager.h:255 | The counter rises by 1, and completed is true iff the counter >= AmountToKill. |
| LegacyObjectives.OnItemGathered | Source/PCQuestSystem/Public/QuestManager.h:290 | The counter grows by the amount, and completed is true iff the counter >= AmountToGather. |
| LegacyObjectives.ResetUndoesArrival | Source/PCQuestSystem/Public/QuestManager.h:125-128 | Arriving and then resetting is the same as resetting. |
| LegacyObjectives.KillTimes | Source/PCQuestSystem/Public/QuestManager.h:255 | Repeated kills keep the step a Kill step. |
| LegacyObjectives.KillCount | Source/PCQuestSystem/Public/QuestManager.h:255 | After n kills the counter has risen by n, and after at least one kill the step is completed iff the counter >= AmountToKill. |
| LegacyObjectives.FreshKillCompletesAtTarget | Source/PCQuestSystem/Public/QuestManager.h:255-257 | A fresh Kill step is completed after n > 0 kills iff n >= AmountToKill. |
| LegacyObjectives.KillAfterResetCompletesAtOnce | Source/PCQuestSystem/Public/QuestManager.h:125-128 | A reset leaves the counter, so a Kill step that had reached its target completes on the next kill. |
| LegacyObjectives.GatherEach | Source/PCQuestSystem/Public/QuestManager.h:290 | Repeated gathers keep the step a Gather step. |
| LegacyObjectives.GatherTotal | Source/PCQuestSystem/Public/QuestManager.h:290 | After a run of gathers the counter has grown by their sum, and after at least one the step is completed iff the counter >= AmountToGather. |
| LegacyObjectives.TypeNamesPlain | Source/PCQuestSystem/Public/QuestManager.h:31-63 | The enum type names hold no colon. |
| LegacyObjectives.PlaceLabel | Source/PCQuestSystem/Private/QuestManager.cpp:324 | `SplitEnumString` of "EPlaces::X" is X. |
| LegacyObjectives.EntityLabel | Source/PCQuestSystem/Private/QuestManager.cpp:353 | `SplitEnumString` of "EEntityType::X" is X. |
| LegacyObjectives.ItemLabel | Source/PCQuestSystem/Private/QuestManager.cpp:379 | `SplitEnumString` of "EQuestItemTypes::X" is X. |
| LegacyObjectives.GoToDescription | Source/PCQuestSystem/Private/QuestManager.cpp:322-325 | The GoTo description is "Go to " and the place's name. |
| LegacyObjectives.TalkWithDescription | Source/PCQuestSystem/Private/QuestManager.cpp:351-354 | The TalkWith description is "Talk with " and the entity's name. |
| LegacyObjectives.KillDescription | Source/PCQuestSystem/Private/QuestManager.cpp:363-373 | The Kill description is "Kill X" when AmountToKill <= 1, and "Kill X current/target" otherwise. |
| LegacyObjectives.SetDescription | Source/PCQuestSystem/Private/QuestManager.cpp:322-385 | Only the base struct has an empty description; every step kind writes a non-empty one. The text of each kind is stated by the GoTo, TalkWith, Kill and Gather description lemmas. |
| LegacyObjectives.GatherDescription | Source/PCQuestSystem/Private/QuestManager.cpp:375-385 | The Gather description is "Collect X" when AmountToGather <= 1, and "Collect X current/target" otherwise. |
| LegacyObjectives.FreshKillDescription | Source/PCQuestSystem/Private/QuestManager.cpp:363-373 | A fresh Kill step with a target N above one reads "Kill X 0/N": the counter shows as 0, as the constructor leaves it. |
| LegacyObjectives.GoToStep | Source/PCQuestSystem/Public/QuestManager.h:165-170 | The constructor gives the order and place, not completed, and the description "Go to X". |
| LegacyObjectives.TalkWithStep | Source/PCQuestSystem/Public/QuestManager.h:196-205 | The constructor gives the order and entity, not completed, and the description "Talk with X". |
| LegacyObjectives.KillStep | Source/PCQuestSystem/Public/QuestManager.h:239-245 | The constructor gives the order, entity and amount, with the counter at 0, not completed, and the description that `SetDescription` gives. |
| LegacyObjectives.GatherStep | Source/PCQuestSystem/Public/QuestManager.h:274-280 | The constructor gives the order, item and amount, with the counter at 0, not completed, and the description that `SetDescription` gives. |
| LegacyQuests.DefaultQuest | Source/PCQuestSystem/Public/QuestManager.h:325 | The default quest has ID -1 and no objectives. |
| LegacyQuests.BuildEach | Source/PCQuestSystem/Public/QuestManager.h:355-373 | One collection loop of `Init` builds one objective per map entry, in entry order. |
| LegacyQuests.FromRowIsFresh | Source/PCQuestSystem/Public/QuestManager.h:352-375 | A built objective is not completed and has a step type, so it is valid iff its order is positive. |
| LegacyQuests.UnsortedCoversRow | Source/PCQuestSystem/Public/QuestManager.h:355-373 | The collected objectives are one per entry of the four maps, and there are no others. |
| LegacyQuests.Collect | Source/PCQuestSystem/Public/QuestManager.h:355-358 | The loop over one map appends one built objective per entry, in order. |
| LegacyQuests.CollectRow | Source/PCQuestSystem/Public/QuestManager.h:355-373 | The four loops together collect the row's objectives, map after map. |
| LegacyQuests.Init | Source/PCQuestSystem/Public/QuestManager.h:352-375 | The quest has its ID and its objectives sorted ascending by step order, as a permutation of one objective per map entry. None is completed, and each is valid iff its order is positive. |
| LegacyQuests.SortedRow | Source/PCQuestSystem/Public/QuestManager.h:374 | The sorted objectives are one per entry and all fresh. |
| LegacyQuests.AllCompleted | Source/PCQuestSystem/Public/QuestManager.h:385-395 | The loop is true iff every objective is completed. |
| LegacyQuests.IsQuestCompleted | Source/PCQuestSystem/Public/QuestManager.h:385-395 | Completed iff all objectives are completed. |
| LegacyQuests.FirstIncomplete | Source/PCQuestSystem/Public/QuestManager.h:401-404 | The search finds the first incomplete objective, and finds none iff all are completed. |
| LegacyQuests.GetCurrentObjectiveSharedPtr | Source/PCQuestSystem/Public/QuestManager.h:410-421 | Null iff the quest is completed; otherwise the first incomplete objective. |
| LegacyQuests.GetCurrentObjective | Source/PCQuestSystem/Public/QuestManager.h:397-408 | The result is the sliced copy of the first incomplete objective, or the default objective (order -1) once the quest is completed. |
| LegacyQuests.DefaultQuestNotValid | Source/PCQuestSystem/Public/QuestManager.h:426-429 | The default quest is not valid (valid iff ID > -1). |
| LegacyQuests.IsValidQuest | Source/PCQuestSystem/Public/QuestManager.h:426-429 | Valid iff the ID is above -1; the default quest is never valid. |
| LegacyQuests.ResetAll | Source/PCQuestSystem/Public/QuestManager.h:377-383 | A reset quest has the same ID, and each objective is the reset of the old one. |
| LegacyQuests.ResetQuest | Source/PCQuestSystem/Public/QuestManager.h:377-383 | The reset loop yields `ResetAll`. |
| LegacyQuests.ResetRestarts | Source/PCQuestSystem/Public/QuestManager.h:377-383 | A reset non-empty quest is not completed, and its current objective is its first one. Kinds, orders and descriptions are kept. |
| LegacyQuests.ResetIdempotent | Source/PCQuestSystem/Public/QuestManager.h:377-383 | Resetting twice is resetting once. |
| LegacyRouting.Notify | Source/PCQuestSystem/Private/QuestManager.cpp:43 | The handler keeps the order and the kind. Arrival and talk complete the step. |
| LegacyRouting.AdvanceQuest | Source/PCQuestSystem/Private/QuestManager.cpp:35-55 | Every objective of the quest advances once. |
| LegacyRouting.AdvanceActive | Source/PCQuestSystem/Private/QuestManager.cpp:33 | Exactly the active quests advance. |
| LegacyRouting.QuestIndex | Source/PCQuestSystem/Private/QuestManager.cpp:264-272 | The lookup finds the first quest with the ID. |
| LegacyRouting.GetQuestByID | Source/PCQuestSystem/Private/QuestManager.cpp:264-272 | The result is a quest with the ID, the only one when IDs are distinct. The ID must exist. |
| LegacyRouting.RouteStep | Source/PCQuestSystem/Private/QuestManager.cpp:37-53 | One visit changes only the visited objective, which advances. |
| LegacyRouting.RouteObjectives | Source/PCQuestSystem/Private/QuestManager.cpp:35-55 | The inner loop touches no other quest. |
| LegacyRouting.RouteQuest | Source/PCQuestSystem/Private/QuestManager.cpp:35-55 | Visiting one quest keeps every quest's shape. |
| LegacyRouting.RouteActive | Source/PCQuestSystem/Private/QuestManager.cpp:33-56 | The nested loops keep every quest's shape. |
| LegacyRouting.RouteObjectivesEffect | Source/PCQuestSystem/Private/QuestManager.cpp:35-55 | After j visits, the first j objectives have advanced once and the rest are untouched. |
| LegacyRouting.RouteQuestEffect | Source/PCQuestSystem/Private/QuestManager.cpp:35-55 | Visiting a quest advances each of its objectives once and changes no other quest. |
| LegacyRouting.RouteActiveDistinct | Source/PCQuestSystem/Private/QuestManager.cpp:29-57 | With distinct IDs and no duplicate active entry, every matching objective of every active quest advances once and the rest are unchanged. |
| LegacyRouting.AdvanceActiveSnoc | Source/PCQuestSystem/Private/QuestManager.cpp:33 | Advancing one more quest, not active before, changes that quest alone. |
| LegacyRouting.RouteUnmatchedNoOp | Source/PCQuestSystem/Private/QuestManager.cpp:29-57 | An unmatched event changes nothing. |
| LegacyRouting.RouteActiveLeavesUnmatched | Source/PCQuestSystem/Private/QuestManager.cpp:33-56 | For any active list of known IDs, duplicates included, an objective that does not match the event, or whose quest is not active, is unchanged by routing. |
| LegacyRouting.RouteQuestLeavesUnmatched | Source/PCQuestSystem/Private/QuestManager.cpp:35-55 | Visiting one quest leaves an objective unchanged when it does not match the event or belongs to another quest. |
| LegacyRouting.UnmatchedObjectivesNoOp | Source/PCQuestSystem/Private/QuestManager.cpp:35-55 | The inner loop over objectives none of which matches changes nothing. |
| LegacyRouting.VisitedGrows | Source/PCQuestSystem/Private/QuestManager.cpp:44-52 | The bookkeeping after a visit only makes progress: log and schedule only grow, and a completed step is untouched. |
| LegacyRouting.VisitedPending | Source/PCQuestSystem/Private/QuestManager.cpp:49-52 | The bookkeeping schedules exactly the quest the visit completes. |
| LegacyRouting.VisitedSteps | Source/PCQuestSystem/Private/QuestManager.cpp:44-47 | The bookkeeping reports exactly the step the visit completes. |
| LegacyRouting.RouteStepPending | Source/PCQuestSystem/Private/QuestManager.cpp:37-53 | One visit keeps the schedule exact. |
| LegacyRouting.RouteStepSteps | Source/PCQuestSystem/Private/QuestManager.cpp:37-53 | One visit keeps the step reports exact. |
| LegacyRouting.RouteObjectivesPending | Source/PCQuestSystem/Private/QuestManager.cpp:35-55 | The inner loop keeps the schedule exact. |
| LegacyRouting.RouteObjectivesSteps | Source/PCQuestSystem/Private/QuestManager.cpp:35-55 | The inner loop keeps the step reports exact. |
| LegacyRouting.CompletedQuestStays | Source/PCQuestSystem/Private/QuestManager.cpp:37 | Routing never changes a completed quest, because it skips completed objectives. |
| LegacyRouting.PendingExactTrans | Source/PCQuestSystem/Private/QuestManager.cpp:33-56 | Exact scheduling composes over consecutive visits. |
| LegacyRouting.PendingDisjoint | Source/PCQuestSystem/Private/QuestManager.cpp:49-52 | With distinct IDs, no quest is scheduled twice across consecutive visits. |
| LegacyRouting.NotCompletedAgain | Source/PCQuestSystem/Private/QuestManager.cpp:49-52 | With distinct IDs, a quest already completed is not scheduled again. |
| LegacyRouting.StepsExactTrans | Source/PCQuestSystem/Private/QuestManager.cpp:33-56 | Exact step reporting composes over consecutive visits. |
| LegacyRouting.RouteActivePending | Source/PCQuestSystem/Private/QuestManager.cpp:33-56 | A whole routing pass schedules exactly the quests it completes, each once when IDs are distinct. |
| LegacyRouting.RouteActiveSteps | Source/PCQuestSystem/Private/QuestManager.cpp:33-56 | A whole routing pass reports exactly the steps it completes. |
| LegacyRouting.RouteSchedulesExactly | Source/PCQuestSystem/Private/QuestManager.cpp:29-57 | One routed event schedules for the next tick exactly the quests it completed and reports exactly the steps it completed. It never undoes a completed step, and it leaves the earlier log and schedule as they were. |
| LegacyRouting.OnlyActiveAddedTrans | Source/PCQuestSystem/Private/QuestManager.cpp:33-56 | Adding only active quests' reports composes. |
| LegacyRouting.RouteStepAdds | Source/PCQuestSystem/Private/QuestManager.cpp:43-53 | One visit adds only step reports and schedule entries of the visited quest, and keeps what was logged before. |
| LegacyRouting.RouteObjectivesAdds | Source/PCQuestSystem/Private/QuestManager.cpp:35-55 | The inner loop adds only the visited quest's reports and schedule entries. |
| LegacyRouting.RouteActiveAdds | Source/PCQuestSystem/Private/QuestManager.cpp:29-57 | A routing pass keeps the earlier log and schedule. Everything it adds is a step report or a schedule entry for an active quest. |
| LegacyRouting.DuplicateActiveCountsTwice | Source/PCQuestSystem/Private/QuestManager.cpp:160 | A quest activated twice has its Kill step counted twice for one kill. |
| LegacyQuestManager.Completions | Source/PCQuestSystem/Private/QuestManager.cpp:289-295 | Definition of the next tick's broadcast log: one quest-completed broadcast per scheduled ID, in order. |
| LegacyQuestManager.RegistryLookup | Source/PCQuestSystem/Private/QuestManager.cpp:252-259 | With IDs handed out as 1, 2, …, quest ID k sits at position k - 1 and IDs are distinct. |
| LegacyQuestManager.RegistryComplete | Source/PCQuestSystem/Private/QuestManager.cpp:252-259 | Every ID from 1 to n is found. |
| LegacyQuestManager.StepObjectiveID | Source/PCQuestSystem/Public/QuestManager.h:84 | Every step's GUID is the zero GUID that `FGuid()` yields. |
| LegacyQuestManager.QuestManager.BeginPlay | Source/PCQuestSystem/Private/QuestManager.cpp:245-262 | Without a data table nothing is loaded. With one, there is one quest per row in row order, with ID i + 1, built by `Init`. |
| LegacyQuestManager.QuestManager.ActivateQuest | Source/PCQuestSystem/Private/QuestManager.cpp:150-170 | A completed quest is reset first and any other keeps its state. The ID is appended, even when already active. The focus is set only when none exists. The activation is broadcast. |
| LegacyQuestManager.QuestManager.RemoveActiveQuest | Source/PCQuestSystem/Private/QuestManager.cpp:172-178 | Every occurrence of the ID leaves the active list, and the others keep their order. The focus is untouched. |
| LegacyQuestManager.QuestManager.OnStepQuestCompleted | Source/PCQuestSystem/Private/QuestManager.cpp:297-306 | It broadcasts the step-completed event and changes nothing else. |
| LegacyQuestManager.QuestManager.OnQuestCompleted | Source/PCQuestSystem/Private/QuestManager.cpp:283-287 | Completion is only scheduled for the next tick. |
| LegacyQuestManager.QuestManager.Route | Source/PCQuestSystem/Private/QuestManager.cpp:33-56 | The nested loops compute `RouteActive` over the old active list. The active list and the focus are unchanged. |
| LegacyQuestManager.QuestManager.RouteQuestObjectives | Source/PCQuestSystem/Private/QuestManager.cpp:35-55 | The inner loop computes `RouteQuest`. |
| LegacyQuestManager.QuestManager.VisitObjective | Source/PCQuestSystem/Private/QuestManager.cpp:37-53 | One visit computes `RouteStep`. |
| LegacyQuestManager.QuestManager.OnArrivedToPlace | Source/PCQuestSystem/Private/QuestManager.cpp:29-57 | The entered location is broadcast first, then the arrival is routed. |
| LegacyQuestManager.QuestManager.OnLeftPlace | Source/PCQuestSystem/Private/QuestManager.cpp:59-62 | It broadcasts the left location and changes nothing else. |
| LegacyQuestManager.QuestManager.OnEntityTalkedTo | Source/PCQuestSystem/Private/QuestManager.cpp:64-92 | A talk is routed through every active quest. |
| LegacyQuestManager.QuestManager.OnEntityKilled | Source/PCQuestSystem/Private/QuestManager.cpp:94-120 | A kill is routed through every active quest. |
| LegacyQuestManager.QuestManager.OnItemGathered | Source/PCQuestSystem/Private/QuestManager.cpp:122-148 | A gather, with its amount, is routed through every active quest. |
| LegacyQuestManager.QuestManager.OnQuestCompletedNextTick | Source/PCQuestSystem/Private/QuestManager.cpp:289-295 | The quest leaves the active list and then its completion is broadcast. |
| LegacyQuestManager.QuestManager.NextTick | Source/PCQuestSystem/Private/QuestManager.cpp:283-295 | The scheduled completions run in order, and the schedule empties. |
| LegacyQuestManager.QuestManager.GetCurrentActiveQuest | Source/PCQuestSystem/Private/QuestManager.cpp:220-223 | The result is the focused quest, or the default quest. It is valid iff a quest has the focus. |
| LegacyQuestManager.QuestManager.GetCurrentQuestCurrentObjective | Source/PCQuestSystem/Private/QuestManager.cpp:200-216 | The result is a copy of the focused quest's current objective, or the default objective. Any result other than order -1 is an incomplete objective of the focused quest. |
| LegacyQuestManager.QuestManager.IsCurrentActiveQuest | Source/PCQuestSystem/Private/QuestManager.cpp:230-233 | True iff the quest's ID has the focus. |
| LegacyQuestManager.QuestManager.IsCurrentQuestStepObjective | Source/PCQuestSystem/Private/QuestManager.cpp:235-238 | Corrected: true iff a quest has the focus and the step's order is that of its first objective not yet completed (every earlier one completed); equivalently, the focused quest is not completed and the step matches its current objective's order. |
| LegacyQuestManager.QuestManager.GetActiveQuests | Source/PCQuestSystem/Private/QuestManager.cpp:180-188 | One copy per active entry, in order, duplicates included. |
| LegacyQuestManager.QuestManager.GetAllQuests | Source/PCQuestSystem/Private/QuestManager.cpp:190-198 | The registry, in order. |
| LegacyQuestManager.AsWrittenAlwaysCurrent | Source/PCQuestSystem/Private/QuestManager.cpp:237 | The GUID comparison is true for every step. |
| LegacyQuestManager.QuestManager.IsCurrentQuestStepObjectiveAsWritten | Source/PCQuestSystem/Private/QuestManager.cpp:235-238 | As written: the GUID comparison answers true for every step in every state. |
| LegacyQuestManager.AsWrittenCounterexample | Source/PCQuestSystem/Private/QuestManager.cpp:237 | With no focus, a valid step of order 3 is current as written and not as intended. |

## Left out

- Presentation and world side effects are not modelled: icon markers, actor spawning and associated actors, `Activate`/`Deactivate`, `ActivateQuestObjectives`, `ActivateCurrentObjective`/`DeactivateObjective`, and `PrintString` logging. Of `ActivateQuestObjectives`, only its demand for a first objective is kept, as a precondition of `ActivateQuest`.
- Replication, RPC attributes and the two-second timer of `AddAssociatedActorToQuestStep` are not modelled. The next-tick timer is the explicit `pending` list that `NextTick` flushes.
- Delegate broadcasts are a log carrying IDs and orders instead of struct copies.
- Rewards, quest type, name, description text in the Actors revision, `FText` localisation and `GetStepObjectiveDescription` are not modelled. The last only returns the stored description.
- Members the Actors header declares but its `.cpp` never defines are not modelled: `OnQuestStepCatch`, `HasCurrentActiveQuest` and `OnRep_OnCurrentActiveQuest`. Nor are the header's later parameters `StepIDToActivate` and `bBroadcastEvent`, which no definition reads. The manager's methods follow the defined bodies, so activation always broadcasts and starts from the first step.
- `OnCatch` is declared but never defined, so no Catch routing is modelled. `BeginPlay` in the Actors revision passes no Catch map (`ActorQuestManager.Loaded`).
- The `UQuestManager::IsQuestCompleted` and `AQuestManager::IsQuestCompleted` wrappers are not modelled separately. They call `FQuest::IsQuestCompleted`, which is modelled.
- Integers are unbounded. Overflow of the 32-bit quest IDs and counters is not modelled.
- Gather amounts and counters are `int`. The source uses `float`, and in both revisions `Init` truncates the row's float amount when it passes it to the constructor's `int` parameter. `LegacyObjectives.OnItemGathered`, `Objectives.OnItemGathered` and `EnumText.DecimalText` therefore do not model float addition, comparison or `AsNumber` of a float.
- EnumText.DecimalText: `FText::AsNumber` may group digits by locale (for example "1,000"). The model prints plain digits.
- `TArray::Sort` is not stable. Init's result is stated as any ascending permutation, and the model fixes one (insertion order on ties).
- A `TMap` is its entry list in iteration order, with keys unique per map.
- ActorQuestManager.QuestManager.BeginPlay requires that a row's step orders be distinct across its maps. The newer routing re-finds a step by its order (`GetStepObjectiveById`), and only with distinct orders is that the step the loop is visiting. Rows with clashing orders are left out.
- Unknown quest IDs are not modelled. Both `GetQuestByID` bodies dereference the search result without checking it (Source/PCQuestSystem/Private/Actors/QuestManager.cpp:347-355, Source/PCQuestSystem/Private/QuestManager.cpp:264-272), so an unknown ID crashes inside the lookup, and the `IsValid()` tests after it in both `ActivateQuest` bodies never see a null pointer. The model makes a known ID a precondition instead (`Known(id)`, `HasQuest`), on `ActorRouting.GetQuestByID`, `LegacyRouting.GetQuestByID` and these methods:
  - ActorQuestManager.QuestManager: `ActivateQuest`, `OnAfterQuestActivated`, `ResetQuest`, `AddActiveQuest`, `SetCurrentActiveQuest`, `RemoveActiveQuest`, `OnQuestStep`, `OnStepQuestCompleted`, `OnQuestCompleted`, `RouteQuestObjectives` and `OnQuestCompletedNextTick`;
  - LegacyQuestManager.QuestManager: `ActivateQuest`, `RemoveActiveQuest`, `OnQuestCompleted`, `RouteQuestObjectives` and `OnQuestCompletedNextTick`.
- Objectives.DefaultObjective: the Actors default constructor leaves `QuestStepType` and `ParentQuestID` uninitialised (Source/PCQuestSystem/Public/Actors/QuestManager.h:92-97). The model fixes them to `NoType` and -1, so nothing is stated about what an indeterminate value would do.
- LegacyObjectives.DefaultObjective: the older default objective leaves its step type uninitialised in the source. It is modelled as `NoType`.
- The handlers' player controllers in the Actors revision are opaque integer handles. The player count is a parameter.
- The focus is modelled as an optional quest ID, and the active list as a list of IDs. Inside the manager this loses nothing: the registry holds one shared pointer per quest, and every ID names one quest.
- ActorQuestManager.QuestManager.GetActiveQuests, ActorQuestManager.QuestManager.GetAllQuests, ActorQuestManager.QuestManager.GetCurrentActiveQuest, LegacyQuestManager.QuestManager.GetActiveQuests, LegacyQuestManager.QuestManager.GetAllQuests and LegacyQuestManager.QuestManager.GetCurrentActiveQuest return value snapshots. The source copies each `FQuest` (Source/PCQuestSystem/Private/Actors/QuestManager.cpp:207, 217, 250; Source/PCQuestSystem/Private/QuestManager.cpp:185, 195, 222), but the copy's `ObjectivesArray` holds the same `TSharedPtr`s as the live quest. So a caller's copy sees later progress of its objectives, and a change made through the copy reaches the manager. The model's snapshots do neither.

## Findings

| source | as written | input that shows it | evidently intended | confidence | as-written member | corrected member |
|---|---|---|---|---|---|---|
| Source/PCQuestSystem/Private/Actors/QuestManager.cpp:310-313 | Compares `StepObjectiveID` of the current objective and of the given step. Both constructors set it to `FGuid()`, the all-zero GUID (Public/Actors/QuestManager.h:94, 108), and nothing assigns it again, so the answer is always true. | No quest has the focus, so the current objective is the default one, and the step is a valid GoTo step of order 3 of quest 1. The function answers true. | True only for the focused quest's current step, matched by quest and step order. | high; not executed | ActorQuestManager.QuestManager.IsCurrentQuestStepObjectiveAsWritten, ActorQuestManager.AsWrittenCounterexample | ActorQuestManager.QuestManager.IsCurrentQuestStepObjective |
| Source/PCQuestSystem/Private/QuestManager.cpp:235-238 | The same GUID comparison. Both constructors set the GUID to `FGuid()` (Public/QuestManager.h:74, 84), so the answer is always true. | No quest has the focus, and the step is a valid GoTo step of order 3. The function answers true. | True only for the focused quest's current step, matched by step order. | high; not executed | LegacyQuestManager.QuestManager.IsCurrentQuestStepObjectiveAsWritten, LegacyQuestManager.AsWrittenCounterexample | LegacyQuestManager.QuestManager.IsCurrentQuestStepObjective |
