/** AQuestManager of the Actors/ revision (Public/Actors/QuestManager.h,
    Private/Actors/QuestManager.cpp): the registry of quests loaded from the
    data table, the list of active quests, the quest with the focus, the
    quests whose completion waits for the next tick, and the broadcasts
    raised so far.

    Quests are held by value in allQuests, so a quest reached through the
    active list or the focus is the one in allQuests with that ID; IDs are
    handed out as 1, 2, ... in table order, so quest ID i sits at position
    i - 1. */
module ActorQuestManager {
  import opened Common
  import opened Objectives
  import opened Quests
  import opened ActorRouting

  /** The row as the BeginPlay loop passes it to the FQuest constructor: the
      Catch map is not passed, so no Catch objective is ever built. */
  function Loaded(row: QuestRow): (r: QuestRow)
    ensures r.catchObjectives == []
    ensures r == row.(catchObjectives := [])
  {
    row.(catchObjectives := [])
  }

  /** The definition of the broadcast log the next tick adds: one
      quest-completed broadcast per scheduled ID, in schedule order. NextTick's
      loop is proved to append exactly this. */
  function Completions(ids: seq<int>): (bs: seq<Broadcast>)
    ensures |bs| == |ids| && forall i :: 0 <= i < |ids| ==> bs[i] == QuestCompleted(ids[i])
  {
    seq(|ids|, i requires 0 <= i < |ids| => QuestCompleted(ids[i]))
  }

  lemma CompletionsSnoc(ids: seq<int>, x: int)
    ensures Completions(ids + [x]) == Completions(ids) + [QuestCompleted(x)]
  {
  }

  /** One more scheduled completion: the active list loses its ID and the
      log gains its broadcast. */
  lemma ScheduledStep(active: seq<int>, log: seq<Broadcast>, scheduled: seq<int>, i: nat)
    requires i < |scheduled|
    ensures RemoveEach(active, scheduled[..i + 1]) == RemoveAll(RemoveEach(active, scheduled[..i]), scheduled[i])
    ensures log + Completions(scheduled[..i + 1]) == log + Completions(scheduled[..i]) + [QuestCompleted(scheduled[i])]
  {
    assert scheduled[..i + 1] == scheduled[..i] + [scheduled[i]];
    RemoveEachSnoc(active, scheduled[..i], scheduled[i]);
    CompletionsSnoc(scheduled[..i], scheduled[i]);
    assert log + (Completions(scheduled[..i]) + [QuestCompleted(scheduled[i])])
      == log + Completions(scheduled[..i]) + [QuestCompleted(scheduled[i])];
  }

  /** In a registry whose quest IDs are their positions plus one, the quest
      with ID id is at position id - 1. */
  lemma RegistryLookup(quests: seq<Quest>, id: int)
    requires forall i :: 0 <= i < |quests| ==> quests[i].questID == i + 1
    requires 1 <= id <= |quests|
    ensures HasQuest(quests, id) && QuestIndex(quests, id) == id - 1
    ensures DistinctIds(quests)
  {
    assert quests[id - 1].questID == id;
  }

  /** Every ID of such a registry is found. */
  lemma RegistryComplete(quests: seq<Quest>)
    requires forall i :: 0 <= i < |quests| ==> quests[i].questID == i + 1
    ensures forall id :: 1 <= id <= |quests| ==> HasQuest(quests, id)
  {
    forall id | 1 <= id <= |quests| ensures HasQuest(quests, id) {
      RegistryLookup(quests, id);
    }
  }

  /** A registry as BeginPlay builds it: IDs are positions plus one, each
      quest's step orders are distinct, and so every ID is found. */
  ghost predicate Registry(quests: seq<Quest>) {
    && (forall i :: 0 <= i < |quests| ==> quests[i].questID == i + 1)
    && (forall i :: 0 <= i < |quests| ==> DistinctOrders(quests[i].objectives))
    && (forall id :: 1 <= id <= |quests| ==> HasQuest(quests, id))
  }

  /** The quest is what Init makes of the row under the ID. */
  ghost predicate Built(q: Quest, id: int, row: QuestRow) {
    && q.questID == id
    && SortedBy(q.objectives, StepOrder)
    && multiset(q.objectives) == multiset(Unsorted(id, Loaded(row)))
  }

  /** One iteration of the BeginPlay loop: the FQuest constructor, without
      the Catch map, and Init. */
  method LoadQuest(id: int, row: QuestRow) returns (q: Quest)
    ensures Built(q, id, row)
    ensures DistinctStepOrders(Loaded(row)) ==> DistinctOrders(q.objectives)
  {
    q := Init(id, Loaded(row));
  }

  /** Every ID in the list names one of n quests. */
  predicate IdsKnown(ids: seq<int>, n: nat) {
    forall id :: id in ids ==> 1 <= id <= n
  }

  /** The GUID every objective constructor assigns: FGuid(), all zero, which
      nothing afterwards overwrites. */
  function StepObjectiveID(o: BaseObjective): (g: (int, int, int, int))
    ensures g == (0, 0, 0, 0)
  {
    (0, 0, 0, 0)
  }

  class QuestManager {
    var allQuests: seq<Quest>
    var activeQuests: seq<int>
    var currentActiveQuest: Option<int>
    var pending: seq<int>
    var broadcasts: seq<Broadcast>

    /** The quest with ID id exists. */
    predicate Known(id: int)
      reads this
    {
      1 <= id <= |allQuests|
    }

    /** The registry is well formed, and every ID in the active list, the
        focus and the schedule names a quest that exists. */
    ghost predicate Valid()
      reads this
    {
      && Registry(allQuests)
      && IdsKnown(activeQuests, |allQuests|)
      && (currentActiveQuest.Some? ==> 1 <= currentActiveQuest.value <= |allQuests|)
      && IdsKnown(pending, |allQuests|)
    }

    /** A fresh manager: no quests, nothing active, no focus. */
    constructor ()
      ensures Valid()
      ensures allQuests == [] && activeQuests == [] && currentActiveQuest == None
      ensures pending == [] && broadcasts == []
    {
      allQuests := [];
      activeQuests := [];
      currentActiveQuest := None;
      pending := [];
      broadcasts := [];
    }

    /** BeginPlay: with a data table, one quest per row, in row order, with
        IDs 1, 2, ...; without one, nothing is loaded. */
    method BeginPlay(table: Option<seq<QuestRow>>)
      requires Valid() && allQuests == []
      requires table.Some? ==> forall row :: row in table.value ==> DistinctStepOrders(Loaded(row))
      modifies this
      ensures Valid()
      ensures table.None? ==> allQuests == []
      ensures table.Some? ==>
        && |allQuests| == |table.value|
        && forall i :: 0 <= i < |allQuests| ==>
             && allQuests[i].questID == i + 1
             && SortedBy(allQuests[i].objectives, StepOrder)
             && multiset(allQuests[i].objectives) == multiset(Unsorted(i + 1, Loaded(table.value[i])))
      ensures activeQuests == old(activeQuests) && currentActiveQuest == old(currentActiveQuest)
      ensures pending == old(pending) && broadcasts == old(broadcasts)
    {
      if table.Some? {
        var rows := table.value;
        var qs: seq<Quest> := [];
        for i := 0 to |rows|
          invariant allQuests == old(allQuests) && activeQuests == old(activeQuests)
          invariant currentActiveQuest == old(currentActiveQuest)
          invariant pending == old(pending) && broadcasts == old(broadcasts)
          invariant |qs| == i
          invariant forall k :: 0 <= k < i ==> Built(qs[k], k + 1, rows[k]) && DistinctOrders(qs[k].objectives)
        {
          assert rows[i] in rows;
          var q := LoadQuest(i + 1, rows[i]);
          qs := qs + [q];
        }
        allQuests := qs;
      }
      RegistryComplete(allQuests);
    }

    /** ActivateQuest: a quest that has started is reset first; the quest is
        appended to the active list (a second activation appends it again),
        gets the focus if no quest has it, and the activation is broadcast.
        The quest must exist and have an objective, as the source looks it up
        unchecked and marks its first objective. */
    method ActivateQuest(id: int)
      requires Valid() && Known(id)
      requires allQuests[id - 1].objectives != []
      modifies this
      ensures Valid()
      ensures allQuests == old(allQuests)[id - 1 :=
        if HasQuestStarted(old(allQuests[id - 1])) then ResetAll(old(allQuests[id - 1])) else old(allQuests[id - 1])]
      ensures activeQuests == old(activeQuests) + [id]
      ensures currentActiveQuest == if old(currentActiveQuest).None? then Some(id) else old(currentActiveQuest)
      ensures pending == old(pending)
      ensures broadcasts == old(broadcasts) + [QuestActivated(id)]
    {
      RegistryLookup(allQuests, id);
      var quest := GetQuestByID(allQuests, id);
      if HasQuestStarted(quest) {
        ResetQuest(id);
      }
      AddActiveQuest(id);
      if currentActiveQuest.None? {
        SetCurrentActiveQuest(id);
      }
      OnAfterQuestActivated(id);
    }

    /** OnAfterQuestActivated: broadcast the activation. */
    method OnAfterQuestActivated(id: int)
      requires Valid() && Known(id)
      modifies this
      ensures Valid()
      ensures broadcasts == old(broadcasts) + [QuestActivated(id)]
      ensures allQuests == old(allQuests) && activeQuests == old(activeQuests)
      ensures currentActiveQuest == old(currentActiveQuest) && pending == old(pending)
    {
      broadcasts := broadcasts + [QuestActivated(id)];
    }

    /** ResetQuest: reset every objective of the quest. */
    method ResetQuest(id: int)
      requires Valid() && Known(id)
      modifies this
      ensures Valid()
      ensures allQuests == old(allQuests)[id - 1 := ResetAll(old(allQuests[id - 1]))]
      ensures activeQuests == old(activeQuests) && currentActiveQuest == old(currentActiveQuest)
      ensures pending == old(pending) && broadcasts == old(broadcasts)
    {
      RegistryLookup(allQuests, id);
      var q := Quests.ResetQuest(allQuests[QuestIndex(allQuests, id)]);
      allQuests := allQuests[id - 1 := q];
      assert forall j :: 0 <= j < |q.objectives| ==> q.objectives[j].order == old(allQuests[id - 1]).objectives[j].order;
      RegistryComplete(allQuests);
    }

    /** AddActiveQuest: append the quest's ID to the active list, with no
        check for a duplicate. */
    method AddActiveQuest(id: int)
      requires Valid() && Known(id)
      modifies this
      ensures Valid()
      ensures activeQuests == old(activeQuests) + [id]
      ensures allQuests == old(allQuests) && currentActiveQuest == old(currentActiveQuest)
      ensures pending == old(pending) && broadcasts == old(broadcasts)
    {
      activeQuests := activeQuests + [id];
    }

    /** SetCurrentActiveQuest: give the quest the focus. */
    method SetCurrentActiveQuest(id: int)
      requires Valid() && Known(id)
      modifies this
      ensures Valid()
      ensures currentActiveQuest == Some(id)
      ensures allQuests == old(allQuests) && activeQuests == old(activeQuests)
      ensures pending == old(pending) && broadcasts == old(broadcasts)
    {
      currentActiveQuest := Some(id);
    }

    /** RemoveActiveQuest: remove every occurrence of the quest from the
        active list. The quest must exist, as the source looks it up
        unchecked. The focus is not touched. */
    method RemoveActiveQuest(id: int)
      requires Valid() && Known(id)
      modifies this
      ensures Valid()
      ensures activeQuests == RemoveAll(old(activeQuests), id)
      ensures allQuests == old(allQuests) && currentActiveQuest == old(currentActiveQuest)
      ensures pending == old(pending) && broadcasts == old(broadcasts)
    {
      activeQuests := RemoveAll(activeQuests, id);
    }

    /** OnQuestStepArrivedToPlace, OnQuestStepEntityTalkedTo,
        OnQuestStepEntityKilled and OnQuestStepItemGathered: look the quest up
        by ID and the step by order, and call the step's handler for the
        event. The step must exist and be of the event's type, as the source
        looks it up unchecked and casts it statically. */
    method OnQuestStep(stepID: int, questID: int, e: QuestEvent, player: Option<ControllerId>, playerCount: nat)
      requires Valid() && Known(questID)
      requires HasStep(allQuests[questID - 1], stepID)
      requires OfEventKind(GetStepObjectiveById(allQuests[questID - 1], stepID), e)
      modifies this
      ensures Valid()
      ensures var q := old(allQuests[questID - 1]);
        var k := StepIndex(q.objectives, stepID);
        allQuests == old(allQuests)[questID - 1 :=
          q.(objectives := q.objectives[k := Notify(q.objectives[k], e, player, playerCount)])]
      ensures activeQuests == old(activeQuests) && currentActiveQuest == old(currentActiveQuest)
      ensures pending == old(pending) && broadcasts == old(broadcasts)
    {
      RegistryLookup(allQuests, questID);
      var qi := QuestIndex(allQuests, questID);
      var q := allQuests[qi];
      var k := StepIndex(q.objectives, stepID);
      var step := Notify(q.objectives[k], e, player, playerCount);
      allQuests := allQuests[qi := q.(objectives := q.objectives[k := step])];
      RegistryComplete(allQuests);
    }

    /** OnStepQuestCompleted: broadcast that the step is completed (marker
        and actor handling aside). The step must exist, as the source looks
        it up unchecked. */
    method OnStepQuestCompleted(stepID: int, questID: int)
      requires Valid() && Known(questID)
      requires HasStep(allQuests[questID - 1], stepID)
      modifies this
      ensures Valid()
      ensures broadcasts == old(broadcasts) + [StepCompleted(stepID, questID)]
      ensures allQuests == old(allQuests) && activeQuests == old(activeQuests)
      ensures currentActiveQuest == old(currentActiveQuest) && pending == old(pending)
    {
      broadcasts := broadcasts + [StepCompleted(stepID, questID)];
    }

    /** OnQuestCompleted: schedule the quest's completion for the next tick. */
    method OnQuestCompleted(id: int)
      requires Valid() && Known(id)
      modifies this
      ensures Valid()
      ensures pending == old(pending) + [id]
      ensures allQuests == old(allQuests) && activeQuests == old(activeQuests)
      ensures currentActiveQuest == old(currentActiveQuest) && broadcasts == old(broadcasts)
    {
      pending := pending + [id];
    }

    /** The loop shared by the four event handlers, visiting every objective
        of every active quest in order. */
    method Route(e: QuestEvent, player: Option<ControllerId>, playerCount: nat)
      requires Valid()
      modifies this
      ensures Valid()
      ensures Routing(allQuests, broadcasts, pending)
        == RouteActive(Routing(old(allQuests), old(broadcasts), old(pending)), old(activeQuests), e, player, playerCount)
      ensures activeQuests == old(activeQuests) && currentActiveQuest == old(currentActiveQuest)
    {
      ghost var t0 := Routing(allQuests, broadcasts, pending);
      ghost var active := activeQuests;
      assert forall id :: id in active ==> HasQuest(t0.quests, id);
      var k := 0;
      while k < |activeQuests|
        invariant k <= |activeQuests| && activeQuests == active
        invariant Valid()
        invariant activeQuests == old(activeQuests) && currentActiveQuest == old(currentActiveQuest)
        invariant Routing(allQuests, broadcasts, pending) == RouteActive(t0, active[..k], e, player, playerCount)
      {
        var id := activeQuests[k];
        RouteActiveNext(t0, active, k, e, player, playerCount);
        assert id in activeQuests;
        RouteQuestObjectives(id, e, player, playerCount);
        k := k + 1;
      }
      assert active[..k] == active;
    }

    /** The inner loop of the event handlers: every objective of one quest. */
    method RouteQuestObjectives(id: int, e: QuestEvent, player: Option<ControllerId>, playerCount: nat)
      requires Valid() && Known(id)
      modifies this
      ensures Valid()
      ensures Routing(allQuests, broadcasts, pending)
        == RouteQuest(Routing(old(allQuests), old(broadcasts), old(pending)), id, e, player, playerCount)
      ensures activeQuests == old(activeQuests) && currentActiveQuest == old(currentActiveQuest)
    {
      ghost var t1 := Routing(allQuests, broadcasts, pending);
      RegistryLookup(allQuests, id);
      var qi := QuestIndex(allQuests, id);
      ghost var n := |allQuests[qi].objectives|;
      var j := 0;
      while j < |allQuests[qi].objectives|
        invariant Valid()
        invariant j <= n && |allQuests| == |t1.quests| && |allQuests[qi].objectives| == n
        invariant activeQuests == old(activeQuests) && currentActiveQuest == old(currentActiveQuest)
        invariant Routing(allQuests, broadcasts, pending) == RouteObjectives(t1, qi, j, e, player, playerCount)
      {
        RouteObjectivesNext(t1, qi, j, e, player, playerCount);
        VisitObjective(qi, j, e, player, playerCount);
        j := j + 1;
      }
    }

    /** One visit of the inner loop: a matching objective is notified through
        OnQuestStep*, then a completed step is reported and a completed quest
        scheduled. */
    method VisitObjective(qi: nat, j: nat, e: QuestEvent, player: Option<ControllerId>, playerCount: nat)
      requires Valid() && qi < |allQuests| && j < |allQuests[qi].objectives|
      modifies this
      ensures Valid()
      ensures Routing(allQuests, broadcasts, pending)
        == RouteStep(Routing(old(allQuests), old(broadcasts), old(pending)), qi, j, e, player, playerCount)
      ensures activeQuests == old(activeQuests) && currentActiveQuest == old(currentActiveQuest)
    {
      var o := allQuests[qi].objectives[j];
      var id := allQuests[qi].questID;
      if Matches(o, e) {
        StepIndexOfDistinct(allQuests[qi].objectives, j);
        OnQuestStep(o.order, id, e, player, playerCount);
        if allQuests[qi].objectives[j].completed {
          OnStepQuestCompleted(o.order, id);
        }
        if IsQuestCompleted(allQuests[qi]) {
          OnQuestCompleted(id);
        }
      }
    }

    /** OnArrivedToPlace for the player that arrived (null when unknown). */
    method OnArrivedToPlace(place: Tag, player: Option<ControllerId>, playerCount: nat)
      requires Valid()
      modifies this
      ensures Valid()
      ensures Routing(allQuests, broadcasts, pending)
        == RouteActive(Routing(old(allQuests), old(broadcasts), old(pending)), old(activeQuests), ArrivedToPlace(place), player, playerCount)
      ensures activeQuests == old(activeQuests) && currentActiveQuest == old(currentActiveQuest)
    {
      Route(ArrivedToPlace(place), player, playerCount);
    }

    /** OnEntityTalkedTo for the player that talked. */
    method OnEntityTalkedTo(entity: Tag, player: Option<ControllerId>, playerCount: nat)
      requires Valid()
      modifies this
      ensures Valid()
      ensures Routing(allQuests, broadcasts, pending)
        == RouteActive(Routing(old(allQuests), old(broadcasts), old(pending)), old(activeQuests), EntityTalkedTo(entity), player, playerCount)
      ensures activeQuests == old(activeQuests) && currentActiveQuest == old(currentActiveQuest)
    {
      Route(EntityTalkedTo(entity), player, playerCount);
    }

    /** OnEntityKilled for the player that killed. */
    method OnEntityKilled(entity: Tag, player: Option<ControllerId>, playerCount: nat)
      requires Valid()
      modifies this
      ensures Valid()
      ensures Routing(allQuests, broadcasts, pending)
        == RouteActive(Routing(old(allQuests), old(broadcasts), old(pending)), old(activeQuests), EntityKilled(entity), player, playerCount)
      ensures activeQuests == old(activeQuests) && currentActiveQuest == old(currentActiveQuest)
    {
      Route(EntityKilled(entity), player, playerCount);
    }

    /** OnItemGathered for the player that gathered the amount. */
    method OnItemGathered(item: Tag, amount: int, player: Option<ControllerId>, playerCount: nat)
      requires Valid()
      modifies this
      ensures Valid()
      ensures Routing(allQuests, broadcasts, pending)
        == RouteActive(Routing(old(allQuests), old(broadcasts), old(pending)), old(activeQuests), ItemGathered(item, amount), player, playerCount)
      ensures activeQuests == old(activeQuests) && currentActiveQuest == old(currentActiveQuest)
    {
      Route(ItemGathered(item, amount), player, playerCount);
    }

    /** OnQuestCompletedNextTick: remove the quest from the active list and
        broadcast its completion. The focus stays where it was. */
    method OnQuestCompletedNextTick(id: int)
      requires Valid() && Known(id)
      modifies this
      ensures Valid()
      ensures activeQuests == RemoveAll(old(activeQuests), id)
      ensures broadcasts == old(broadcasts) + [QuestCompleted(id)]
      ensures allQuests == old(allQuests) && currentActiveQuest == old(currentActiveQuest)
      ensures pending == old(pending)
    {
      RemoveActiveQuest(id);
      broadcasts := broadcasts + [QuestCompleted(id)];
    }

    /** The next tick: the scheduled completions run in the order they were
        scheduled, and the schedule is emptied. */
    method NextTick()
      requires Valid()
      modifies this
      ensures Valid()
      ensures activeQuests == RemoveEach(old(activeQuests), old(pending))
      ensures broadcasts == old(broadcasts) + Completions(old(pending))
      ensures pending == []
      ensures allQuests == old(allQuests) && currentActiveQuest == old(currentActiveQuest)
    {
      var scheduled := pending;
      for i := 0 to |scheduled|
        invariant Valid()
        invariant pending == scheduled
        invariant activeQuests == RemoveEach(old(activeQuests), scheduled[..i])
        invariant broadcasts == old(broadcasts) + Completions(scheduled[..i])
        invariant allQuests == old(allQuests) && currentActiveQuest == old(currentActiveQuest)
      {
        CompleteScheduled(scheduled, i, old(activeQuests), old(broadcasts));
      }
      assert scheduled[..|scheduled|] == scheduled;
      pending := [];
    }

    /** The timer of the i-th scheduled completion fires. */
    method CompleteScheduled(scheduled: seq<int>, i: nat, ghost active0: seq<int>, ghost log0: seq<Broadcast>)
      requires Valid() && pending == scheduled && i < |scheduled|
      requires activeQuests == RemoveEach(active0, scheduled[..i])
      requires broadcasts == log0 + Completions(scheduled[..i])
      modifies this
      ensures Valid() && pending == scheduled
      ensures activeQuests == RemoveEach(active0, scheduled[..i + 1])
      ensures broadcasts == log0 + Completions(scheduled[..i + 1])
      ensures allQuests == old(allQuests) && currentActiveQuest == old(currentActiveQuest)
    {
      ScheduledStep(active0, log0, scheduled, i);
      assert scheduled[i] in pending;
      OnQuestCompletedNextTick(scheduled[i]);
    }

    /** GetCurrentActiveQuest: the quest with the focus, or the default quest
        (ID -1, so not valid) when no quest has it. */
    function GetCurrentActiveQuest(): (r: Quest)
      reads this
      requires Valid()
      ensures currentActiveQuest.None? ==> r == DefaultQuest()
      ensures currentActiveQuest.Some? ==> r in allQuests && r.questID == currentActiveQuest.value
      ensures IsValidQuest(r) <==> currentActiveQuest.Some?
    {
      match currentActiveQuest
      case None => DefaultQuest()
      case Some(id) => RegistryLookup(allQuests, id); GetQuestByID(allQuests, id)
    }

    /** GetCurrentQuestCurrentObjective: the current objective of the quest
        with the focus, or the default objective when no quest has it. */
    function GetCurrentQuestCurrentObjective(): (r: BaseObjective)
      reads this
      requires Valid()
      ensures currentActiveQuest.None? ==> r == DefaultObjective()
      ensures currentActiveQuest.Some? ==> r == GetCurrentObjective(GetCurrentActiveQuest())
      ensures r.order != -1 ==>
        && currentActiveQuest.Some? && !r.completed
        && exists o :: o in GetCurrentActiveQuest().objectives && r == Base(o)
    {
      if currentActiveQuest.None? then DefaultObjective() else GetCurrentObjective(GetCurrentActiveQuest())
    }

    /** IsCurrentActiveQuest: whether the quest has the focus. */
    function IsCurrentActiveQuest(q: Quest): (b: bool)
      reads this
      ensures b <==> currentActiveQuest == Some(q.questID)
    {
      currentActiveQuest.Some? && q.questID == currentActiveQuest.value
    }

    /** IsCurrentQuestStepObjective as written: the GUIDs of the current
        objective and of the step are compared, and since both are always
        the zero GUID, the answer is always yes. */
    function IsCurrentQuestStepObjectiveAsWritten(step: BaseObjective): (b: bool)
      reads this
      requires Valid()
      ensures b
    {
      StepObjectiveID(GetCurrentQuestCurrentObjective()) == StepObjectiveID(step)
    }

    /** IsCurrentQuestStepObjective as intended: the focused quest still has
        a current objective and the step is it, recognised by its quest and
        its order. */
    function IsCurrentQuestStepObjective(step: BaseObjective): (b: bool)
      reads this
      requires Valid()
      ensures b <==>
        && currentActiveQuest.Some?
        && !IsQuestCompleted(GetCurrentActiveQuest())
        && GetCurrentQuestCurrentObjective().parentQuestID == step.parentQuestID
        && GetCurrentQuestCurrentObjective().order == step.order
      ensures b <==>
        && currentActiveQuest.Some?
        && (exists i :: 0 <= i < |GetCurrentActiveQuest().objectives|
              && !GetCurrentActiveQuest().objectives[i].completed
              && (forall j :: 0 <= j < i ==> GetCurrentActiveQuest().objectives[j].completed)
              && GetCurrentActiveQuest().objectives[i].order == step.order
              && GetCurrentActiveQuest().objectives[i].parentQuestID == step.parentQuestID)
    {
      if currentActiveQuest.None? then false
      else
        var objs := GetCurrentActiveQuest().objectives;
        assert forall i | 0 <= i < |objs| && !objs[i].completed && (forall j :: 0 <= j < i ==> objs[j].completed) ::
          FirstIncomplete(objs) == Some(i);
        && !IsQuestCompleted(GetCurrentActiveQuest())
        && GetCurrentQuestCurrentObjective().parentQuestID == step.parentQuestID
        && GetCurrentQuestCurrentObjective().order == step.order
    }

    /** GetActiveQuests: a copy of each active quest, in active-list order
        (a quest active twice is copied twice). */
    method GetActiveQuests() returns (r: seq<Quest>)
      requires Valid()
      ensures |r| == |activeQuests|
      ensures forall i :: 0 <= i < |r| ==> r[i] in allQuests && r[i].questID == activeQuests[i]
    {
      r := [];
      for i := 0 to |activeQuests|
        invariant |r| == i
        invariant forall k :: 0 <= k < i ==> r[k] in allQuests && r[k].questID == activeQuests[k]
      {
        assert activeQuests[i] in activeQuests;
        RegistryLookup(allQuests, activeQuests[i]);
        r := r + [GetQuestByID(allQuests, activeQuests[i])];
      }
    }

    /** GetAllQuests: a copy of every quest, in registry order. */
    method GetAllQuests() returns (r: seq<Quest>)
      ensures r == allQuests
    {
      r := [];
      for i := 0 to |allQuests|
        invariant r == allQuests[..i]
      {
        assert allQuests[..i + 1] == allQuests[..i] + [allQuests[i]];
        r := r + [allQuests[i]];
      }
      assert allQuests[..|allQuests|] == allQuests;
    }
  }

  /** The GUID comparison says yes for any step, even with no quest in
      focus, where no step can be current. */
  lemma AsWrittenAlwaysCurrent(m: QuestManager, step: BaseObjective)
    requires m.Valid()
    ensures m.IsCurrentQuestStepObjectiveAsWritten(step)
  {
  }

  /** With no focus, a valid step is reported current by the comparison as
      written and not by the intended one. */
  lemma AsWrittenCounterexample(m: QuestManager)
    requires m.Valid() && m.currentActiveQuest.None?
    ensures var step := Base(Objective(3, 1, false, false, [], GoTo("Place.Town")));
      IsValid(step) && m.IsCurrentQuestStepObjectiveAsWritten(step) && !m.IsCurrentQuestStepObjective(step)
  {
  }
}
