/** How AQuestManager of the Actors/ revision (Private/Actors/QuestManager.cpp)
    routes a gameplay event: for every active quest, in the order of the
    active list, and for every objective of that quest, in list order, an
    objective that is not completed, has the event's step type and names the
    event's tag is notified; after it, a completed objective raises the
    step-completed event and a completed quest is scheduled for completion on
    the next tick.

    The routing is stated here as a fold over the active list and over each
    quest's objectives, which is what the manager's nested loops are proved
    against, and the lemmas below say what that fold does as a whole. */
module ActorRouting {
  import opened Common
  import opened Objectives
  import opened Quests

  /** The gameplay events routed to objectives: arriving at a place, talking
      to an entity, killing an entity and gathering an amount of an item. */
  datatype QuestEvent =
    | ArrivedToPlace(place: Tag)
    | EntityTalkedTo(entity: Tag)
    | EntityKilled(entity: Tag)
    | ItemGathered(item: Tag, amount: int)

  /** The delegate broadcasts, logged in the order they are raised. */
  datatype Broadcast =
    | QuestActivated(questID: int)
    | StepCompleted(stepOrder: int, questID: int)
    | QuestCompleted(questID: int)

  /** The objective has the step type the event is for. */
  predicate OfEventKind(o: Objective, e: QuestEvent) {
    match e
    case ArrivedToPlace(_) => o.kind.GoTo?
    case EntityTalkedTo(_) => o.kind.TalkWith?
    case EntityKilled(_) => o.kind.Kill?
    case ItemGathered(_, _) => o.kind.Gather?
  }

  /** The condition each routing loop tests on an objective: not completed,
      of the event's step type, and naming the event's tag. */
  predicate Matches(o: Objective, e: QuestEvent) {
    && !o.completed
    && OfEventKind(o, e)
    && match e
       case ArrivedToPlace(place) => o.kind.placeToGo == place
       case EntityTalkedTo(entity) => o.kind.entityToTalkWith == entity
       case EntityKilled(entity) => o.kind.entityToKill == entity
       case ItemGathered(item, _) => o.kind.itemToGather == item
  }

  /** The handler OnQuestStep* calls on the step for the event. */
  function Notify(o: Objective, e: QuestEvent, player: Option<ControllerId>, playerCount: nat): (r: Objective)
    requires OfEventKind(o, e)
    ensures r.order == o.order && r.parentQuestID == o.parentQuestID
  {
    match e
    case ArrivedToPlace(_) => OnArrivedToPlace(o, player, playerCount)
    case EntityTalkedTo(_) => OnTalkedWithEntity(o, player, playerCount)
    case EntityKilled(_) => OnEntityKilled(o, player, playerCount)
    case ItemGathered(_, amount) => OnItemGathered(o, player, amount, playerCount)
  }

  /** What one visit of the routing loop does to one objective: a matching
      objective is notified, any other is left alone. */
  function Advance(o: Objective, e: QuestEvent, player: Option<ControllerId>, playerCount: nat): Objective {
    if Matches(o, e) then Notify(o, e, player, playerCount) else o
  }

  /** Every objective of the quest advanced once. */
  function AdvanceQuest(q: Quest, e: QuestEvent, player: Option<ControllerId>, playerCount: nat): (r: Quest)
    ensures r.questID == q.questID && |r.objectives| == |q.objectives|
    ensures forall j :: 0 <= j < |q.objectives| ==> r.objectives[j] == Advance(q.objectives[j], e, player, playerCount)
  {
    q.(objectives := seq(|q.objectives|, j requires 0 <= j < |q.objectives| =>
      Advance(q.objectives[j], e, player, playerCount)))
  }

  /** Every quest whose ID is in the active list advanced once, the others
      left alone. */
  function AdvanceActive(quests: seq<Quest>, active: seq<int>, e: QuestEvent,
                         player: Option<ControllerId>, playerCount: nat): (r: seq<Quest>)
    ensures |r| == |quests|
    ensures forall i :: 0 <= i < |quests| ==>
      r[i] == if quests[i].questID in active then AdvanceQuest(quests[i], e, player, playerCount) else quests[i]
  {
    seq(|quests|, i requires 0 <= i < |quests| =>
      if quests[i].questID in active then AdvanceQuest(quests[i], e, player, playerCount) else quests[i])
  }

  /** The part of the manager's state routing reads and writes: the quests,
      the broadcast log and the quest IDs waiting for next-tick completion. */
  datatype Routing = Routing(quests: seq<Quest>, broadcasts: seq<Broadcast>, pending: seq<int>)

  /** Some quest carries the ID. */
  predicate HasQuest(quests: seq<Quest>, id: int) {
    exists i :: 0 <= i < |quests| && quests[i].questID == id
  }

  /** No two quests share an ID. */
  predicate DistinctIds(quests: seq<Quest>) {
    forall i, j :: 0 <= i < j < |quests| ==> quests[i].questID != quests[j].questID
  }

  /** The position of the first quest with the ID (the FindByPredicate of
      GetQuestByID). */
  function QuestIndex(quests: seq<Quest>, id: int): (i: nat)
    requires HasQuest(quests, id)
    ensures i < |quests| && quests[i].questID == id
    ensures forall j :: 0 <= j < i ==> quests[j].questID != id
  {
    if quests[0].questID == id then 0
    else
      assert HasQuest(quests[1..], id) by {
        var k :| 0 <= k < |quests| && quests[k].questID == id;
        assert quests[1..][k - 1].questID == id;
      }
      QuestIndex(quests[1..], id) + 1
  }

  /** GetQuestByID: the first quest with the ID. The source dereferences the
      search result unchecked, so a quest with the ID must exist. */
  function GetQuestByID(quests: seq<Quest>, id: int): (r: Quest)
    requires HasQuest(quests, id)
    ensures r in quests && r.questID == id
    ensures DistinctIds(quests) ==> forall q :: q in quests && q.questID == id ==> q == r
  {
    quests[QuestIndex(quests, id)]
  }

  /** b has a's quests with the same IDs, the same number of objectives and
      the same step orders: only progress differs. */
  predicate SameShape(a: seq<Quest>, b: seq<Quest>) {
    && |a| == |b|
    && (forall i :: 0 <= i < |a| ==>
         && a[i].questID == b[i].questID
         && |a[i].objectives| == |b[i].objectives|
         && forall j :: 0 <= j < |a[i].objectives| ==> a[i].objectives[j].order == b[i].objectives[j].order)
  }

  /** Having the same shape is transitive. */
  lemma SameShapeTrans(a: seq<Quest>, b: seq<Quest>, c: seq<Quest>)
    requires SameShape(a, b) && SameShape(b, c)
    ensures SameShape(a, c)
  {
  }

  /** Quests of the same shape are found at the same position by ID. */
  lemma SameShapeHasQuest(a: seq<Quest>, b: seq<Quest>, id: int)
    requires SameShape(a, b) && HasQuest(a, id)
    ensures HasQuest(b, id) && QuestIndex(b, id) == QuestIndex(a, id)
  {
    var i := QuestIndex(a, id);
    assert b[i].questID == id;
  }

  /** The bookkeeping after objective j of quest qi has become o': the
      step-completed event if o' is completed, and the quest's ID scheduled
      for next-tick completion if the whole quest now is. */
  function Visited(t: Routing, qi: nat, j: nat, o': Objective): (r: Routing)
    requires qi < |t.quests| && j < |t.quests[qi].objectives|
  {
    var q := t.quests[qi];
    var q' := q.(objectives := q.objectives[j := o']);
    Routing(
      t.quests[qi := q'],
      t.broadcasts + (if o'.completed then [StepCompleted(q.objectives[j].order, q.questID)] else []),
      t.pending + (if IsQuestCompleted(q') then [q.questID] else []))
  }

  /** One visit of the inner routing loop, at objective j of quest qi: if the
      objective matches it is notified, then the bookkeeping is done. */
  function RouteStep(t: Routing, qi: nat, j: nat, e: QuestEvent,
                     player: Option<ControllerId>, playerCount: nat): (r: Routing)
    requires qi < |t.quests| && j < |t.quests[qi].objectives|
    ensures SameShape(t.quests, r.quests)
    ensures forall i :: 0 <= i < |t.quests| && i != qi ==> r.quests[i] == t.quests[i]
    ensures r.quests[qi].objectives == t.quests[qi].objectives[j := Advance(t.quests[qi].objectives[j], e, player, playerCount)]
  {
    var o := t.quests[qi].objectives[j];
    if !Matches(o, e) then t else Visited(t, qi, j, Notify(o, e, player, playerCount))
  }

  /** The inner loop over the first j objectives of quest qi. */
  function RouteObjectives(t: Routing, qi: nat, j: nat, e: QuestEvent,
                           player: Option<ControllerId>, playerCount: nat): (r: Routing)
    requires qi < |t.quests| && j <= |t.quests[qi].objectives|
    ensures SameShape(t.quests, r.quests)
    ensures forall i :: 0 <= i < |t.quests| && i != qi ==> r.quests[i] == t.quests[i]
    decreases j
  {
    if j == 0 then t
    else
      var t1 := RouteObjectives(t, qi, j - 1, e, player, playerCount);
      var r := RouteStep(t1, qi, j - 1, e, player, playerCount);
      SameShapeTrans(t.quests, t1.quests, r.quests);
      r
  }

  /** One more step of the inner loop: objective j is visited. */
  lemma RouteObjectivesNext(t: Routing, qi: nat, j: nat, e: QuestEvent,
                            player: Option<ControllerId>, playerCount: nat)
    requires qi < |t.quests| && j < |t.quests[qi].objectives|
    ensures var r := RouteObjectives(t, qi, j, e, player, playerCount);
      && |r.quests| == |t.quests| && |r.quests[qi].objectives| == |t.quests[qi].objectives|
      && RouteObjectives(t, qi, j + 1, e, player, playerCount) == RouteStep(r, qi, j, e, player, playerCount)
  {
  }

  /** The inner loop over every objective of the quest with the ID. */
  function RouteQuest(t: Routing, id: int, e: QuestEvent,
                      player: Option<ControllerId>, playerCount: nat): (r: Routing)
    requires HasQuest(t.quests, id)
    ensures SameShape(t.quests, r.quests)
  {
    var qi := QuestIndex(t.quests, id);
    RouteObjectives(t, qi, |t.quests[qi].objectives|, e, player, playerCount)
  }

  /** The outer loop over the active list, one quest after the other. */
  function RouteActive(t: Routing, active: seq<int>, e: QuestEvent,
                       player: Option<ControllerId>, playerCount: nat): (r: Routing)
    requires forall id :: id in active ==> HasQuest(t.quests, id)
    ensures SameShape(t.quests, r.quests)
    decreases |active|
  {
    if active == [] then t
    else
      var last := active[|active| - 1];
      var t1 := RouteActive(t, active[..|active| - 1], e, player, playerCount);
      SameShapeHasQuest(t.quests, t1.quests, last);
      var r := RouteQuest(t1, last, e, player, playerCount);
      SameShapeTrans(t.quests, t1.quests, r.quests);
      r
  }

  /** One more step of the outer loop: the next active quest is visited. */
  lemma RouteActiveNext(t: Routing, active: seq<int>, k: nat, e: QuestEvent,
                        player: Option<ControllerId>, playerCount: nat)
    requires forall id :: id in active ==> HasQuest(t.quests, id)
    requires k < |active|
    ensures HasQuest(RouteActive(t, active[..k], e, player, playerCount).quests, active[k])
    ensures RouteActive(t, active[..k + 1], e, player, playerCount)
      == RouteQuest(RouteActive(t, active[..k], e, player, playerCount), active[k], e, player, playerCount)
  {
    assert active[..k + 1][..k] == active[..k];
    assert active[k] in active;
    SameShapeHasQuest(t.quests, RouteActive(t, active[..k], e, player, playerCount).quests, active[k]);
  }

  /** After the inner loop has visited the first j objectives, those have
      advanced once and the rest are untouched. */
  lemma {:induction false} RouteObjectivesEffect(t: Routing, qi: nat, j: nat, e: QuestEvent,
                                                 player: Option<ControllerId>, playerCount: nat)
    requires qi < |t.quests| && j <= |t.quests[qi].objectives|
    ensures var objs, r := t.quests[qi].objectives, RouteObjectives(t, qi, j, e, player, playerCount);
      forall k :: 0 <= k < |objs| ==>
        r.quests[qi].objectives[k] == if k < j then Advance(objs[k], e, player, playerCount) else objs[k]
    decreases j
  {
    if j > 0 {
      RouteObjectivesEffect(t, qi, j - 1, e, player, playerCount);
      RouteObjectivesNext(t, qi, j - 1, e, player, playerCount);
      AdvancePrefixStep(t.quests[qi].objectives,
        RouteObjectives(t, qi, j - 1, e, player, playerCount).quests[qi].objectives,
        RouteObjectives(t, qi, j, e, player, playerCount).quests[qi].objectives, j, e, player, playerCount);
    }
  }

  /** One more objective advanced: the inductive step of RouteObjectivesEffect. */
  lemma AdvancePrefixStep(objs: seq<Objective>, before: seq<Objective>, after: seq<Objective>, j: nat,
                          e: QuestEvent, player: Option<ControllerId>, playerCount: nat)
    requires |before| == |objs| && 0 < j <= |objs|
    requires forall k :: 0 <= k < |objs| ==>
      before[k] == if k < j - 1 then Advance(objs[k], e, player, playerCount) else objs[k]
    requires after == before[j - 1 := Advance(before[j - 1], e, player, playerCount)]
    ensures forall k :: 0 <= k < |objs| ==>
      after[k] == if k < j then Advance(objs[k], e, player, playerCount) else objs[k]
  {
  }

  /** Visiting a quest advances each of its objectives once and touches no
      other quest. */
  lemma RouteQuestEffect(t: Routing, id: int, e: QuestEvent,
                         player: Option<ControllerId>, playerCount: nat)
    requires HasQuest(t.quests, id)
    ensures var qi := QuestIndex(t.quests, id);
      RouteQuest(t, id, e, player, playerCount).quests
        == t.quests[qi := AdvanceQuest(t.quests[qi], e, player, playerCount)]
  {
    var qi := QuestIndex(t.quests, id);
    RouteObjectivesEffect(t, qi, |t.quests[qi].objectives|, e, player, playerCount);
    var r := RouteQuest(t, id, e, player, playerCount);
    assert r.quests[qi] == AdvanceQuest(t.quests[qi], e, player, playerCount);
  }

  /** Routing an event when the quest IDs are distinct and no quest is active
      twice advances every objective of every active quest exactly once, and
      leaves every other quest as it was. */
  lemma {:induction false} RouteActiveDistinct(t: Routing, active: seq<int>, e: QuestEvent,
                                               player: Option<ControllerId>, playerCount: nat)
    requires DistinctIds(t.quests) && NoDup(active)
    requires forall id :: id in active ==> HasQuest(t.quests, id)
    ensures RouteActive(t, active, e, player, playerCount).quests
      == AdvanceActive(t.quests, active, e, player, playerCount)
    decreases |active|
  {
    if active != [] {
      var p, last := active[..|active| - 1], active[|active| - 1];
      assert active == p + [last];
      assert last !in p;
      RouteActiveDistinct(t, p, e, player, playerCount);
      var t1 := RouteActive(t, p, e, player, playerCount);
      SameShapeHasQuest(t.quests, t1.quests, last);
      var qi := QuestIndex(t.quests, last);
      RouteQuestEffect(t1, last, e, player, playerCount);
      assert t1.quests[qi] == t.quests[qi];
      AdvanceActiveSnoc(t.quests, p, qi, e, player, playerCount);
    }
  }

  /** Advancing one more quest, not advanced before, changes that quest alone. */
  lemma AdvanceActiveSnoc(quests: seq<Quest>, p: seq<int>, qi: nat, e: QuestEvent,
                          player: Option<ControllerId>, playerCount: nat)
    requires DistinctIds(quests) && qi < |quests| && quests[qi].questID !in p
    ensures AdvanceActive(quests, p + [quests[qi].questID], e, player, playerCount)
      == AdvanceActive(quests, p, e, player, playerCount)[qi := AdvanceQuest(quests[qi], e, player, playerCount)]
  {
    var last := quests[qi].questID;
    var a := AdvanceActive(quests, p + [last], e, player, playerCount);
    var b := AdvanceActive(quests, p, e, player, playerCount)[qi := AdvanceQuest(quests[qi], e, player, playerCount)];
    forall i | 0 <= i < |quests| ensures a[i] == b[i] {
      if i != qi {
        assert quests[i].questID != last;
      }
    }
  }

  /** An event that no objective of any active quest matches changes nothing:
      no progress, no broadcast, nothing scheduled. */
  lemma {:induction false} RouteUnmatchedNoOp(t: Routing, active: seq<int>, e: QuestEvent,
                                              player: Option<ControllerId>, playerCount: nat)
    requires forall id :: id in active ==> HasQuest(t.quests, id)
    requires forall i, j ::
      (0 <= i < |t.quests| && t.quests[i].questID in active && 0 <= j < |t.quests[i].objectives|)
        ==> !Matches(t.quests[i].objectives[j], e)
    ensures RouteActive(t, active, e, player, playerCount) == t
    decreases |active|
  {
    if active != [] {
      var p, last := active[..|active| - 1], active[|active| - 1];
      assert forall i :: 0 <= i < |t.quests| && t.quests[i].questID in p ==> t.quests[i].questID in active;
      RouteUnmatchedNoOp(t, p, e, player, playerCount);
      var qi := QuestIndex(t.quests, last);
      UnmatchedObjectivesNoOp(t, qi, |t.quests[qi].objectives|, e, player, playerCount);
    }
  }

  /** Whatever the active list holds, duplicates included, routing leaves an
      objective alone when it does not match the event (a completed one
      never does) or when its quest is not active. */
  lemma {:induction false} RouteActiveLeavesUnmatched(t: Routing, active: seq<int>, e: QuestEvent,
                                                      player: Option<ControllerId>, playerCount: nat,
                                                      i: nat, j: nat)
    requires forall id :: id in active ==> HasQuest(t.quests, id)
    requires i < |t.quests| && j < |t.quests[i].objectives|
    requires !Matches(t.quests[i].objectives[j], e) || t.quests[i].questID !in active
    ensures RouteActive(t, active, e, player, playerCount).quests[i].objectives[j] == t.quests[i].objectives[j]
    decreases |active|
  {
    if active != [] {
      var p, last := active[..|active| - 1], active[|active| - 1];
      assert forall id :: id in p ==> id in active;
      RouteActiveLeavesUnmatched(t, p, e, player, playerCount, i, j);
      var t1 := RouteActive(t, p, e, player, playerCount);
      SameShapeHasQuest(t.quests, t1.quests, last);
      RouteQuestLeavesUnmatched(t1, last, e, player, playerCount, i, j);
    }
  }

  /** Visiting the quest with one ID leaves an objective alone when it does
      not match or belongs to another quest. */
  lemma RouteQuestLeavesUnmatched(t: Routing, id: int, e: QuestEvent,
                                  player: Option<ControllerId>, playerCount: nat, i: nat, j: nat)
    requires HasQuest(t.quests, id)
    requires i < |t.quests| && j < |t.quests[i].objectives|
    requires !Matches(t.quests[i].objectives[j], e) || t.quests[i].questID != id
    ensures RouteQuest(t, id, e, player, playerCount).quests[i].objectives[j] == t.quests[i].objectives[j]
  {
    RouteQuestEffect(t, id, e, player, playerCount);
  }

  /** The inner loop over objectives none of which matches changes nothing. */
  lemma {:induction false} UnmatchedObjectivesNoOp(t: Routing, qi: nat, j: nat, e: QuestEvent,
                                                   player: Option<ControllerId>, playerCount: nat)
    requires qi < |t.quests| && j <= |t.quests[qi].objectives|
    requires forall k :: 0 <= k < j ==> !Matches(t.quests[qi].objectives[k], e)
    ensures RouteObjectives(t, qi, j, e, player, playerCount) == t
    decreases j
  {
    if j > 0 {
      UnmatchedObjectivesNoOp(t, qi, j - 1, e, player, playerCount);
    }
  }

  // What routing adds to the broadcast log and to the next-tick schedule.

  /** Routing from t0 to t only made progress: same shape, the schedule and
      the log only grew, and a step completed in t0 is untouched in t. */
  ghost predicate Grows(t0: Routing, t: Routing) {
    && SameShape(t0.quests, t.quests)
    && |t0.pending| <= |t.pending| && t.pending[..|t0.pending|] == t0.pending
    && |t0.broadcasts| <= |t.broadcasts| && t.broadcasts[..|t0.broadcasts|] == t0.broadcasts
    && forall i, j ::
         (0 <= i < |t0.quests| && 0 <= j < |t0.quests[i].objectives| && t0.quests[i].objectives[j].completed)
           ==> t.quests[i].objectives[j] == t0.quests[i].objectives[j]
  }

  /** Quest i was not completed in t0 and is in t. */
  predicate QuestNewlyCompleted(t0: Routing, t: Routing, i: int) {
    0 <= i < |t0.quests| && i < |t.quests|
      && !IsQuestCompleted(t0.quests[i]) && IsQuestCompleted(t.quests[i])
  }

  /** Step j of quest i was not completed in t0 and is in t. */
  predicate StepNewlyCompleted(t0: Routing, t: Routing, i: int, j: int) {
    0 <= i < |t0.quests| && i < |t.quests|
      && 0 <= j < |t0.quests[i].objectives| && j < |t.quests[i].objectives|
      && !t0.quests[i].objectives[j].completed && t.quests[i].objectives[j].completed
  }

  /** The ID is that of a quest completed between t0 and t. */
  ghost predicate CompletedBetween(t0: Routing, t: Routing, id: int) {
    exists i :: QuestNewlyCompleted(t0, t, i) && t.quests[i].questID == id
  }

  /** The broadcast is the step-completed event of a step completed between
      t0 and t. */
  ghost predicate RaisedBetween(t0: Routing, t: Routing, b: Broadcast) {
    exists i, j :: StepNewlyCompleted(t0, t, i, j)
      && b == StepCompleted(t.quests[i].objectives[j].order, t.quests[i].questID)
  }

  /** Every ID scheduled between t0 and t is that of a quest completed in
      between. */
  ghost predicate PendingSound(t0: Routing, t: Routing)
    requires |t0.pending| <= |t.pending|
  {
    forall k :: |t0.pending| <= k < |t.pending| ==> CompletedBetween(t0, t, t.pending[k])
  }

  /** Every quest completed between t0 and t has its ID scheduled in between. */
  ghost predicate PendingComplete(t0: Routing, t: Routing)
    requires |t0.pending| <= |t.pending|
  {
    forall i :: QuestNewlyCompleted(t0, t, i) ==> t.quests[i].questID in t.pending[|t0.pending|..]
  }

  /** The IDs scheduled between t0 and t are exactly the IDs of the quests
      completed in between, each once when the IDs are distinct. */
  ghost predicate PendingExact(t0: Routing, t: Routing) {
    && Grows(t0, t)
    && PendingSound(t0, t)
    && PendingComplete(t0, t)
    && (DistinctIds(t0.quests) ==> NoDup(t.pending[|t0.pending|..]))
  }

  /** The broadcasts raised between t0 and t are step-completed events for
      exactly the steps completed in between. */
  ghost predicate StepsExact(t0: Routing, t: Routing) {
    && Grows(t0, t)
    && (forall k :: |t0.broadcasts| <= k < |t.broadcasts| ==> RaisedBetween(t0, t, t.broadcasts[k]))
    && (forall i, j :: StepNewlyCompleted(t0, t, i, j) ==>
         StepCompleted(t.quests[i].objectives[j].order, t.quests[i].questID) in t.broadcasts[|t0.broadcasts|..])
  }

  /** Both of the above: routing from t0 to t did exactly its bookkeeping. */
  ghost predicate Exact(t0: Routing, t: Routing) {
    PendingExact(t0, t) && StepsExact(t0, t)
  }

  /** The bookkeeping of a visit to a step that was not completed, and whose
      order the handler kept, only makes progress. */
  lemma VisitedGrows(t0: Routing, t: Routing, qi: nat, j: nat, o': Objective)
    requires Grows(t0, t)
    requires qi < |t.quests| && j < |t.quests[qi].objectives|
    requires !t.quests[qi].objectives[j].completed && o'.order == t.quests[qi].objectives[j].order
    ensures Grows(t0, Visited(t, qi, j, o'))
  {
    assert !t0.quests[qi].objectives[j].completed;
    var r := Visited(t, qi, j, o');
    SameShapeTrans(t0.quests, t.quests, r.quests);
    assert r.pending[..|t0.pending|] == t.pending[..|t0.pending|];
    assert r.broadcasts[..|t0.broadcasts|] == t.broadcasts[..|t0.broadcasts|];
  }

  /** ... and schedules exactly the quest it completes, if it completes it. */
  lemma VisitedPending(t0: Routing, t: Routing, qi: nat, j: nat, o': Objective)
    requires PendingExact(t0, t)
    requires qi < |t.quests| && j < |t.quests[qi].objectives|
    requires !t.quests[qi].objectives[j].completed && o'.order == t.quests[qi].objectives[j].order
    ensures PendingExact(t0, Visited(t, qi, j, o'))
  {
    VisitedGrows(t0, t, qi, j, o');
    var r := Visited(t, qi, j, o');
    var id := t.quests[qi].questID;
    var added := t.pending[|t0.pending|..];
    assert !IsQuestCompleted(t.quests[qi]);
    assert r.pending[|t0.pending|..] == added + (if IsQuestCompleted(r.quests[qi]) then [id] else []);
    forall k | |t0.pending| <= k < |r.pending| ensures CompletedBetween(t0, r, r.pending[k]) {
      if k < |t.pending| {
        assert CompletedBetween(t0, t, t.pending[k]);
        var i :| QuestNewlyCompleted(t0, t, i) && t.quests[i].questID == t.pending[k];
        assert i != qi;
        assert QuestNewlyCompleted(t0, r, i);
      } else {
        assert QuestNewlyCompleted(t0, r, qi);
      }
    }
    forall i | QuestNewlyCompleted(t0, r, i) ensures r.quests[i].questID in r.pending[|t0.pending|..] {
      if i != qi {
        assert QuestNewlyCompleted(t0, t, i);
      }
    }
    if DistinctIds(t0.quests) && IsQuestCompleted(r.quests[qi]) {
      if id in added {
        assert false;
      }
    }
  }

  /** ... and raises step-completed exactly for the step it completes. */
  lemma VisitedSteps(t0: Routing, t: Routing, qi: nat, j: nat, o': Objective)
    requires StepsExact(t0, t)
    requires qi < |t.quests| && j < |t.quests[qi].objectives|
    requires !t.quests[qi].objectives[j].completed && o'.order == t.quests[qi].objectives[j].order
    ensures StepsExact(t0, Visited(t, qi, j, o'))
  {
    VisitedGrows(t0, t, qi, j, o');
    var r := Visited(t, qi, j, o');
    var b := StepCompleted(o'.order, r.quests[qi].questID);
    var added := t.broadcasts[|t0.broadcasts|..];
    assert r.broadcasts[|t0.broadcasts|..] == added + (if o'.completed then [b] else []);
    forall k | |t0.broadcasts| <= k < |r.broadcasts| ensures RaisedBetween(t0, r, r.broadcasts[k]) {
      if k < |t.broadcasts| {
        assert RaisedBetween(t0, t, t.broadcasts[k]);
        var i, j' :| StepNewlyCompleted(t0, t, i, j')
          && t.broadcasts[k] == StepCompleted(t.quests[i].objectives[j'].order, t.quests[i].questID);
        assert (i, j') != (qi, j);
        assert StepNewlyCompleted(t0, r, i, j');
      } else {
        assert StepNewlyCompleted(t0, r, qi, j);
      }
    }
    forall i, j' | StepNewlyCompleted(t0, r, i, j')
      ensures StepCompleted(r.quests[i].objectives[j'].order, r.quests[i].questID) in r.broadcasts[|t0.broadcasts|..]
    {
      if (i, j') != (qi, j) {
        assert StepNewlyCompleted(t0, t, i, j');
      }
    }
  }

  /** One visit of the inner loop keeps the schedule exact. */
  lemma RouteStepPending(t0: Routing, t: Routing, qi: nat, j: nat, e: QuestEvent,
                         player: Option<ControllerId>, playerCount: nat)
    requires PendingExact(t0, t)
    requires qi < |t.quests| && j < |t.quests[qi].objectives|
    ensures PendingExact(t0, RouteStep(t, qi, j, e, player, playerCount))
  {
    var o := t.quests[qi].objectives[j];
    if Matches(o, e) {
      VisitedPending(t0, t, qi, j, Notify(o, e, player, playerCount));
    }
  }

  /** One visit of the inner loop keeps the broadcast log exact. */
  lemma RouteStepSteps(t0: Routing, t: Routing, qi: nat, j: nat, e: QuestEvent,
                       player: Option<ControllerId>, playerCount: nat)
    requires StepsExact(t0, t)
    requires qi < |t.quests| && j < |t.quests[qi].objectives|
    ensures StepsExact(t0, RouteStep(t, qi, j, e, player, playerCount))
  {
    var o := t.quests[qi].objectives[j];
    if Matches(o, e) {
      VisitedSteps(t0, t, qi, j, Notify(o, e, player, playerCount));
    }
  }

  /** Routing from a state is exact with respect to that state. */
  lemma ExactFromItself(t: Routing)
    ensures PendingExact(t, t) && StepsExact(t, t)
  {
    assert t.pending[..|t.pending|] == t.pending;
    assert t.broadcasts[..|t.broadcasts|] == t.broadcasts;
  }

  /** The inner loop keeps the schedule exact. */
  lemma {:induction false} RouteObjectivesPending(t: Routing, qi: nat, j: nat, e: QuestEvent,
                                                  player: Option<ControllerId>, playerCount: nat)
    requires qi < |t.quests| && j <= |t.quests[qi].objectives|
    ensures PendingExact(t, RouteObjectives(t, qi, j, e, player, playerCount))
    decreases j
  {
    if j > 0 {
      RouteObjectivesPending(t, qi, j - 1, e, player, playerCount);
      RouteObjectivesPendingNext(t, t, qi, j - 1, j, e, player, playerCount);
    } else {
      ExactFromItself(t);
    }
  }

  /** One more visit of the inner loop, from j to j' = j + 1 objectives,
      keeps the schedule exact. */
  lemma RouteObjectivesPendingNext(t0: Routing, t: Routing, qi: nat, j: nat, j': nat, e: QuestEvent,
                                   player: Option<ControllerId>, playerCount: nat)
    requires qi < |t.quests| && j < |t.quests[qi].objectives| && j' == j + 1
    requires PendingExact(t0, RouteObjectives(t, qi, j, e, player, playerCount))
    ensures PendingExact(t0, RouteObjectives(t, qi, j', e, player, playerCount))
  {
    RouteObjectivesNext(t, qi, j, e, player, playerCount);
    RouteStepPending(t0, RouteObjectives(t, qi, j, e, player, playerCount), qi, j, e, player, playerCount);
  }

  /** The inner loop keeps the broadcast log exact. */
  lemma {:induction false} RouteObjectivesSteps(t: Routing, qi: nat, j: nat, e: QuestEvent,
                                                player: Option<ControllerId>, playerCount: nat)
    requires qi < |t.quests| && j <= |t.quests[qi].objectives|
    ensures StepsExact(t, RouteObjectives(t, qi, j, e, player, playerCount))
    decreases j
  {
    if j > 0 {
      RouteObjectivesSteps(t, qi, j - 1, e, player, playerCount);
      RouteObjectivesStepsNext(t, t, qi, j - 1, j, e, player, playerCount);
    } else {
      ExactFromItself(t);
    }
  }

  /** One more visit of the inner loop, from j to j' = j + 1 objectives,
      keeps the broadcast log exact. */
  lemma RouteObjectivesStepsNext(t0: Routing, t: Routing, qi: nat, j: nat, j': nat, e: QuestEvent,
                                 player: Option<ControllerId>, playerCount: nat)
    requires qi < |t.quests| && j < |t.quests[qi].objectives| && j' == j + 1
    requires StepsExact(t0, RouteObjectives(t, qi, j, e, player, playerCount))
    ensures StepsExact(t0, RouteObjectives(t, qi, j', e, player, playerCount))
  {
    RouteObjectivesNext(t, qi, j, e, player, playerCount);
    RouteStepSteps(t0, RouteObjectives(t, qi, j, e, player, playerCount), qi, j, e, player, playerCount);
  }

  /** A completed quest stays as it is while routing only makes progress. */
  lemma CompletedQuestStays(b: Routing, c: Routing, i: int)
    requires Grows(b, c) && 0 <= i < |b.quests| && IsQuestCompleted(b.quests[i])
    ensures c.quests[i] == b.quests[i]
  {
    assert c.quests[i].objectives == b.quests[i].objectives;
  }

  /** Making progress is transitive. */
  lemma GrowsTrans(a: Routing, b: Routing, c: Routing)
    requires Grows(a, b) && Grows(b, c)
    ensures Grows(a, c)
  {
    SameShapeTrans(a.quests, b.quests, c.quests);
    assert c.pending[..|a.pending|] == c.pending[..|b.pending|][..|a.pending|];
    assert c.broadcasts[..|a.broadcasts|] == c.broadcasts[..|b.broadcasts|][..|a.broadcasts|];
  }

  /** A quest completed between a and b, or between b and c, is completed
      between a and c. */
  lemma CompletedBetweenTrans(a: Routing, b: Routing, c: Routing, id: int)
    requires Grows(a, b) && Grows(b, c)
    requires CompletedBetween(a, b, id) || CompletedBetween(b, c, id)
    ensures CompletedBetween(a, c, id)
  {
    if CompletedBetween(a, b, id) {
      var i :| QuestNewlyCompleted(a, b, i) && b.quests[i].questID == id;
      CompletedQuestStays(b, c, i);
      assert QuestNewlyCompleted(a, c, i);
    } else {
      var i :| QuestNewlyCompleted(b, c, i) && c.quests[i].questID == id;
      if IsQuestCompleted(a.quests[i]) {
        CompletedQuestStays(a, b, i);
      }
      assert QuestNewlyCompleted(a, c, i);
    }
  }

  /** Exact scheduling composes: a then b then c is exact from a. */
  lemma PendingExactTrans(a: Routing, b: Routing, c: Routing)
    requires PendingExact(a, b) && PendingExact(b, c)
    ensures PendingExact(a, c)
  {
    GrowsTrans(a, b, c);
    PendingSoundTrans(a, b, c);
    PendingCompleteTrans(a, b, c);
    if DistinctIds(a.quests) {
      PendingDisjoint(a, b, c);
    }
  }

  /** Sound scheduling composes. */
  lemma PendingSoundTrans(a: Routing, b: Routing, c: Routing)
    requires Grows(a, b) && Grows(b, c) && PendingSound(a, b) && PendingSound(b, c)
    ensures |a.pending| <= |c.pending| && PendingSound(a, c)
  {
    forall k | |a.pending| <= k < |c.pending| ensures CompletedBetween(a, c, c.pending[k]) {
      if k < |b.pending| {
        assert c.pending[k] == c.pending[..|b.pending|][k];
        assert CompletedBetween(a, b, b.pending[k]);
      } else {
        assert CompletedBetween(b, c, c.pending[k]);
      }
      CompletedBetweenTrans(a, b, c, c.pending[k]);
    }
  }

  /** Complete scheduling composes. */
  lemma PendingCompleteTrans(a: Routing, b: Routing, c: Routing)
    requires Grows(a, b) && Grows(b, c) && PendingComplete(a, b) && PendingComplete(b, c)
    ensures |a.pending| <= |c.pending| && PendingComplete(a, c)
  {
    var ab, bc := b.pending[|a.pending|..], c.pending[|b.pending|..];
    assert c.pending[|a.pending|..] == ab + bc by {
      assert c.pending == c.pending[..|b.pending|] + bc;
    }
    forall i | QuestNewlyCompleted(a, c, i) ensures c.quests[i].questID in ab + bc {
      if IsQuestCompleted(b.quests[i]) {
        assert QuestNewlyCompleted(a, b, i);
      } else {
        assert QuestNewlyCompleted(b, c, i);
      }
    }
  }

  /** With distinct IDs, what a to b scheduled and what b to c scheduled are
      distinct lists with no ID in common. */
  lemma PendingDisjoint(a: Routing, b: Routing, c: Routing)
    requires PendingExact(a, b) && PendingExact(b, c) && DistinctIds(a.quests)
    ensures NoDup(c.pending[|a.pending|..])
  {
    var ab, bc := b.pending[|a.pending|..], c.pending[|b.pending|..];
    assert c.pending[|a.pending|..] == ab + bc by {
      assert c.pending == c.pending[..|b.pending|] + bc;
    }
    assert DistinctIds(b.quests);
    forall x | x in ab ensures x !in bc {
      var k :| 0 <= k < |ab| && ab[k] == x;
      assert CompletedBetween(a, b, b.pending[|a.pending| + k]);
      var i :| QuestNewlyCompleted(a, b, i) && b.quests[i].questID == x;
      NotCompletedAgain(b, c, i);
    }
    NoDupConcat(ab, bc);
  }

  /** With distinct IDs, a quest already completed cannot complete again. */
  lemma NotCompletedAgain(b: Routing, c: Routing, i: int)
    requires PendingExact(b, c) && DistinctIds(b.quests)
    requires 0 <= i < |b.quests| && IsQuestCompleted(b.quests[i])
    ensures b.quests[i].questID !in c.pending[|b.pending|..]
  {
    var bc := c.pending[|b.pending|..];
    forall k | 0 <= k < |bc| ensures bc[k] != b.quests[i].questID {
      assert CompletedBetween(b, c, c.pending[|b.pending| + k]);
      var i' :| QuestNewlyCompleted(b, c, i') && c.quests[i'].questID == bc[k];
      assert b.quests[i'].questID == bc[k];
    }
  }

  /** A step completed between a and b, or between b and c, is completed
      between a and c. */
  lemma RaisedBetweenTrans(a: Routing, b: Routing, c: Routing, x: Broadcast)
    requires Grows(a, b) && Grows(b, c)
    requires RaisedBetween(a, b, x) || RaisedBetween(b, c, x)
    ensures RaisedBetween(a, c, x)
  {
    if RaisedBetween(a, b, x) {
      var i, j :| StepNewlyCompleted(a, b, i, j)
        && x == StepCompleted(b.quests[i].objectives[j].order, b.quests[i].questID);
      assert StepNewlyCompleted(a, c, i, j);
    } else {
      var i, j :| StepNewlyCompleted(b, c, i, j)
        && x == StepCompleted(c.quests[i].objectives[j].order, c.quests[i].questID);
      assert StepNewlyCompleted(a, c, i, j);
    }
  }

  /** Exact step reporting composes. */
  lemma StepsExactTrans(a: Routing, b: Routing, c: Routing)
    requires StepsExact(a, b) && StepsExact(b, c)
    ensures StepsExact(a, c)
  {
    GrowsTrans(a, b, c);
    var ab, bc := b.broadcasts[|a.broadcasts|..], c.broadcasts[|b.broadcasts|..];
    assert c.broadcasts[|a.broadcasts|..] == ab + bc by {
      assert c.broadcasts == c.broadcasts[..|b.broadcasts|] + bc;
    }
    forall k | |a.broadcasts| <= k < |c.broadcasts| ensures RaisedBetween(a, c, c.broadcasts[k]) {
      if k < |b.broadcasts| {
        assert c.broadcasts[k] == b.broadcasts[k];
        assert RaisedBetween(a, b, b.broadcasts[k]);
      } else {
        assert RaisedBetween(b, c, c.broadcasts[k]);
      }
      RaisedBetweenTrans(a, b, c, c.broadcasts[k]);
    }
    forall i, j | StepNewlyCompleted(a, c, i, j)
      ensures StepCompleted(c.quests[i].objectives[j].order, c.quests[i].questID) in ab + bc
    {
      if b.quests[i].objectives[j].completed {
        assert StepNewlyCompleted(a, b, i, j);
        assert c.quests[i].objectives[j] == b.quests[i].objectives[j];
      } else {
        assert StepNewlyCompleted(b, c, i, j);
      }
    }
  }

  /** The outer loop keeps the schedule exact. */
  lemma {:induction false} RouteActivePending(t: Routing, active: seq<int>, e: QuestEvent,
                                              player: Option<ControllerId>, playerCount: nat)
    requires forall id :: id in active ==> HasQuest(t.quests, id)
    ensures PendingExact(t, RouteActive(t, active, e, player, playerCount))
    decreases |active|
  {
    if active == [] {
      ExactFromItself(t);
    } else {
      var p, last := active[..|active| - 1], active[|active| - 1];
      RouteActivePending(t, p, e, player, playerCount);
      var t1 := RouteActive(t, p, e, player, playerCount);
      SameShapeHasQuest(t.quests, t1.quests, last);
      var qi := QuestIndex(t1.quests, last);
      RouteObjectivesPending(t1, qi, |t1.quests[qi].objectives|, e, player, playerCount);
      PendingExactTrans(t, t1, RouteQuest(t1, last, e, player, playerCount));
    }
  }

  /** The outer loop keeps the broadcast log exact. */
  lemma {:induction false} RouteActiveSteps(t: Routing, active: seq<int>, e: QuestEvent,
                                            player: Option<ControllerId>, playerCount: nat)
    requires forall id :: id in active ==> HasQuest(t.quests, id)
    ensures StepsExact(t, RouteActive(t, active, e, player, playerCount))
    decreases |active|
  {
    if active == [] {
      ExactFromItself(t);
    } else {
      var p, last := active[..|active| - 1], active[|active| - 1];
      RouteActiveSteps(t, p, e, player, playerCount);
      var t1 := RouteActive(t, p, e, player, playerCount);
      SameShapeHasQuest(t.quests, t1.quests, last);
      var qi := QuestIndex(t1.quests, last);
      RouteObjectivesSteps(t1, qi, |t1.quests[qi].objectives|, e, player, playerCount);
      StepsExactTrans(t, t1, RouteQuest(t1, last, e, player, playerCount));
    }
  }

  /** Routing an event schedules for next-tick completion exactly the quests
      it completed, each once when quest IDs are distinct, and raises a
      step-completed event for exactly the steps it completed; it never undoes
      a completed step. */
  lemma RouteSchedulesExactly(t: Routing, active: seq<int>, e: QuestEvent,
                              player: Option<ControllerId>, playerCount: nat)
    requires forall id :: id in active ==> HasQuest(t.quests, id)
    ensures Exact(t, RouteActive(t, active, e, player, playerCount))
  {
    RouteActivePending(t, active, e, player, playerCount);
    RouteActiveSteps(t, active, e, player, playerCount);
  }

  /** Routing from t0 reached t by adding only what routing adds: step
      completions and next-tick entries for quests in the active list. */
  ghost predicate OnlyActiveAdded(t0: Routing, t: Routing, active: seq<int>) {
    && |t0.broadcasts| <= |t.broadcasts| && t.broadcasts[..|t0.broadcasts|] == t0.broadcasts
    && |t0.pending| <= |t.pending| && t.pending[..|t0.pending|] == t0.pending
    && (forall k :: |t0.broadcasts| <= k < |t.broadcasts| ==>
         t.broadcasts[k].StepCompleted? && t.broadcasts[k].questID in active)
    && (forall k :: |t0.pending| <= k < |t.pending| ==> t.pending[k] in active)
  }

  /** Two routing stretches in a row add what each adds. */
  lemma OnlyActiveAddedTrans(a: Routing, b: Routing, c: Routing, p: seq<int>, q: seq<int>, active: seq<int>)
    requires OnlyActiveAdded(a, b, p) && OnlyActiveAdded(b, c, q)
    requires forall id :: id in p ==> id in active
    requires forall id :: id in q ==> id in active
    ensures OnlyActiveAdded(a, c, active)
  {
    assert c.broadcasts[..|a.broadcasts|] == c.broadcasts[..|b.broadcasts|][..|a.broadcasts|];
    assert c.pending[..|a.pending|] == c.pending[..|b.pending|][..|a.pending|];
    forall k | |a.broadcasts| <= k < |c.broadcasts|
      ensures c.broadcasts[k].StepCompleted? && c.broadcasts[k].questID in active
    {
      if k < |b.broadcasts| {
        assert c.broadcasts[..|b.broadcasts|][k] == c.broadcasts[k];
        assert b.broadcasts[k].questID in p;
      } else {
        assert c.broadcasts[k].questID in q;
      }
    }
    forall k | |a.pending| <= k < |c.pending| ensures c.pending[k] in active {
      if k < |b.pending| {
        assert c.pending[..|b.pending|][k] == c.pending[k];
        assert c.pending[k] == b.pending[k];
        assert b.pending[k] in p;
        assert b.pending[k] in active;
      } else {
        var id := c.pending[k];
        assert id in q;
        assert id in active;
      }
    }
  }

  /** One visit adds at most that quest's step completion and its ID. */
  lemma RouteStepAdds(t: Routing, qi: nat, j: nat, e: QuestEvent,
                      player: Option<ControllerId>, playerCount: nat)
    requires qi < |t.quests| && j < |t.quests[qi].objectives|
    ensures OnlyActiveAdded(t, RouteStep(t, qi, j, e, player, playerCount), [t.quests[qi].questID])
  {
    var r := RouteStep(t, qi, j, e, player, playerCount);
    assert r.broadcasts[..|t.broadcasts|] == t.broadcasts;
    assert r.pending[..|t.pending|] == t.pending;
  }

  /** Visiting the objectives of the quest with ID id adds only that quest's
      step completions and that quest's ID to the schedule. */
  lemma {:induction false} RouteObjectivesAdds(t: Routing, qi: nat, j: nat, e: QuestEvent,
                                               player: Option<ControllerId>, playerCount: nat)
    requires qi < |t.quests| && j <= |t.quests[qi].objectives|
    ensures OnlyActiveAdded(t, RouteObjectives(t, qi, j, e, player, playerCount), [t.quests[qi].questID])
    decreases j
  {
    if j == 0 {
      assert t.broadcasts[..|t.broadcasts|] == t.broadcasts;
      assert t.pending[..|t.pending|] == t.pending;
    } else {
      RouteObjectivesAdds(t, qi, j - 1, e, player, playerCount);
      RouteObjectivesAddsNext(t, qi, j - 1, j, e, player, playerCount);
    }
  }

  /** One more visit of the inner loop, from j to j' = j + 1 objectives,
      adds only that quest's entries. */
  lemma RouteObjectivesAddsNext(t: Routing, qi: nat, j: nat, j': nat, e: QuestEvent,
                                player: Option<ControllerId>, playerCount: nat)
    requires qi < |t.quests| && j < |t.quests[qi].objectives| && j' == j + 1
    requires OnlyActiveAdded(t, RouteObjectives(t, qi, j, e, player, playerCount), [t.quests[qi].questID])
    ensures OnlyActiveAdded(t, RouteObjectives(t, qi, j', e, player, playerCount), [t.quests[qi].questID])
  {
    var id := t.quests[qi].questID;
    RouteObjectivesNext(t, qi, j, e, player, playerCount);
    var t1 := RouteObjectives(t, qi, j, e, player, playerCount);
    assert t1.quests[qi].questID == id;
    RouteStepAdds(t1, qi, j, e, player, playerCount);
    OnlyActiveAddedTrans(t, t1, RouteStep(t1, qi, j, e, player, playerCount), [id], [id], [id]);
  }

  /** Routing adds only step completions of active quests to the log and
      only active quests to the next-tick schedule; the log and the schedule
      keep what they held. */
  lemma {:induction false} RouteActiveAdds(t: Routing, active: seq<int>, e: QuestEvent,
                                           player: Option<ControllerId>, playerCount: nat)
    requires forall id :: id in active ==> HasQuest(t.quests, id)
    ensures OnlyActiveAdded(t, RouteActive(t, active, e, player, playerCount), active)
    decreases |active|
  {
    if active == [] {
      assert t.broadcasts[..|t.broadcasts|] == t.broadcasts;
      assert t.pending[..|t.pending|] == t.pending;
    } else {
      var p, last := active[..|active| - 1], active[|active| - 1];
      assert forall id :: id in p ==> id in active;
      RouteActiveAdds(t, p, e, player, playerCount);
      var t1 := RouteActive(t, p, e, player, playerCount);
      SameShapeHasQuest(t.quests, t1.quests, last);
      var qi := QuestIndex(t1.quests, last);
      RouteObjectivesAdds(t1, qi, |t1.quests[qi].objectives|, e, player, playerCount);
      OnlyActiveAddedTrans(t, t1, RouteQuest(t1, last, e, player, playerCount), p, [last], active);
    }
  }

  /** A quest activated twice sits twice in the active list, and one kill
      then advances its Kill step twice: two of three kills are counted. */
  lemma DuplicateActiveCountsTwice(player: ControllerId, playerCount: nat)
    ensures var o := Objective(1, 1, false, false, [], Kill("Enemy.Wolf", 3, 0));
      var t := Routing([Quest(1, [o])], [], []);
      && HasQuest(t.quests, 1)
      && (var r := RouteActive(t, [1, 1], EntityKilled("Enemy.Wolf"), Some(player), playerCount);
          && |r.quests| == 1 && |r.quests[0].objectives| == 1
          && r.quests[0].objectives[0].kind == Kill("Enemy.Wolf", 3, 2))
  {
    var t := Routing([Quest(1, [Objective(1, 1, false, false, [], Kill("Enemy.Wolf", 3, 0))])], [], []);
    var e := EntityKilled("Enemy.Wolf");
    assert t.quests[0].questID == 1;
    RouteActiveNext(t, [1, 1], 0, e, Some(player), playerCount);
    RouteActiveNext(t, [1, 1], 1, e, Some(player), playerCount);
    assert [1, 1][..0] == [] && [1, 1][..2] == [1, 1];
    WolfKilled(t, 0, player, playerCount);
    WolfKilled(RouteActive(t, [1, 1][..1], e, Some(player), playerCount), 1, player, playerCount);
  }

  /** One wolf killed while a single quest holds a single Kill step below its
      target counts one more kill and leaves the step open. */
  lemma WolfKilled(t: Routing, k: nat, player: ControllerId, playerCount: nat)
    requires k < 2
    requires t.quests == [Quest(1, [Objective(1, 1, false, false, [], Kill("Enemy.Wolf", 3, k))])]
    ensures HasQuest(t.quests, 1)
      && RouteQuest(t, 1, EntityKilled("Enemy.Wolf"), Some(player), playerCount).quests
      == [Quest(1, [Objective(1, 1, false, false, [], Kill("Enemy.Wolf", 3, k + 1))])]
  {
    var e := EntityKilled("Enemy.Wolf");
    var o := t.quests[0].objectives[0];
    assert t.quests[0].questID == 1;
    RouteQuestEffect(t, 1, e, Some(player), playerCount);
    assert Matches(o, e);
    var n := OnEntityKilled(o, Some(player), playerCount);
    assert n == Objective(1, 1, false, false, [], Kill("Enemy.Wolf", 3, k + 1));
    assert QuestIndex(t.quests, 1) == 0;
    assert AdvanceQuest(t.quests[0], e, Some(player), playerCount) == Quest(1, [n]);
  }
}
