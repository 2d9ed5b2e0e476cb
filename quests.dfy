/** FQuest of the Actors/ revision (Public/Actors/QuestManager.h): a quest
    built from one data-table row of per-kind objective maps, keyed by step
    order, into a single list of objectives sorted by that order. */
module Quests {
  import opened Common
  import opened Objectives

  /** The authored part of each objective kind that FQuest::Init copies into
      the live objective (rewards, markers, descriptions and spawn data only
      drive presentation and are not kept). */
  datatype GoToRow = GoToRow(requiresAllPlayers: bool, placeToGo: Tag)
  datatype TalkWithRow = TalkWithRow(requiresAllPlayers: bool, entityToTalkWith: Tag)
  datatype KillRow = KillRow(requiresAllPlayers: bool, entityToKill: Tag, amountToKill: int)
  datatype GatherRow = GatherRow(requiresAllPlayers: bool, itemToGather: Tag, amountToGather: int)
  datatype CatchRow = CatchRow(requiresAllPlayers: bool, allowedTagToCatch: seq<Tag>, amountNeeded: int)

  /** One data-table row: the five objective maps keyed by step order. A
      TMap is iterated in its storage order, so each map is its list of
      (key, value) entries in that order, keys unique within the map. */
  datatype QuestRow = QuestRow(
    goToObjectives: seq<(int, GoToRow)>,
    talkWithObjectives: seq<(int, TalkWithRow)>,
    killObjectives: seq<(int, KillRow)>,
    gatherObjectives: seq<(int, GatherRow)>,
    catchObjectives: seq<(int, CatchRow)>)

  /** The keys of a map's entry list are unique. */
  predicate UniqueKeys<R>(entries: seq<(int, R)>) {
    forall i, j :: 0 <= i < j < |entries| ==> entries[i].0 != entries[j].0
  }

  /** A live quest: its ID and its objectives, ascending by step order. */
  datatype Quest = Quest(questID: int, objectives: seq<Objective>)

  /** The default-constructed FQuest, whose ID is -1. */
  function DefaultQuest(): (r: Quest)
    ensures r.questID == -1 && r.objectives == []
  {
    Quest(-1, [])
  }

  /** The sort key of ObjectivesArray.Sort. */
  function StepOrder(o: Objective): int {
    o.order
  }

  // The objective each subclass constructor builds in FQuest::Init: the map
  // key becomes the order, the quest ID the parent, progress starts at zero.

  function GoToStep(questID: int, order: int, row: GoToRow): (r: Objective)
    ensures IsValid(Base(r)) <==> order > 0
    ensures r.order == order && r.parentQuestID == questID && r.requiresAllPlayers == row.requiresAllPlayers
    ensures !r.completed && r.completedControllers == []
    ensures r.kind.GoTo? && r.kind.placeToGo == row.placeToGo
  {
    Objective(order, questID, row.requiresAllPlayers, false, [], GoTo(row.placeToGo))
  }

  function TalkWithStep(questID: int, order: int, row: TalkWithRow): (r: Objective)
    ensures IsValid(Base(r)) <==> order > 0
    ensures r.order == order && r.parentQuestID == questID && r.requiresAllPlayers == row.requiresAllPlayers
    ensures !r.completed && r.completedControllers == []
    ensures r.kind.TalkWith? && r.kind.entityToTalkWith == row.entityToTalkWith
  {
    Objective(order, questID, row.requiresAllPlayers, false, [], TalkWith(row.entityToTalkWith))
  }

  function KillStep(questID: int, order: int, row: KillRow): (r: Objective)
    ensures IsValid(Base(r)) <==> order > 0
    ensures r.order == order && r.parentQuestID == questID && r.requiresAllPlayers == row.requiresAllPlayers
    ensures !r.completed && r.completedControllers == []
    ensures r.kind.Kill? && r.kind.entityToKill == row.entityToKill && r.kind.amountToKill == row.amountToKill
    ensures r.kind.currentlyKilled == 0
  {
    Objective(order, questID, row.requiresAllPlayers, false, [], Kill(row.entityToKill, row.amountToKill, 0))
  }

  function GatherStep(questID: int, order: int, row: GatherRow): (r: Objective)
    ensures IsValid(Base(r)) <==> order > 0
    ensures r.order == order && r.parentQuestID == questID && r.requiresAllPlayers == row.requiresAllPlayers
    ensures !r.completed && r.completedControllers == []
    ensures r.kind.Gather? && r.kind.itemToGather == row.itemToGather && r.kind.amountToGather == row.amountToGather
    ensures r.kind.currentlyGathered == 0
  {
    Objective(order, questID, row.requiresAllPlayers, false, [], Gather(row.itemToGather, row.amountToGather, 0))
  }

  /** The Catch constructor used by Init takes no amount, so AmountNeeded
      keeps its default of 1 whatever the row says. */
  function CatchStep(questID: int, order: int, row: CatchRow): (r: Objective)
    ensures IsValid(Base(r)) <==> order > 0
    ensures r.order == order && r.parentQuestID == questID && r.requiresAllPlayers == row.requiresAllPlayers
    ensures !r.completed && r.completedControllers == []
    ensures r.kind.Catch? && r.kind.allowedTagToCatch == row.allowedTagToCatch
    ensures r.kind.amountNeeded == 1 && r.kind.currentlyCatched == 0
  {
    Objective(order, questID, row.requiresAllPlayers, false, [], Catch(row.allowedTagToCatch, 1, 0))
  }

  /** One built objective per entry of the list, in entry order. */
  function BuildEach<R>(entries: seq<(int, R)>, build: (int, R) -> Objective): (objs: seq<Objective>)
    ensures |objs| == |entries|
    ensures forall i :: 0 <= i < |entries| ==> objs[i] == build(entries[i].0, entries[i].1)
  {
    seq(|entries|, i requires 0 <= i < |entries| => build(entries[i].0, entries[i].1))
  }

  /** ObjectivesArray before the sort: the GoTo, TalkWith, Kill, Gather and
      Catch loops one after the other. */
  function Unsorted(questID: int, row: QuestRow): seq<Objective> {
    BuildEach(row.goToObjectives, (k, r) => GoToStep(questID, k, r))
      + BuildEach(row.talkWithObjectives, (k, r) => TalkWithStep(questID, k, r))
      + BuildEach(row.killObjectives, (k, r) => KillStep(questID, k, r))
      + BuildEach(row.gatherObjectives, (k, r) => GatherStep(questID, k, r))
      + BuildEach(row.catchObjectives, (k, r) => CatchStep(questID, k, r))
  }

  /** The keys of a map's entry list, in entry order. */
  function Keys<R>(entries: seq<(int, R)>): (ks: seq<int>)
    ensures |ks| == |entries| && forall i :: 0 <= i < |entries| ==> ks[i] == entries[i].0
  {
    seq(|entries|, i requires 0 <= i < |entries| => entries[i].0)
  }

  /** The step orders the row assigns, map after map, in Init's order. */
  function RowOrders(row: QuestRow): seq<int> {
    Keys(row.goToObjectives) + Keys(row.talkWithObjectives) + Keys(row.killObjectives)
      + Keys(row.gatherObjectives) + Keys(row.catchObjectives)
  }

  /** No step order is used twice across the row's maps. */
  predicate DistinctStepOrders(row: QuestRow) {
    NoDup(RowOrders(row))
  }

  /** The objectives collected before the sort carry the row's orders. */
  lemma UnsortedOrders(questID: int, row: QuestRow)
    ensures |Unsorted(questID, row)| == |RowOrders(row)|
    ensures forall i :: 0 <= i < |RowOrders(row)| ==> Unsorted(questID, row)[i].order == RowOrders(row)[i]
  {
    var a := BuildEach(row.goToObjectives, (k, r) => GoToStep(questID, k, r));
    var b := BuildEach(row.talkWithObjectives, (k, r) => TalkWithStep(questID, k, r));
    var c := BuildEach(row.killObjectives, (k, r) => KillStep(questID, k, r));
    var d := BuildEach(row.gatherObjectives, (k, r) => GatherStep(questID, k, r));
    var f := BuildEach(row.catchObjectives, (k, r) => CatchStep(questID, k, r));
    var ka, kb, kc, kd, kf := Keys(row.goToObjectives), Keys(row.talkWithObjectives),
      Keys(row.killObjectives), Keys(row.gatherObjectives), Keys(row.catchObjectives);
    assert forall i :: 0 <= i < |a| ==> a[i].order == ka[i];
    assert forall i :: 0 <= i < |b| ==> b[i].order == kb[i];
    assert forall i :: 0 <= i < |c| ==> c[i].order == kc[i];
    assert forall i :: 0 <= i < |d| ==> d[i].order == kd[i];
    assert forall i :: 0 <= i < |f| ==> f[i].order == kf[i];
    SameOrders(a, ka, b, kb);
    SameOrders(a + b, ka + kb, c, kc);
    SameOrders(a + b + c, ka + kb + kc, d, kd);
    SameOrders(a + b + c + d, ka + kb + kc + kd, f, kf);
  }

  lemma SameOrders(x: seq<Objective>, kx: seq<int>, y: seq<Objective>, ky: seq<int>)
    requires |x| == |kx| && forall i :: 0 <= i < |x| ==> x[i].order == kx[i]
    requires |y| == |ky| && forall i :: 0 <= i < |y| ==> y[i].order == ky[i]
    ensures forall i :: 0 <= i < |x + y| ==> (x + y)[i].order == (kx + ky)[i]
  {
  }

  /** The number of objectives the row defines. */
  function RowSize(row: QuestRow): nat {
    |row.goToObjectives| + |row.talkWithObjectives| + |row.killObjectives|
      + |row.gatherObjectives| + |row.catchObjectives|
  }

  /** o is the objective Init builds from some entry of some map of the row. */
  predicate FromRow(questID: int, row: QuestRow, o: Objective) {
    || (exists e :: e in row.goToObjectives && o == GoToStep(questID, e.0, e.1))
    || (exists e :: e in row.talkWithObjectives && o == TalkWithStep(questID, e.0, e.1))
    || (exists e :: e in row.killObjectives && o == KillStep(questID, e.0, e.1))
    || (exists e :: e in row.gatherObjectives && o == GatherStep(questID, e.0, e.1))
    || (exists e :: e in row.catchObjectives && o == CatchStep(questID, e.0, e.1))
  }

  /** The objectives collected before the sort are exactly one per map
      entry: as many as there are entries, one for each entry, and none that
      does not come from an entry. */
  lemma UnsortedCoversRow(questID: int, row: QuestRow)
    ensures |Unsorted(questID, row)| == RowSize(row)
    ensures forall e :: e in row.goToObjectives ==> GoToStep(questID, e.0, e.1) in Unsorted(questID, row)
    ensures forall e :: e in row.talkWithObjectives ==> TalkWithStep(questID, e.0, e.1) in Unsorted(questID, row)
    ensures forall e :: e in row.killObjectives ==> KillStep(questID, e.0, e.1) in Unsorted(questID, row)
    ensures forall e :: e in row.gatherObjectives ==> GatherStep(questID, e.0, e.1) in Unsorted(questID, row)
    ensures forall e :: e in row.catchObjectives ==> CatchStep(questID, e.0, e.1) in Unsorted(questID, row)
    ensures forall o :: o in Unsorted(questID, row) ==> FromRow(questID, row, o)
  {
    var a := BuildEach(row.goToObjectives, (k, r) => GoToStep(questID, k, r));
    var b := BuildEach(row.talkWithObjectives, (k, r) => TalkWithStep(questID, k, r));
    var c := BuildEach(row.killObjectives, (k, r) => KillStep(questID, k, r));
    var d := BuildEach(row.gatherObjectives, (k, r) => GatherStep(questID, k, r));
    var f := BuildEach(row.catchObjectives, (k, r) => CatchStep(questID, k, r));
    var u := Unsorted(questID, row);
    assert u == a + b + c + d + f;
    forall o | o in u ensures FromRow(questID, row, o) {
      if o in a {
        var i :| 0 <= i < |a| && a[i] == o;
        assert row.goToObjectives[i] in row.goToObjectives;
      } else if o in b {
        var i :| 0 <= i < |b| && b[i] == o;
        assert row.talkWithObjectives[i] in row.talkWithObjectives;
      } else if o in c {
        var i :| 0 <= i < |c| && c[i] == o;
        assert row.killObjectives[i] in row.killObjectives;
      } else if o in d {
        var i :| 0 <= i < |d| && d[i] == o;
        assert row.gatherObjectives[i] in row.gatherObjectives;
      } else {
        assert o in f;
        var i :| 0 <= i < |f| && f[i] == o;
        assert row.catchObjectives[i] in row.catchObjectives;
      }
    }
    forall e | e in row.goToObjectives ensures GoToStep(questID, e.0, e.1) in u {
      var i :| 0 <= i < |row.goToObjectives| && row.goToObjectives[i] == e;
      assert a[i] == GoToStep(questID, e.0, e.1);
    }
    forall e | e in row.talkWithObjectives ensures TalkWithStep(questID, e.0, e.1) in u {
      var i :| 0 <= i < |row.talkWithObjectives| && row.talkWithObjectives[i] == e;
      assert b[i] == TalkWithStep(questID, e.0, e.1);
    }
    forall e | e in row.killObjectives ensures KillStep(questID, e.0, e.1) in u {
      var i :| 0 <= i < |row.killObjectives| && row.killObjectives[i] == e;
      assert c[i] == KillStep(questID, e.0, e.1);
    }
    forall e | e in row.gatherObjectives ensures GatherStep(questID, e.0, e.1) in u {
      var i :| 0 <= i < |row.gatherObjectives| && row.gatherObjectives[i] == e;
      assert d[i] == GatherStep(questID, e.0, e.1);
    }
    forall e | e in row.catchObjectives ensures CatchStep(questID, e.0, e.1) in u {
      var i :| 0 <= i < |row.catchObjectives| && row.catchObjectives[i] == e;
      assert f[i] == CatchStep(questID, e.0, e.1);
    }
  }

  /** One "for (auto& Elem : Map) ObjectivesArray.Emplace(...)" loop of Init. */
  method Collect<R>(objs: seq<Objective>, entries: seq<(int, R)>, build: (int, R) -> Objective)
    returns (r: seq<Objective>)
    ensures r == objs + BuildEach(entries, build)
  {
    r := objs;
    for i := 0 to |entries|
      invariant r == objs + BuildEach(entries[..i], build)
    {
      assert entries[..i + 1] == entries[..i] + [entries[i]];
      r := r + [build(entries[i].0, entries[i].1)];
    }
    assert entries[..|entries|] == entries;
  }

  /** The FQuest constructor and FQuest::Init: the objectives of all five
      maps, sorted ascending by step order, each belonging to this quest and
      not yet completed. */
  method Init(questID: int, row: QuestRow) returns (q: Quest)
    ensures q.questID == questID
    ensures SortedBy(q.objectives, StepOrder)
    ensures multiset(q.objectives) == multiset(Unsorted(questID, row))
    ensures |q.objectives| == RowSize(row)
    ensures forall o :: o in q.objectives ==> FromRow(questID, row, o)
    ensures forall o :: o in q.objectives ==> o.parentQuestID == questID && !o.completed
    ensures DistinctStepOrders(row) ==> DistinctOrders(q.objectives)
  {
    var objs := Collect([], row.goToObjectives, (k, r) => GoToStep(questID, k, r));
    objs := Collect(objs, row.talkWithObjectives, (k, r) => TalkWithStep(questID, k, r));
    objs := Collect(objs, row.killObjectives, (k, r) => KillStep(questID, k, r));
    objs := Collect(objs, row.gatherObjectives, (k, r) => GatherStep(questID, k, r));
    objs := Collect(objs, row.catchObjectives, (k, r) => CatchStep(questID, k, r));
    assert objs == Unsorted(questID, row);
    var sorted := SortBy(objs, StepOrder);
    SortedRow(questID, row);
    q := Quest(questID, sorted);
  }

  /** The sorted objectives of a row are one per map entry, fresh, and with
      distinct orders when the row's step orders are. */
  lemma SortedRow(questID: int, row: QuestRow)
    ensures var sorted := SortBy(Unsorted(questID, row), StepOrder);
      && |sorted| == RowSize(row)
      && (forall o :: o in sorted ==> FromRow(questID, row, o))
      && (forall o :: o in sorted ==> o.parentQuestID == questID && !o.completed)
      && (DistinctStepOrders(row) ==> DistinctOrders(sorted))
  {
    var objs := Unsorted(questID, row);
    var sorted := SortBy(objs, StepOrder);
    SameElements(sorted, objs);
    if DistinctStepOrders(row) {
      UnsortedOrders(questID, row);
      SortByDistinct(objs, StepOrder);
    }
    UnsortedCoversRow(questID, row);
  }

  /** An objective fresh from Init is not completed and belongs to its quest. */
  lemma FromRowIsFresh(questID: int, row: QuestRow, o: Objective)
    requires FromRow(questID, row, o)
    ensures o.parentQuestID == questID && !o.completed && o.completedControllers == []
  {
  }

  /** An objective fresh from Init counts from zero, and a Catch objective
      needs one catch whatever its row asks for. */
  lemma FromRowCountsFromZero(questID: int, row: QuestRow, o: Objective)
    requires FromRow(questID, row, o)
    ensures o.kind.Kill? ==> o.kind.currentlyKilled == 0
    ensures o.kind.Gather? ==> o.kind.currentlyGathered == 0
    ensures o.kind.Catch? ==> o.kind.currentlyCatched == 0 && o.kind.amountNeeded == 1
  {
  }

  /** Every objective of the list is completed (the loop of IsQuestCompleted). */
  function AllCompleted(objs: seq<Objective>): (b: bool)
    ensures b <==> forall j :: 0 <= j < |objs| ==> objs[j].completed
  {
    if objs == [] then true
    else if !objs[0].completed then false
    else
      assert forall j :: 0 < j < |objs| ==> objs[j] == objs[1..][j - 1];
      AllCompleted(objs[1..])
  }

  /** Some objective of the list is completed (the loop of HasQuestStarted). */
  function AnyCompleted(objs: seq<Objective>): (b: bool)
    ensures b <==> exists j :: 0 <= j < |objs| && objs[j].completed
  {
    if objs == [] then false
    else if objs[0].completed then true
    else
      assert forall j :: 0 < j < |objs| ==> objs[j] == objs[1..][j - 1];
      AnyCompleted(objs[1..])
  }

  /** FQuest::IsQuestCompleted. */
  function IsQuestCompleted(q: Quest): (b: bool)
    ensures b <==> forall j :: 0 <= j < |q.objectives| ==> q.objectives[j].completed
  {
    AllCompleted(q.objectives)
  }

  /** FQuest::HasQuestStarted. */
  function HasQuestStarted(q: Quest): (b: bool)
    ensures b <==> exists j :: 0 <= j < |q.objectives| && q.objectives[j].completed
  {
    AnyCompleted(q.objectives)
  }

  /** The position of the first objective that is not completed, if any
      (the FindByPredicate of GetCurrentObjective). */
  function FirstIncomplete(objs: seq<Objective>): (r: Option<nat>)
    ensures r.None? <==> AllCompleted(objs)
    ensures r.Some? ==>
      && r.value < |objs| && !objs[r.value].completed
      && (forall j :: 0 <= j < r.value ==> objs[j].completed)
  {
    if objs == [] then None
    else if !objs[0].completed then Some(0)
    else
      var rest := FirstIncomplete(objs[1..]);
      assert forall j :: 0 < j < |objs| ==> objs[j] == objs[1..][j - 1];
      if rest.None? then None else Some(rest.value + 1)
  }

  /** FQuest::GetCurrentObjectiveSharedPtr: the first objective, in list
      order, that is not completed, or null once all are. */
  function GetCurrentObjectiveSharedPtr(q: Quest): (r: Option<Objective>)
    ensures r.None? <==> IsQuestCompleted(q)
    ensures r.Some? ==>
      exists i :: 0 <= i < |q.objectives| && r.value == q.objectives[i] && !r.value.completed
        && forall j :: 0 <= j < i ==> q.objectives[j].completed
  {
    match FirstIncomplete(q.objectives)
    case None => None
    case Some(i) => Some(q.objectives[i])
  }

  /** FQuest::GetCurrentObjective: a copy of that objective into an
      FQuestStepObjective, which keeps only the base fields, or the default
      objective (order -1) once all are completed. */
  function GetCurrentObjective(q: Quest): (r: BaseObjective)
    ensures IsQuestCompleted(q) ==> r == DefaultObjective()
    ensures !IsQuestCompleted(q) ==>
      exists i :: 0 <= i < |q.objectives| && r == Base(q.objectives[i]) && !r.completed
        && forall j :: 0 <= j < i ==> q.objectives[j].completed
  {
    match GetCurrentObjectiveSharedPtr(q)
    case None => DefaultObjective()
    case Some(o) => Base(o)
  }

  /** The position of the first objective with the given step order. */
  function StepIndex(objs: seq<Objective>, order: int): (i: nat)
    requires exists j :: 0 <= j < |objs| && objs[j].order == order
    ensures i < |objs| && objs[i].order == order
    ensures forall j :: 0 <= j < i ==> objs[j].order != order
  {
    if objs[0].order == order then 0
    else
      assert forall j :: 0 < j < |objs| ==> objs[j] == objs[1..][j - 1];
      assert exists j :: 0 <= j < |objs[1..]| && objs[1..][j].order == order by {
        var j :| 0 <= j < |objs| && objs[j].order == order;
        assert objs[1..][j - 1].order == order;
      }
      StepIndex(objs[1..], order) + 1
  }

  /** The quest has a step with that order. */
  predicate HasStep(q: Quest, stepID: int) {
    exists j :: 0 <= j < |q.objectives| && q.objectives[j].order == stepID
  }

  /** FQuest::GetStepObjectiveById: the first objective with that step order.
      The source dereferences the search result unchecked, so the step must
      exist. */
  function GetStepObjectiveById(q: Quest, stepID: int): (r: Objective)
    requires HasStep(q, stepID)
    ensures r in q.objectives && r.order == stepID
    ensures exists i :: 0 <= i < |q.objectives| && r == q.objectives[i] &&
                        forall j :: 0 <= j < i ==> q.objectives[j].order != stepID
  {
    q.objectives[StepIndex(q.objectives, stepID)]
  }

  /** FQuest::IsValid. */
  predicate IsValidQuest(q: Quest): (b: bool)
    ensures b ==> q != DefaultQuest()
  {
    q.questID > -1
  }

  /** Step orders are distinct within the quest (each order names one step). */
  predicate DistinctOrders(objs: seq<Objective>) {
    forall i, j :: 0 <= i < j < |objs| ==> objs[i].order != objs[j].order
  }

  /** With distinct orders, looking a step up by its order finds that step. */
  lemma StepIndexOfDistinct(objs: seq<Objective>, j: nat)
    requires DistinctOrders(objs) && j < |objs|
    ensures StepIndex(objs, objs[j].order) == j
  {
  }

  /** The state ResetQuest leaves: every objective reset, nothing else changed. */
  function ResetAll(q: Quest): (r: Quest)
    ensures r.questID == q.questID && |r.objectives| == |q.objectives|
    ensures forall j :: 0 <= j < |q.objectives| ==> r.objectives[j] == ResetStepQuest(q.objectives[j])
  {
    Quest(q.questID, seq(|q.objectives|, j requires 0 <= j < |q.objectives| => ResetStepQuest(q.objectives[j])))
  }

  /** FQuest::ResetQuest: the loop resetting each objective in turn. */
  method ResetQuest(q: Quest) returns (r: Quest)
    ensures r == ResetAll(q)
  {
    var objs := q.objectives;
    for i := 0 to |objs|
      invariant |objs| == |q.objectives|
      invariant forall j :: 0 <= j < i ==> objs[j] == ResetStepQuest(q.objectives[j])
      invariant forall j :: i <= j < |objs| ==> objs[j] == q.objectives[j]
    {
      objs := objs[i := ResetStepQuest(objs[i])];
    }
    r := Quest(q.questID, objs);
  }

  /** After a reset no objective is completed, so the quest has not started and
      is completed only if it has no objectives; each objective keeps its
      order, kind with its counters, and recorded controllers. */
  lemma ResetClearsProgressFlags(q: Quest)
    ensures !HasQuestStarted(ResetAll(q))
    ensures IsQuestCompleted(ResetAll(q)) <==> q.objectives == []
    ensures forall j :: 0 <= j < |q.objectives| ==>
      var o, r := q.objectives[j], ResetAll(q).objectives[j];
      r.order == o.order && r.kind == o.kind && r.completedControllers == o.completedControllers
  {
    var r := ResetAll(q);
    if q.objectives != [] {
      assert !r.objectives[0].completed;
    }
  }

  /** Resetting twice is the same as resetting once. */
  lemma ResetIdempotent(q: Quest)
    ensures ResetAll(ResetAll(q)) == ResetAll(q)
  {
    var r1 := ResetAll(q);
    var r2 := ResetAll(r1);
    assert r2.objectives == r1.objectives;
  }

  /** The step GetCurrentObjective returns is valid exactly while the quest is
      not completed, when every step has a positive order. */
  lemma CurrentObjectiveValidity(q: Quest)
    requires forall j :: 0 <= j < |q.objectives| ==> IsValid(Base(q.objectives[j]))
    ensures IsValid(GetCurrentObjective(q)) <==> !IsQuestCompleted(q)
  {
  }

  /** Completing the current step moves the current step on: the next current step comes later in the list. */
  lemma {:induction false} CurrentObjectiveAdvances(q: Quest, i: nat)
    requires FirstIncomplete(q.objectives) == Some(i)
    ensures var q' := q.(objectives := q.objectives[i := SetCompleted(q.objectives[i])]);
      && (FirstIncomplete(q'.objectives).Some? ==> FirstIncomplete(q'.objectives).value > i)
      && (FirstIncomplete(q'.objectives).None? <==> forall j :: i < j < |q.objectives| ==> q.objectives[j].completed)
  {
    var objs' := q.objectives[i := SetCompleted(q.objectives[i])];
    var f := FirstIncomplete(objs');
    assert forall j :: 0 <= j <= i ==> objs'[j].completed;
    if forall j :: i < j < |q.objectives| ==> q.objectives[j].completed {
      assert forall j :: 0 <= j < |objs'| ==> objs'[j].completed;
    } else {
      var j :| i < j < |q.objectives| && !q.objectives[j].completed;
      assert !objs'[j].completed;
    }
  }
}
