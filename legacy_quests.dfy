/** FQuest of the older revision (Public/QuestManager.h): a quest built from
    one data-table row of four objective maps, GoTo, TalkWith, Kill and
    Gather, keyed by step order, into one list of objectives sorted by that
    order. */
module LegacyQuests {
  import opened Common
  import opened LegacyObjectives

  /** The authored fields of each objective kind that FQuest::Init passes to
      the subclass constructor. */
  datatype GoToRow = GoToRow(placeToGo: Place)
  datatype TalkWithRow = TalkWithRow(entityToTalkWith: Entity)
  datatype KillRow = KillRow(entityToKill: Entity, amountToKill: int)
  datatype GatherRow = GatherRow(itemToGather: Item, amountToGather: int)

  /** One data-table row: the four objective maps, each the list of its
      (key, value) entries in iteration order. */
  datatype QuestRow = QuestRow(
    goToObjectives: seq<(int, GoToRow)>,
    talkWithObjectives: seq<(int, TalkWithRow)>,
    killObjectives: seq<(int, KillRow)>,
    gatherObjectives: seq<(int, GatherRow)>)

  /** A live quest: its ID and its objectives, ascending by step order. */
  datatype Quest = Quest(questID: int, objectives: seq<Objective>)

  /** The default-constructed FQuest, whose ID is -1. */
  function DefaultQuest(): (r: Quest)
    ensures r.questID == -1 && r.objectives == []
  {
    Quest(-1, [])
  }

  /** The sort key of ObjectivesArray.Sort. */
  function StepOrder(o: Objective): int {
    o.order
  }

  /** The objective each map entry becomes: the key is the order. */
  function GoToEntry(order: int, row: GoToRow): Objective {
    GoToStep(order, row.placeToGo)
  }

  function TalkWithEntry(order: int, row: TalkWithRow): Objective {
    TalkWithStep(order, row.entityToTalkWith)
  }

  function KillEntry(order: int, row: KillRow): Objective {
    KillStep(order, row.entityToKill, row.amountToKill)
  }

  function GatherEntry(order: int, row: GatherRow): Objective {
    GatherStep(order, row.itemToGather, row.amountToGather)
  }

  /** One built objective per entry of the list, in entry order. */
  function BuildEach<R>(entries: seq<(int, R)>, build: (int, R) -> Objective): (objs: seq<Objective>)
    ensures |objs| == |entries|
    ensures forall i :: 0 <= i < |entries| ==> objs[i] == build(entries[i].0, entries[i].1)
  {
    seq(|entries|, i requires 0 <= i < |entries| => build(entries[i].0, entries[i].1))
  }

  /** ObjectivesArray before the sort: the GoTo, TalkWith, Kill and Gather
      loops one after the other. */
  function Unsorted(row: QuestRow): seq<Objective> {
    BuildEach(row.goToObjectives, (k, r) => GoToEntry(k, r))
      + BuildEach(row.talkWithObjectives, (k, r) => TalkWithEntry(k, r))
      + BuildEach(row.killObjectives, (k, r) => KillEntry(k, r))
      + BuildEach(row.gatherObjectives, (k, r) => GatherEntry(k, r))
  }

  /** The number of objectives the row defines. */
  function RowSize(row: QuestRow): nat {
    |row.goToObjectives| + |row.talkWithObjectives| + |row.killObjectives| + |row.gatherObjectives|
  }

  /** o is the objective Init builds from some entry of some map of the row. */
  predicate FromRow(row: QuestRow, o: Objective) {
    || (exists e :: e in row.goToObjectives && o == GoToEntry(e.0, e.1))
    || (exists e :: e in row.talkWithObjectives && o == TalkWithEntry(e.0, e.1))
    || (exists e :: e in row.killObjectives && o == KillEntry(e.0, e.1))
    || (exists e :: e in row.gatherObjectives && o == GatherEntry(e.0, e.1))
  }

  /** An objective a constructor built is not completed, has a real step type,
      and is valid exactly when its order is positive. */
  lemma FromRowIsFresh(row: QuestRow, o: Objective)
    requires FromRow(row, o)
    ensures !o.completed && !o.kind.NoStep?
    ensures IsValid(Base(o)) <==> o.order > 0
  {
  }

  /** The objectives collected before the sort are exactly one per map entry. */
  lemma UnsortedCoversRow(row: QuestRow)
    ensures |Unsorted(row)| == RowSize(row)
    ensures forall e :: e in row.goToObjectives ==> GoToEntry(e.0, e.1) in Unsorted(row)
    ensures forall e :: e in row.talkWithObjectives ==> TalkWithEntry(e.0, e.1) in Unsorted(row)
    ensures forall e :: e in row.killObjectives ==> KillEntry(e.0, e.1) in Unsorted(row)
    ensures forall e :: e in row.gatherObjectives ==> GatherEntry(e.0, e.1) in Unsorted(row)
    ensures forall o :: o in Unsorted(row) ==> FromRow(row, o)
  {
    var a := BuildEach(row.goToObjectives, (k, r) => GoToEntry(k, r));
    var b := BuildEach(row.talkWithObjectives, (k, r) => TalkWithEntry(k, r));
    var c := BuildEach(row.killObjectives, (k, r) => KillEntry(k, r));
    var d := BuildEach(row.gatherObjectives, (k, r) => GatherEntry(k, r));
    var u := Unsorted(row);
    assert u == a + b + c + d;
    forall o | o in u ensures FromRow(row, o) {
      if o in a {
        var i :| 0 <= i < |a| && a[i] == o;
        assert row.goToObjectives[i] in row.goToObjectives;
      } else if o in b {
        var i :| 0 <= i < |b| && b[i] == o;
        assert row.talkWithObjectives[i] in row.talkWithObjectives;
      } else if o in c {
        var i :| 0 <= i < |c| && c[i] == o;
        assert row.killObjectives[i] in row.killObjectives;
      } else {
        assert o in d;
        var i :| 0 <= i < |d| && d[i] == o;
        assert row.gatherObjectives[i] in row.gatherObjectives;
      }
    }
    forall e | e in row.goToObjectives ensures GoToEntry(e.0, e.1) in u {
      var i :| 0 <= i < |row.goToObjectives| && row.goToObjectives[i] == e;
      assert a[i] == GoToEntry(e.0, e.1);
    }
    forall e | e in row.talkWithObjectives ensures TalkWithEntry(e.0, e.1) in u {
      var i :| 0 <= i < |row.talkWithObjectives| && row.talkWithObjectives[i] == e;
      assert b[i] == TalkWithEntry(e.0, e.1);
    }
    forall e | e in row.killObjectives ensures KillEntry(e.0, e.1) in u {
      var i :| 0 <= i < |row.killObjectives| && row.killObjectives[i] == e;
      assert c[i] == KillEntry(e.0, e.1);
    }
    forall e | e in row.gatherObjectives ensures GatherEntry(e.0, e.1) in u {
      var i :| 0 <= i < |row.gatherObjectives| && row.gatherObjectives[i] == e;
      assert d[i] == GatherEntry(e.0, e.1);
    }
  }

  /** One "for (auto& Elem : Map) ObjectivesArray.Emplace(...)" loop of Init. */
  method Collect<R>(objs: seq<Objective>, entries: seq<(int, R)>, build: (int, R) -> Objective)
    returns (r: seq<Objective>)
    ensures r == objs + BuildEach(entries, build)
  {
    r := objs;
    for i := 0 to |entries|
      invariant r == objs + BuildEach(entries[..i], build)
    {
      assert entries[..i + 1] == entries[..i] + [entries[i]];
      r := r + [build(entries[i].0, entries[i].1)];
    }
    assert entries[..|entries|] == entries;
  }

  /** The four loops of Init, one map after the other. */
  method CollectRow(row: QuestRow) returns (objs: seq<Objective>)
    ensures objs == Unsorted(row)
  {
    objs := Collect([], row.goToObjectives, (k, r) => GoToEntry(k, r));
    assert objs == BuildEach(row.goToObjectives, (k, r) => GoToEntry(k, r));
    objs := Collect(objs, row.talkWithObjectives, (k, r) => TalkWithEntry(k, r));
    objs := Collect(objs, row.killObjectives, (k, r) => KillEntry(k, r));
    objs := Collect(objs, row.gatherObjectives, (k, r) => GatherEntry(k, r));
  }

  /** The FQuest constructor and FQuest::Init: the objectives of the four
      maps, sorted ascending by step order, none of them completed. */
  method Init(questID: int, row: QuestRow) returns (q: Quest)
    ensures q.questID == questID
    ensures SortedBy(q.objectives, StepOrder)
    ensures multiset(q.objectives) == multiset(Unsorted(row))
    ensures |q.objectives| == RowSize(row)
    ensures forall o :: o in q.objectives ==> FromRow(row, o)
    ensures forall o :: o in q.objectives ==> !o.completed && (IsValid(Base(o)) <==> o.order > 0)
  {
    var objs := CollectRow(row);
    SortedRow(row);
    q := Quest(questID, SortBy(objs, StepOrder));
  }

  /** The sorted objectives of a row are one per map entry, and fresh. */
  lemma SortedRow(row: QuestRow)
    ensures var sorted := SortBy(Unsorted(row), StepOrder);
      && |sorted| == RowSize(row)
      && (forall o :: o in sorted ==> FromRow(row, o))
      && (forall o :: o in sorted ==> !o.completed && (IsValid(Base(o)) <==> o.order > 0))
  {
    var objs := Unsorted(row);
    var sorted := SortBy(objs, StepOrder);
    SameElements(sorted, objs);
    UnsortedCoversRow(row);
    forall o | o in sorted ensures !o.completed && (IsValid(Base(o)) <==> o.order > 0) {
      FromRowIsFresh(row, o);
    }
  }

  /** Every objective of the list is completed (the loop of IsQuestCompleted). */
  function AllCompleted(objs: seq<Objective>): (b: bool)
    ensures b <==> forall j :: 0 <= j < |objs| ==> objs[j].completed
  {
    if objs == [] then true
    else if !objs[0].completed then false
    else
      assert forall j :: 0 < j < |objs| ==> objs[j] == objs[1..][j - 1];
      AllCompleted(objs[1..])
  }

  /** FQuest::IsQuestCompleted (and UQuestManager::IsQuestCompleted, which
      asks the quest). A quest without objectives counts as completed. */
  function IsQuestCompleted(q: Quest): (b: bool)
    ensures b <==> forall j :: 0 <= j < |q.objectives| ==> q.objectives[j].completed
  {
    AllCompleted(q.objectives)
  }

  /** The position of the first objective that is not completed, if any
      (the FindByPredicate of GetCurrentObjective). */
  function FirstIncomplete(objs: seq<Objective>): (r: Option<nat>)
    ensures r.None? <==> AllCompleted(objs)
    ensures r.Some? ==>
      && r.value < |objs| && !objs[r.value].completed
      && (forall j :: 0 <= j < r.value ==> objs[j].completed)
  {
    if objs == [] then None
    else if !objs[0].completed then Some(0)
    else
      var rest := FirstIncomplete(objs[1..]);
      assert forall j :: 0 < j < |objs| ==> objs[j] == objs[1..][j - 1];
      if rest.None? then None else Some(rest.value + 1)
  }

  /** FQuest::GetCurrentObjectiveSharedPtr: the first objective, in list
      order, that is not completed, or null once all are. */
  function GetCurrentObjectiveSharedPtr(q: Quest): (r: Option<Objective>)
    ensures r.None? <==> IsQuestCompleted(q)
    ensures r.Some? ==>
      exists i :: 0 <= i < |q.objectives| && r.value == q.objectives[i] && !r.value.completed
        && forall j :: 0 <= j < i ==> q.objectives[j].completed
  {
    match FirstIncomplete(q.objectives)
    case None => None
    case Some(i) => Some(q.objectives[i])
  }

  /** FQuest::GetCurrentObjective: a copy of the base part of that objective,
      or the default objective (order -1) once all are completed. */
  function GetCurrentObjective(q: Quest): (r: BaseObjective)
    ensures IsQuestCompleted(q) ==> r == DefaultObjective()
    ensures !IsQuestCompleted(q) ==>
      exists i :: 0 <= i < |q.objectives| && r == Base(q.objectives[i]) && !r.completed
        && forall j :: 0 <= j < i ==> q.objectives[j].completed
  {
    match GetCurrentObjectiveSharedPtr(q)
    case None => DefaultObjective()
    case Some(o) => Base(o)
  }

  /** FQuest::IsValid. */
  predicate IsValidQuest(q: Quest): (b: bool)
    ensures b ==> q != DefaultQuest()
  {
    q.questID > -1
  }

  /** The default quest is not valid. */
  lemma DefaultQuestNotValid()
    ensures !IsValidQuest(DefaultQuest())
  {
  }

  /** The state ResetQuest leaves: every objective's completed flag cleared,
      nothing else changed. */
  function ResetAll(q: Quest): (r: Quest)
    ensures r.questID == q.questID && |r.objectives| == |q.objectives|
    ensures forall j :: 0 <= j < |q.objectives| ==> r.objectives[j] == ResetStepQuest(q.objectives[j])
  {
    Quest(q.questID, seq(|q.objectives|, j requires 0 <= j < |q.objectives| => ResetStepQuest(q.objectives[j])))
  }

  /** FQuest::ResetQuest: the loop resetting each objective in turn. */
  method ResetQuest(q: Quest) returns (r: Quest)
    ensures r == ResetAll(q)
  {
    var objs := q.objectives;
    for j := 0 to |objs|
      invariant |objs| == |q.objectives|
      invariant forall k :: 0 <= k < j ==> objs[k] == ResetStepQuest(q.objectives[k])
      invariant forall k :: j <= k < |objs| ==> objs[k] == q.objectives[k]
    {
      objs := objs[j := ResetStepQuest(objs[j])];
    }
    r := Quest(q.questID, objs);
  }

  /** After a reset a quest with objectives is no longer completed, its
      current objective is its first one, and every counter, order and
      description is as before. */
  lemma ResetRestarts(q: Quest)
    requires q.objectives != []
    ensures !IsQuestCompleted(ResetAll(q))
    ensures GetCurrentObjective(ResetAll(q)) == Base(ResetStepQuest(q.objectives[0]))
    ensures forall j :: 0 <= j < |q.objectives| ==>
      ResetAll(q).objectives[j].kind == q.objectives[j].kind
        && ResetAll(q).objectives[j].order == q.objectives[j].order
        && ResetAll(q).objectives[j].description == q.objectives[j].description
  {
    var r := ResetAll(q);
    assert !r.objectives[0].completed;
    assert FirstIncomplete(r.objectives) == Some(0);
  }

  /** Resetting twice is resetting once. */
  lemma ResetIdempotent(q: Quest)
    ensures ResetAll(ResetAll(q)) == ResetAll(q)
  {
  }
}
