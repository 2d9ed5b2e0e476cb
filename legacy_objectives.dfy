/** The objective structs of the older revision (FQuestStepObjective and its
    GoTo, TalkWith, Kill and Gather subclasses in Public/QuestManager.h), as
    one datatype. Places, entities and items are the fixed enums of that
    header; there is no parent quest, no controller and no all-players gate.
    Gather amounts are whole numbers here (the source keeps them as float). */
module LegacyObjectives {
  import opened EnumText

  /** EPlaces. */
  datatype Place = NoPlace | Kanto | Johto

  /** EEntityType. */
  datatype Entity = NoEntity | Adam | Innkeeper | Dinossaur

  /** EQuestItemTypes. */
  datatype Item = NoItem | Arrow

  /** EQuestStepType. */
  datatype StepType = NoType | GoToType | TalkWithType | KillType | GatherType

  /** The step type with each subclass's own fields; NoStep is the base
      struct, whose SetDescription does nothing. */
  datatype Step =
    | NoStep
    | GoTo(placeToGo: Place)
    | TalkWith(entityToTalkWith: Entity)
    | Kill(entityToKill: Entity, amountToKill: int, currentlyKilled: int)
    | Gather(itemToGather: Item, amountToGather: int, currentlyGathered: int)

  /** One quest step: its order inside the quest, the completed flag, the
      description set at construction and the subclass fields. Rewards,
      marker classes and spawn data only drive presentation and are not kept. */
  datatype Objective = Objective(order: int, completed: bool, description: string, kind: Step)

  /** A copy of the base struct alone, as FQuest::GetCurrentObjective returns
      it by value: the subclass fields are sliced off, the step type stays. */
  datatype BaseObjective = BaseObjective(order: int, stepType: StepType, completed: bool, description: string)

  /** The QuestStepType field each constructor sets. */
  function TypeOf(k: Step): (t: StepType)
    ensures t == NoType <==> k.NoStep?
  {
    match k
    case NoStep => NoType
    case GoTo(_) => GoToType
    case TalkWith(_) => TalkWithType
    case Kill(_, _, _) => KillType
    case Gather(_, _, _) => GatherType
  }

  /** The base part of an objective. */
  function Base(o: Objective): (b: BaseObjective)
    ensures b.order == o.order && b.completed == o.completed && b.description == o.description
    ensures b.stepType == TypeOf(o.kind)
  {
    BaseObjective(o.order, TypeOf(o.kind), o.completed, o.description)
  }

  /** The default-constructed FQuestStepObjective: order -1, not completed,
      empty description. Its step type is left uninitialised by the source;
      NoType is used here. */
  function DefaultObjective(): (r: BaseObjective)
    ensures r.order == -1 && !r.completed && r.description == ""
  {
    BaseObjective(-1, NoType, false, "")
  }

  /** FQuestStepObjective::IsValid: a positive order and a real step type. */
  predicate IsValid(o: BaseObjective): (b: bool)
    ensures b ==> o != DefaultObjective()
  {
    o.order > 0 && o.stepType != NoType
  }

  /** The default objective is never valid. */
  lemma DefaultNotValid()
    ensures !IsValid(DefaultObjective())
  {
  }

  /** FQuestStepObjective::ResetStepQuest: only the completed flag is cleared. */
  function ResetStepQuest(o: Objective): (r: Objective)
    ensures !r.completed
    ensures r.order == o.order && r.kind == o.kind && r.description == o.description
  {
    o.(completed := false)
  }

  /** FQuestStepGoToObjective::OnArrivedToPlace: completed, unconditionally. */
  function OnArrivedToPlace(o: Objective): (r: Objective)
    requires o.kind.GoTo?
    ensures r.completed
    ensures r.order == o.order && r.kind == o.kind && r.description == o.description
  {
    o.(completed := true)
  }

  /** FQuestStepTalkWithObjective::OnTalkedWithEntity: completed, unconditionally. */
  function OnTalkedWithEntity(o: Objective): (r: Objective)
    requires o.kind.TalkWith?
    ensures r.completed
    ensures r.order == o.order && r.kind == o.kind && r.description == o.description
  {
    o.(completed := true)
  }

  /** FQuestStepKillObjective::OnEntityKilled: the counter goes up by one and
      the step is completed exactly when it has reached AmountToKill. */
  function OnEntityKilled(o: Objective): (r: Objective)
    requires o.kind.Kill?
    ensures r.kind == o.kind.(currentlyKilled := o.kind.currentlyKilled + 1)
    ensures r.completed <==> r.kind.currentlyKilled >= r.kind.amountToKill
    ensures r.order == o.order && r.description == o.description
  {
    var k := o.kind.(currentlyKilled := o.kind.currentlyKilled + 1);
    o.(kind := k, completed := k.currentlyKilled >= k.amountToKill)
  }

  /** FQuestStepGatherObjective::OnItemGathered: the counter accumulates the
      amount and the step is completed exactly when it has reached
      AmountToGather. */
  function OnItemGathered(o: Objective, amountGathered: int): (r: Objective)
    requires o.kind.Gather?
    ensures r.kind == o.kind.(currentlyGathered := o.kind.currentlyGathered + amountGathered)
    ensures r.completed <==> r.kind.currentlyGathered >= r.kind.amountToGather
    ensures r.order == o.order && r.description == o.description
  {
    var k := o.kind.(currentlyGathered := o.kind.currentlyGathered + amountGathered);
    o.(kind := k, completed := k.currentlyGathered >= k.amountToGather)
  }

  /** Arriving and then resetting leaves the objective as a reset alone does:
      one-shot completion carries no other state. */
  lemma ResetUndoesArrival(o: Objective)
    requires o.kind.GoTo?
    ensures ResetStepQuest(OnArrivedToPlace(o)) == ResetStepQuest(o)
  {
  }

  /** n kills, one after the other. */
  function KillTimes(o: Objective, n: nat): (r: Objective)
    requires o.kind.Kill?
    ensures r.kind.Kill?
    decreases n
  {
    if n == 0 then o else OnEntityKilled(KillTimes(o, n - 1))
  }

  /** After n kills the counter has risen by n, and after at least one the step
      is completed exactly when the new count reaches AmountToKill; the order,
      the target and the description never change. */
  lemma {:induction false} KillCount(o: Objective, n: nat)
    requires o.kind.Kill?
    ensures var r := KillTimes(o, n);
      && r.kind == o.kind.(currentlyKilled := o.kind.currentlyKilled + n)
      && r.order == o.order && r.description == o.description
      && (n > 0 ==> (r.completed <==> o.kind.currentlyKilled + n >= o.kind.amountToKill))
    decreases n
  {
    if n > 0 {
      KillCount(o, n - 1);
    }
  }

  /** A fresh Kill objective is first completed by its AmountToKill-th kill. */
  lemma FreshKillCompletesAtTarget(o: Objective, n: nat)
    requires o.kind.Kill? && o.kind.currentlyKilled == 0 && 0 < n
    ensures KillTimes(o, n).completed <==> n >= o.kind.amountToKill
  {
    KillCount(o, n);
  }

  /** Resetting keeps the kill counter, so a Kill objective that had reached
      its target completes again at the very next kill. */
  lemma KillAfterResetCompletesAtOnce(o: Objective)
    requires o.kind.Kill? && o.kind.currentlyKilled >= o.kind.amountToKill
    ensures OnEntityKilled(ResetStepQuest(o)).completed
  {
  }

  /** The sum of a list of gathered amounts. */
  function Sum(amounts: seq<int>): int
    decreases |amounts|
  {
    if amounts == [] then 0 else Sum(amounts[..|amounts| - 1]) + amounts[|amounts| - 1]
  }

  /** Gathering each amount of the list, in order. */
  function GatherEach(o: Objective, amounts: seq<int>): (r: Objective)
    requires o.kind.Gather?
    ensures r.kind.Gather?
    decreases |amounts|
  {
    if amounts == [] then o
    else OnItemGathered(GatherEach(o, amounts[..|amounts| - 1]), amounts[|amounts| - 1])
  }

  /** After a run of gathers the counter has grown by their sum, and after at
      least one the step is completed exactly when that total reaches
      AmountToGather. */
  lemma {:induction false} GatherTotal(o: Objective, amounts: seq<int>)
    requires o.kind.Gather?
    ensures var r := GatherEach(o, amounts);
      && r.kind == o.kind.(currentlyGathered := o.kind.currentlyGathered + Sum(amounts))
      && r.order == o.order && r.description == o.description
      && (amounts != [] ==> (r.completed <==> o.kind.currentlyGathered + Sum(amounts) >= o.kind.amountToGather))
    decreases |amounts|
  {
    if amounts != [] {
      GatherTotal(o, amounts[..|amounts| - 1]);
    }
  }

  // The step descriptions, built once by each constructor's SetDescription.

  /** The value names of EPlaces, EEntityType and EQuestItemTypes. */
  function PlaceName(p: Place): string {
    match p
    case NoPlace => "None"
    case Kanto => "Kanto"
    case Johto => "Johto"
  }

  function EntityName(e: Entity): string {
    match e
    case NoEntity => "None"
    case Adam => "Adam"
    case Innkeeper => "Innkeeper"
    case Dinossaur => "Dinossaur"
  }

  function ItemName(i: Item): string {
    match i
    case NoItem => "None"
    case Arrow => "Arrow"
  }

  /** UEnum::GetValueAsString: the enum's type name, "::" and the value's name. */
  function PlaceString(p: Place): string { "EPlaces::" + PlaceName(p) }

  function EntityString(e: Entity): string { "EEntityType::" + EntityName(e) }

  function ItemString(i: Item): string { "EQuestItemTypes::" + ItemName(i) }

  /** No enum type name holds a colon. */
  lemma TypeNamesPlain()
    ensures forall c :: c in "EPlaces" ==> c != ':'
    ensures forall c :: c in "EEntityType" ==> c != ':'
    ensures forall c :: c in "EQuestItemTypes" ==> c != ':'
  {
    var a, b, d := "EPlaces", "EEntityType", "EQuestItemTypes";
    forall c | c in a ensures c != ':' {
      var i :| 0 <= i < |a| && a[i] == c;
    }
    forall c | c in b ensures c != ':' {
      var i :| 0 <= i < |b| && b[i] == c;
    }
    forall c | c in d ensures c != ':' {
      var i :| 0 <= i < |d| && d[i] == c;
    }
  }

  /** The label a description shows for an enum value is the value's name. */
  lemma PlaceLabel(p: Place)
    ensures SplitEnumString(PlaceString(p)) == PlaceName(p)
  {
    TypeNamesPlain();
    assert PlaceString(p) == "EPlaces" + "::" + PlaceName(p);
    SplitQualified("EPlaces", PlaceName(p));
  }

  lemma EntityLabel(e: Entity)
    ensures SplitEnumString(EntityString(e)) == EntityName(e)
  {
    TypeNamesPlain();
    assert EntityString(e) == "EEntityType" + "::" + EntityName(e);
    SplitQualified("EEntityType", EntityName(e));
  }

  lemma ItemLabel(i: Item)
    ensures SplitEnumString(ItemString(i)) == ItemName(i)
  {
    TypeNamesPlain();
    assert ItemString(i) == "EQuestItemTypes" + "::" + ItemName(i);
    SplitQualified("EQuestItemTypes", ItemName(i));
  }

  /** The SetDescription of each subclass, on the fields it reads: "Go to X",
      "Talk with X", and "Kill X" / "Collect X" for a target of at most one,
      otherwise followed by " current/target". The base struct sets none. */
  function SetDescription(k: Step): (d: string)
    ensures d == "" <==> k.NoStep?
  {
    match k
    case NoStep => ""
    case GoTo(place) => "Go to " + SplitEnumString(PlaceString(place))
    case TalkWith(entity) => "Talk with " + SplitEnumString(EntityString(entity))
    case Kill(entity, amount, current) =>
      if amount <= 1 then "Kill " + SplitEnumString(EntityString(entity))
      else "Kill " + SplitEnumString(EntityString(entity)) + " " + IntText(current) + "/" + IntText(amount)
    case Gather(item, amount, current) =>
      if amount <= 1 then "Collect " + SplitEnumString(ItemString(item))
      else "Collect " + SplitEnumString(ItemString(item)) + " " + IntText(current) + "/" + IntText(amount)
  }

  /** The descriptions name the place, the person or the item by its value
      name; a count, current then target, is shown only for a target above
      one. */
  lemma GoToDescription(place: Place)
    ensures SetDescription(GoTo(place)) == "Go to " + PlaceName(place)
  {
    PlaceLabel(place);
  }

  lemma TalkWithDescription(entity: Entity)
    ensures SetDescription(TalkWith(entity)) == "Talk with " + EntityName(entity)
  {
    EntityLabel(entity);
  }

  lemma KillDescription(entity: Entity, amount: int, current: int)
    ensures amount <= 1 ==> SetDescription(Kill(entity, amount, current)) == "Kill " + EntityName(entity)
    ensures amount > 1 ==> (SetDescription(Kill(entity, amount, current))
      == "Kill " + EntityName(entity) + " " + IntText(current) + "/" + DecimalText(amount))
  {
    EntityLabel(entity);
  }

  lemma GatherDescription(item: Item, amount: int, current: int)
    ensures amount <= 1 ==> SetDescription(Gather(item, amount, current)) == "Collect " + ItemName(item)
    ensures amount > 1 ==> (SetDescription(Gather(item, amount, current))
      == "Collect " + ItemName(item) + " " + IntText(current) + "/" + DecimalText(amount))
  {
    ItemLabel(item);
  }

  /** The count of a fresh step reads " 0/" before the target. */
  lemma ZeroCount(prefix: string, target: string)
    ensures prefix + " " + IntText(0) + "/" + target == prefix + " 0/" + target
  {
    assert IntText(0) == "0";
    assert prefix + " " + "0" + "/" + target == prefix + (" " + "0" + "/") + target;
  }

  /** The description a constructor gives a fresh Kill step, whose counter
      starts at zero: "Kill Dinossaur 0/5" for five of them. */
  lemma FreshKillDescription(entity: Entity, amount: int)
    requires amount > 1
    ensures SetDescription(Kill(entity, amount, 0)) == "Kill " + EntityName(entity) + " 0/" + DecimalText(amount)
  {
    KillDescription(entity, amount, 0);
    ZeroCount("Kill " + EntityName(entity), DecimalText(amount));
  }

  // The objectives the subclass constructors build: the order, the fields,
  // progress at zero, not completed, and the description SetDescription
  // gives those fields.

  function GoToStep(order: int, place: Place): (o: Objective)
    ensures o.order == order && !o.completed && o.kind == GoTo(place)
    ensures o.description == SetDescription(o.kind) == "Go to " + PlaceName(place)
  {
    GoToDescription(place);
    Objective(order, false, SetDescription(GoTo(place)), GoTo(place))
  }

  function TalkWithStep(order: int, entity: Entity): (o: Objective)
    ensures o.order == order && !o.completed && o.kind == TalkWith(entity)
    ensures o.description == SetDescription(o.kind) == "Talk with " + EntityName(entity)
  {
    TalkWithDescription(entity);
    Objective(order, false, SetDescription(TalkWith(entity)), TalkWith(entity))
  }

  function KillStep(order: int, entity: Entity, amount: int): (o: Objective)
    ensures o.order == order && !o.completed && o.kind == Kill(entity, amount, 0)
    ensures o.description == SetDescription(o.kind)
  {
    Objective(order, false, SetDescription(Kill(entity, amount, 0)), Kill(entity, amount, 0))
  }

  function GatherStep(order: int, item: Item, amount: int): (o: Objective)
    ensures o.order == order && !o.completed && o.kind == Gather(item, amount, 0)
    ensures o.description == SetDescription(o.kind)
  {
    Objective(order, false, SetDescription(Gather(item, amount, 0)), Gather(item, amount, 0))
  }
}
