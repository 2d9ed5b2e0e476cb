/** The objective structs of the Actors/ revision (FQuestStepObjective and its
    five subclasses in Public/Actors/QuestManager.h), as one datatype.

    A gameplay tag is a string; a player controller is an opaque integer handle
    and a null controller is None. The number of connected players (the game
    state's PlayerArray) is passed in, as the source reads it from the world. */
module Objectives {
  import opened Common

  type Tag = string
  type ControllerId = int

  /** EQuestStepType with each variant's own fields; NoStep is
      EQuestStepType::None, the type of a default-constructed step. */
  datatype StepKind =
    | NoStep
    | GoTo(placeToGo: Tag)
    | TalkWith(entityToTalkWith: Tag)
    | Kill(entityToKill: Tag, amountToKill: int, currentlyKilled: int)
    | Gather(itemToGather: Tag, amountToGather: int, currentlyGathered: int)
    | Catch(allowedTagToCatch: seq<Tag>, amountNeeded: int, currentlyCatched: int)

  /** One quest step: its order inside the quest, the quest it belongs to, the
      all-players gate, the completed flag and the controllers that have
      completed it so far. Associated actors, markers, rewards and the
      description only drive presentation and are not kept. */
  datatype Objective = Objective(
    order: int,
    parentQuestID: int,
    requiresAllPlayers: bool,
    completed: bool,
    completedControllers: seq<ControllerId>,
    kind: StepKind)

  /** EQuestStepType, the tag the base struct keeps of its subclass. */
  datatype StepType = NoType | GoToType | TalkWithType | KillType | GatherType | CatchType

  /** The base FQuestStepObjective part of a step, which is all that a copy
      by value keeps: the subclass fields (place, entity, counters, tags) are
      sliced off and only the step type says what the step was. */
  datatype BaseObjective = BaseObjective(
    order: int,
    parentQuestID: int,
    requiresAllPlayers: bool,
    completed: bool,
    completedControllers: seq<ControllerId>,
    stepType: StepType)

  /** The QuestStepType field each subclass constructor sets. */
  function TypeOf(k: StepKind): (t: StepType)
    ensures t == NoType <==> k.NoStep?
  {
    match k
    case NoStep => NoType
    case GoTo(_) => GoToType
    case TalkWith(_) => TalkWithType
    case Kill(_, _, _) => KillType
    case Gather(_, _, _) => GatherType
    case Catch(_, _, _) => CatchType
  }

  /** Copying a step into an FQuestStepObjective: the base fields are kept,
      the subclass's own fields are lost. */
  function Base(o: Objective): (b: BaseObjective)
    ensures b.order == o.order && b.parentQuestID == o.parentQuestID
    ensures b.requiresAllPlayers == o.requiresAllPlayers && b.completed == o.completed
    ensures b.completedControllers == o.completedControllers
    ensures b.stepType == TypeOf(o.kind)
  {
    BaseObjective(o.order, o.parentQuestID, o.requiresAllPlayers, o.completed, o.completedControllers, TypeOf(o.kind))
  }

  /** The default-constructed FQuestStepObjective: order -1, not completed.
      Its step type and parent quest are left uninitialised by the source;
      NoType and -1 are used here. */
  function DefaultObjective(): (r: BaseObjective)
    ensures r.order == -1 && !r.completed && r.stepType == NoType
  {
    BaseObjective(-1, -1, false, false, [], NoType)
  }

  /** FQuestStepObjective::IsValid: a positive order and a real step type. */
  predicate IsValid(o: BaseObjective): (b: bool)
    ensures b ==> o != DefaultObjective()
  {
    o.order > 0 && o.stepType != NoType
  }

  /** The gate invariant: no controller is recorded twice. */
  predicate GateConsistent(o: Objective) {
    NoDup(o.completedControllers)
  }

  /** FQuestStepObjective::OnCompleted. A null controller changes nothing.
      Without the gate the step is completed. With the gate the controller is
      recorded once and the step counts as completed exactly while the number
      of distinct recorded controllers equals the number of players. */
  function OnCompleted(o: Objective, player: Option<ControllerId>, playerCount: nat): (r: Objective)
    ensures player.None? ==> r == o
    ensures player.Some? && !o.requiresAllPlayers ==> r == o.(completed := true)
    ensures player.Some? && o.requiresAllPlayers ==>
      && player.value in r.completedControllers
      && (forall c :: c in r.completedControllers <==> c in o.completedControllers || c == player.value)
      && (GateConsistent(o) ==> GateConsistent(r))
      && r.completed == (|r.completedControllers| == playerCount)
      && r == o.(completed := r.completed, completedControllers := r.completedControllers)
    ensures player.Some? && o.requiresAllPlayers && player.value in o.completedControllers ==>
      r.completedControllers == o.completedControllers
  {
    match player
    case None => o
    case Some(c) =>
      if !o.requiresAllPlayers then o.(completed := true)
      else
        var cs := AddUnique(o.completedControllers, c);
        o.(completedControllers := cs, completed := |cs| == playerCount)
  }

  /** The counting rule shared by Kill, Gather and Catch: the step is
      completed when the new count reaches the target, and only then is the
      completion (and its gate) applied. */
  function Progress(o: Objective, count: int, target: int, player: Option<ControllerId>, playerCount: nat): (r: Objective)
    ensures r == o.(completed := r.completed, completedControllers := r.completedControllers)
    ensures r.completed ==> count >= target
    ensures (player.None? || !o.requiresAllPlayers) ==> r.completed == (count >= target)
    ensures count < target || player.None? || !o.requiresAllPlayers ==> r.completedControllers == o.completedControllers
    ensures count >= target && player.Some? && o.requiresAllPlayers ==>
      && (forall c :: c in r.completedControllers <==> c in o.completedControllers || c == player.value)
      && r.completed == (|r.completedControllers| == playerCount)
    ensures GateConsistent(o) ==> GateConsistent(r)
  {
    var o1 := o.(completed := count >= target);
    if o1.completed then OnCompleted(o1, player, playerCount) else o1
  }

  /** FQuestStepGoToObjective::OnArrivedToPlace. */
  function OnArrivedToPlace(o: Objective, player: Option<ControllerId>, playerCount: nat): (r: Objective)
    requires o.kind.GoTo?
    ensures player.None? ==> r == o
    ensures player.Some? && !o.requiresAllPlayers ==> r == o.(completed := true)
    ensures player.Some? && o.requiresAllPlayers ==>
      && player.value in r.completedControllers
      && (forall c :: c in r.completedControllers <==> c in o.completedControllers || c == player.value)
      && (GateConsistent(o) ==> GateConsistent(r))
      && r.completed == (|r.completedControllers| == playerCount)
      && r == o.(completed := r.completed, completedControllers := r.completedControllers)
    ensures player.Some? && o.requiresAllPlayers && player.value in o.completedControllers ==>
      r.completedControllers == o.completedControllers
  {
    OnCompleted(o, player, playerCount)
  }

  /** FQuestStepTalkWithObjective::OnTalkedWithEntity. */
  function OnTalkedWithEntity(o: Objective, player: Option<ControllerId>, playerCount: nat): (r: Objective)
    requires o.kind.TalkWith?
    ensures player.None? ==> r == o
    ensures player.Some? && !o.requiresAllPlayers ==> r == o.(completed := true)
    ensures player.Some? && o.requiresAllPlayers ==>
      && player.value in r.completedControllers
      && (forall c :: c in r.completedControllers <==> c in o.completedControllers || c == player.value)
      && (GateConsistent(o) ==> GateConsistent(r))
      && r.completed == (|r.completedControllers| == playerCount)
      && r == o.(completed := r.completed, completedControllers := r.completedControllers)
    ensures player.Some? && o.requiresAllPlayers && player.value in o.completedControllers ==>
      r.completedControllers == o.completedControllers
  {
    OnCompleted(o, player, playerCount)
  }

  /** FQuestStepKillObjective::OnEntityKilled: one more kill; completed once the
      count reaches AmountToKill, then subject to the gate. */
  function OnEntityKilled(o: Objective, player: Option<ControllerId>, playerCount: nat): (r: Objective)
    requires o.kind.Kill?
    ensures r.kind == o.kind.(currentlyKilled := o.kind.currentlyKilled + 1)
    ensures r == o.(kind := r.kind, completed := r.completed, completedControllers := r.completedControllers)
    ensures r.order == o.order && r.parentQuestID == o.parentQuestID && r.requiresAllPlayers == o.requiresAllPlayers
    ensures r.completed ==> r.kind.currentlyKilled >= r.kind.amountToKill
    ensures (player.None? || !o.requiresAllPlayers) ==>
      r.completed == (r.kind.currentlyKilled >= r.kind.amountToKill)
    ensures r.kind.currentlyKilled < r.kind.amountToKill || player.None? || !o.requiresAllPlayers ==>
      r.completedControllers == o.completedControllers
    ensures player.Some? && o.requiresAllPlayers && r.kind.currentlyKilled >= r.kind.amountToKill ==>
      && player.value in r.completedControllers
      && (forall c :: c in r.completedControllers <==> c in o.completedControllers || c == player.value)
      && r.completed == (|r.completedControllers| == playerCount)
    ensures GateConsistent(o) ==> GateConsistent(r)
  {
    var k := o.kind.(currentlyKilled := o.kind.currentlyKilled + 1);
    Progress(o.(kind := k), k.currentlyKilled, k.amountToKill, player, playerCount)
  }

  /** FQuestStepGatherObjective::OnItemGathered: the counter accumulates the
      gathered amount; completed once it reaches AmountToGather. */
  function OnItemGathered(o: Objective, player: Option<ControllerId>, amountGathered: int, playerCount: nat): (r: Objective)
    requires o.kind.Gather?
    ensures r.kind == o.kind.(currentlyGathered := o.kind.currentlyGathered + amountGathered)
    ensures r == o.(kind := r.kind, completed := r.completed, completedControllers := r.completedControllers)
    ensures r.order == o.order && r.parentQuestID == o.parentQuestID && r.requiresAllPlayers == o.requiresAllPlayers
    ensures r.completed ==> r.kind.currentlyGathered >= r.kind.amountToGather
    ensures (player.None? || !o.requiresAllPlayers) ==>
      r.completed == (r.kind.currentlyGathered >= r.kind.amountToGather)
    ensures r.kind.currentlyGathered < r.kind.amountToGather || player.None? || !o.requiresAllPlayers ==>
      r.completedControllers == o.completedControllers
    ensures player.Some? && o.requiresAllPlayers && r.kind.currentlyGathered >= r.kind.amountToGather ==>
      && player.value in r.completedControllers
      && (forall c :: c in r.completedControllers <==> c in o.completedControllers || c == player.value)
      && r.completed == (|r.completedControllers| == playerCount)
    ensures GateConsistent(o) ==> GateConsistent(r)
  {
    var k := o.kind.(currentlyGathered := o.kind.currentlyGathered + amountGathered);
    Progress(o.(kind := k), k.currentlyGathered, k.amountToGather, player, playerCount)
  }

  /** FQuestStepCatchObjective::OnCatched: one more catch; completed once the
      count reaches AmountNeeded. */
  function OnCatched(o: Objective, player: Option<ControllerId>, playerCount: nat): (r: Objective)
    requires o.kind.Catch?
    ensures r.kind == o.kind.(currentlyCatched := o.kind.currentlyCatched + 1)
    ensures r == o.(kind := r.kind, completed := r.completed, completedControllers := r.completedControllers)
    ensures r.order == o.order && r.parentQuestID == o.parentQuestID && r.requiresAllPlayers == o.requiresAllPlayers
    ensures r.completed ==> r.kind.currentlyCatched >= r.kind.amountNeeded
    ensures (player.None? || !o.requiresAllPlayers) ==>
      r.completed == (r.kind.currentlyCatched >= r.kind.amountNeeded)
    ensures r.kind.currentlyCatched < r.kind.amountNeeded || player.None? || !o.requiresAllPlayers ==>
      r.completedControllers == o.completedControllers
    ensures player.Some? && o.requiresAllPlayers && r.kind.currentlyCatched >= r.kind.amountNeeded ==>
      && player.value in r.completedControllers
      && (forall c :: c in r.completedControllers <==> c in o.completedControllers || c == player.value)
      && r.completed == (|r.completedControllers| == playerCount)
    ensures GateConsistent(o) ==> GateConsistent(r)
  {
    var k := o.kind.(currentlyCatched := o.kind.currentlyCatched + 1);
    Progress(o.(kind := k), k.currentlyCatched, k.amountNeeded, player, playerCount)
  }

  /** FQuestStepObjective::ResetStepQuest: clears the completed flag only;
      counters and recorded controllers stay as they were. */
  function ResetStepQuest(o: Objective): (r: Objective)
    ensures !r.completed
    ensures r.kind == o.kind && r.completedControllers == o.completedControllers
    ensures r.order == o.order && r.parentQuestID == o.parentQuestID && r.requiresAllPlayers == o.requiresAllPlayers
  {
    o.(completed := false)
  }

  /** FQuestStepObjective::SetCompleted: marks the step done whatever its progress. */
  function SetCompleted(o: Objective): (r: Objective)
    ensures r.completed
    ensures r.kind == o.kind && r.completedControllers == o.completedControllers
    ensures r.order == o.order && r.parentQuestID == o.parentQuestID && r.requiresAllPlayers == o.requiresAllPlayers
  {
    o.(completed := true)
  }

  /** CompletedBy applied for each controller of cs in turn, as when several
      players trigger the same step one after the other. */
  function CompletedByEach(o: Objective, cs: seq<ControllerId>, playerCount: nat): (r: Objective)
    decreases |cs|
  {
    if cs == [] then o else CompletedByEach(OnCompleted(o, Some(cs[0]), playerCount), cs[1..], playerCount)
  }

  /** The all-players gate: starting from no recorded controllers, after any
      non-empty series of triggers the recorded controllers are exactly the
      distinct triggering ones, without repetition, and the step is completed
      exactly when their number equals the player count. */
  lemma {:induction false} AllPlayersGate(o: Objective, cs: seq<ControllerId>, playerCount: nat)
    requires o.requiresAllPlayers && GateConsistent(o)
    requires cs != []
    ensures var r := CompletedByEach(o, cs, playerCount);
      && GateConsistent(r)
      && (forall c :: c in r.completedControllers <==> c in o.completedControllers || c in cs)
      && r.completed == (|r.completedControllers| == playerCount)
      && r.kind == o.kind && r.order == o.order && r.requiresAllPlayers
    decreases |cs|
  {
    var o1 := OnCompleted(o, Some(cs[0]), playerCount);
    if |cs| > 1 {
      AllPlayersGate(o1, cs[1..], playerCount);
      var r := CompletedByEach(o1, cs[1..], playerCount);
      forall c ensures c in r.completedControllers <==> c in o.completedControllers || c in cs {
        assert c in cs <==> c == cs[0] || c in cs[1..];
      }
    }
  }

  /** A trigger from a controller that is already recorded changes nothing
      once the completed flag agrees with the gate. */
  lemma RepeatedControllerIsNoOp(o: Objective, c: ControllerId, playerCount: nat)
    requires o.requiresAllPlayers && c in o.completedControllers
    requires o.completed == (|o.completedControllers| == playerCount)
    ensures OnCompleted(o, Some(c), playerCount) == o
  {
  }

  /** Three players: two distinct triggers leave the step open, the third
      completes it, and a repeated trigger afterwards leaves it as it is. */
  lemma {:induction false} ThreePlayerGate(o: Objective)
    requires o.requiresAllPlayers && o.completedControllers == [] && !o.completed
    ensures !CompletedByEach(o, [1, 2], 3).completed
    ensures CompletedByEach(o, [1, 2, 3], 3).completed
    ensures CompletedByEach(o, [1, 2, 3, 1], 3) == CompletedByEach(o, [1, 2, 3], 3)
  {
    var o1 := OnCompleted(o, Some(1), 3);
    var o2 := OnCompleted(o1, Some(2), 3);
    var o3 := OnCompleted(o2, Some(3), 3);
    assert o1.completedControllers == [1];
    assert o2.completedControllers == [1, 2];
    assert o3.completedControllers == [1, 2, 3];
    assert CompletedByEach(o, [1, 2], 3) == o2 by {
      assert [1, 2][1..] == [2];
      assert CompletedByEach(o1, [2], 3) == CompletedByEach(o2, [], 3);
    }
    assert CompletedByEach(o, [1, 2, 3], 3) == o3 by {
      assert [1, 2, 3][1..] == [2, 3] && [2, 3][1..] == [3];
      assert CompletedByEach(o2, [3], 3) == CompletedByEach(o3, [], 3);
    }
    assert CompletedByEach(o, [1, 2, 3, 1], 3) == OnCompleted(o3, Some(1), 3) by {
      assert [1, 2, 3, 1][1..] == [2, 3, 1] && [2, 3, 1][1..] == [3, 1] && [3, 1][1..] == [1];
      assert CompletedByEach(o3, [1], 3) == CompletedByEach(OnCompleted(o3, Some(1), 3), [], 3);
    }
    RepeatedControllerIsNoOp(o3, 1, 3);
  }

  /** Because ResetStepQuest keeps the kill counter, a Kill step that had
      reached its target completes again on the very next kill after a reset. */
  lemma KillAfterResetCompletesAtOnce(o: Objective, player: ControllerId, playerCount: nat)
    requires o.kind.Kill? && !o.requiresAllPlayers
    requires o.kind.currentlyKilled >= o.kind.amountToKill
    ensures !ResetStepQuest(o).completed
    ensures OnEntityKilled(ResetStepQuest(o), Some(player), playerCount).completed
  {
  }
}
