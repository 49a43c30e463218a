/** The simulation state and its tick (src/game_state.rs): events are queued
    by `dispatch_event` and drained, last in first out, by `do_tick` after the
    AI has run once. */
module Game {
  import opened Geometry
  import opened GridMap
  import opened EntityHolders

  /** A unit order and a unit kind. Their definitions are not part of this
      model; each is an uninterpreted tag. */
  datatype Task = Task(tag: nat)
  datatype EntityType = EntityType(tag: nat)

  datatype GameEvent =
    | OrderUnits(task: Task, unitIds: map<nat, bool>)
    | InsertUnit(location: Point, teamId: nat, unitType: EntityType)
    | SetMapPoint(cell: (int, int), groundType: GroundType)
    | AddBuilding(site: (int, int))

  datatype GameState = GameState(tick: nat, gameMap: Map, entityHolder: EntityHolder, eventLog: seq<GameEvent>)

  /** The calls `do_tick` makes whose bodies are not part of this model:
      `EntityHolder::entity_ai`, `EntityHolder::order_entities`, `Map::set`
      and `EntityHolder::add_new_building`. */
  datatype Hooks = Hooks(
    entityAi: (EntityHolder, Map) -> EntityHolder,
    orderEntities: (EntityHolder, Map, Task, map<nat, bool>) -> EntityHolder,
    setMapCell: (Map, int, int, GroundType) -> Map,
    addBuilding: (EntityHolder, Map, (int, int)) -> (EntityHolder, Map))

  /** `GameState::new` with the randomly generated map passed in. */
  function NewGameState(initialMap: Map): (g: GameState)
    ensures g.tick == 0 && g.eventLog == [] && g.gameMap == initialMap
    ensures g.entityHolder == NewHolder()
  {
    GameState(0, initialMap, NewHolder(), [])
  }

  /** `GameState::dispatch_event`: the event goes on top of the stack; nothing
      else changes. */
  function DispatchEvent(g: GameState, e: GameEvent): (r: GameState)
    ensures |r.eventLog| == |g.eventLog| + 1 && r.eventLog[..|g.eventLog|] == g.eventLog
    ensures r.eventLog[|g.eventLog|] == e
    ensures r.(eventLog := g.eventLog) == g
  {
    g.(eventLog := g.eventLog + [e])
  }

  /** One arm of the `match` in `do_tick`. */
  function ApplyEvent(g: GameState, e: GameEvent, hooks: Hooks): (r: GameState)
    ensures r.tick == g.tick && r.eventLog == g.eventLog
    ensures e.OrderUnits? ==>
      (r.gameMap == g.gameMap && r.entityHolder == hooks.orderEntities(g.entityHolder, g.gameMap, e.task, e.unitIds))
    ensures e.InsertUnit? ==>
      (r.gameMap == g.gameMap && r.entityHolder == AddNewEntity(g.entityHolder, e.location.x, e.location.y))
    ensures e.SetMapPoint? ==>
      (r.entityHolder == g.entityHolder && r.gameMap == hooks.setMapCell(g.gameMap, e.cell.0, e.cell.1, e.groundType))
    ensures e.AddBuilding? ==> (r.entityHolder, r.gameMap) == hooks.addBuilding(g.entityHolder, g.gameMap, e.site)
  {
    match e
    case OrderUnits(task, unitIds) =>
      g.(entityHolder := hooks.orderEntities(g.entityHolder, g.gameMap, task, unitIds))
    case InsertUnit(location, _, _) =>
      g.(entityHolder := AddNewEntity(g.entityHolder, location.x, location.y))
    case SetMapPoint(cell, groundType) =>
      g.(gameMap := hooks.setMapCell(g.gameMap, cell.0, cell.1, groundType))
    case AddBuilding(site) =>
      var (holder, newMap) := hooks.addBuilding(g.entityHolder, g.gameMap, site);
      g.(entityHolder := holder, gameMap := newMap)
  }

  /** An inserted unit's kind and team have no effect: the source never uses
      the unit type, and the team is dropped because the model follows the
      two-argument `add_new_entity` of src/entity_holder.rs. */
  lemma InsertUnitIgnoresKind(g: GameState, location: Point, t1: nat, k1: EntityType, t2: nat, k2: EntityType, hooks: Hooks)
    ensures ApplyEvent(g, InsertUnit(location, t1, k1), hooks) == ApplyEvent(g, InsertUnit(location, t2, k2), hooks)
  {
  }

  /** Applying an event leaves the queue alone and does not depend on it. */
  lemma ApplyEventIgnoresLog(g: GameState, e: GameEvent, log: seq<GameEvent>, hooks: Hooks)
    ensures ApplyEvent(g.(eventLog := log), e, hooks) == ApplyEvent(g, e, hooks).(eventLog := log)
  {
  }

  /** `events` applied front to back. */
  function ApplyInOrder(g: GameState, events: seq<GameEvent>, hooks: Hooks): (r: GameState)
    ensures r.tick == g.tick && r.eventLog == g.eventLog
    decreases |events|
  {
    if events == [] then g else ApplyInOrder(ApplyEvent(g, events[0], hooks), events[1..], hooks)
  }

  function Reverse<T>(s: seq<T>): (r: seq<T>)
    ensures |r| == |s|
    ensures forall i :: 0 <= i < |s| ==> r[i] == s[|s| - 1 - i]
  {
    if s == [] then [] else [s[|s| - 1]] + Reverse(s[..|s| - 1])
  }

  /** What a tick does, stated directly: the counter advances, the AI runs once
      on the state before any queued event, then the queue is applied newest
      first and left empty. */
  function TickResult(g: GameState, hooks: Hooks): GameState {
    var afterAi := g.(tick := g.tick + 1, entityHolder := hooks.entityAi(g.entityHolder, g.gameMap), eventLog := []);
    ApplyInOrder(afterAi, Reverse(g.eventLog), hooks)
  }

  lemma {:induction false} ApplyInOrderIgnoresLog(g: GameState, events: seq<GameEvent>, log: seq<GameEvent>, hooks: Hooks)
    ensures ApplyInOrder(g.(eventLog := log), events, hooks) == ApplyInOrder(g, events, hooks).(eventLog := log)
    decreases |events|
  {
    if events != [] {
      ApplyEventIgnoresLog(g, events[0], log, hooks);
      ApplyInOrderIgnoresLog(ApplyEvent(g, events[0], hooks), events[1..], log, hooks);
    }
  }

  /** `GameState::do_tick`: pops and applies events until the queue is empty. */
  method DoTick(g: GameState, hooks: Hooks) returns (r: GameState)
    ensures r.tick == g.tick + 1
    ensures r.eventLog == []
    ensures r == TickResult(g, hooks)
  {
    r := g.(tick := g.tick + 1);
    r := r.(entityHolder := hooks.entityAi(r.entityHolder, r.gameMap));
    ghost var target := TickResult(g, hooks);
    ApplyInOrderIgnoresLog(r, Reverse(r.eventLog), [], hooks);
    while r.eventLog != []
      invariant ApplyInOrder(r, Reverse(r.eventLog), hooks).(eventLog := []) == target
      decreases |r.eventLog|
    {
      var gameEvent := r.eventLog[|r.eventLog| - 1];
      var rest := r.eventLog[..|r.eventLog| - 1];
      assert Reverse(r.eventLog) == [gameEvent] + Reverse(rest);
      ApplyEventIgnoresLog(r, gameEvent, rest, hooks);
      ApplyInOrderIgnoresLog(ApplyEvent(r, gameEvent, hooks), Reverse(rest), rest, hooks);
      ApplyInOrderIgnoresLog(ApplyEvent(r, gameEvent, hooks), Reverse(rest), [], hooks);
      ApplyInOrderIgnoresLog(ApplyEvent(r.(eventLog := rest), gameEvent, hooks), Reverse(rest), [], hooks);
      r := ApplyEvent(r.(eventLog := rest), gameEvent, hooks);
    }
  }

  /** The event dispatched last is applied first in the next tick, right after
      the AI. */
  lemma LastDispatchedAppliedFirst(g: GameState, e: GameEvent, hooks: Hooks)
    ensures var afterAi := g.(tick := g.tick + 1, entityHolder := hooks.entityAi(g.entityHolder, g.gameMap), eventLog := []);
      TickResult(DispatchEvent(g, e), hooks) == ApplyInOrder(ApplyEvent(afterAi, e, hooks), Reverse(g.eventLog), hooks)
  {
    var log := g.eventLog + [e];
    assert log[..|log| - 1] == g.eventLog;
    assert Reverse(log) == [e] + Reverse(g.eventLog);
  }

  /** A tick with nothing queued is the AI step alone. */
  lemma QuietTick(g: GameState, hooks: Hooks)
    requires g.eventLog == []
    ensures TickResult(g, hooks) == g.(tick := g.tick + 1, entityHolder := hooks.entityAi(g.entityHolder, g.gameMap))
  {
  }
}
