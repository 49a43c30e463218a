/** The collection of all entities (src/entity_holder.rs): id allocation, box
    selection, and the per-tick pairwise separation and map correction. */
module EntityHolders {
  import opened Wrappers
  import opened Geometry
  import opened GridMap
  import opened Entities

  /** `selectedEntityIds` mirrors the source's `HashMap<u32, bool>`: only its
      keys are ever read. */
  datatype EntityHolder = EntityHolder(entities: seq<Entity>, selectedEntityIds: map<nat, bool>, idCounter: nat)

  /** Entity ids are pairwise distinct and all below the id counter. */
  predicate IdsConsistent(h: EntityHolder) {
    && (forall i, j :: 0 <= i < j < |h.entities| ==> h.entities[i].id != h.entities[j].id)
    && (forall i :: 0 <= i < |h.entities| ==> h.entities[i].id < h.idCounter)
  }

  /** `EntityHolder::new`. */
  function NewHolder(): (h: EntityHolder)
    ensures h.entities == [] && h.selectedEntityIds == map[] && h.idCounter == 0
    ensures IdsConsistent(h)
  {
    EntityHolder([], map[], 0)
  }

  /** `EntityHolder::add_new_entity`: appends one entity at (x, y) carrying the
      current counter as its id, then advances the counter. */
  function AddNewEntity(h: EntityHolder, x: real, y: real): (r: EntityHolder)
    ensures |r.entities| == |h.entities| + 1
    ensures r.entities[..|h.entities|] == h.entities
    ensures r.entities[|h.entities|] == Entity(Point(x, y), h.idCounter)
    ensures r.idCounter == h.idCounter + 1
    ensures r.selectedEntityIds == h.selectedEntityIds
    ensures IdsConsistent(h) ==> IdsConsistent(r)
  {
    h.(entities := h.entities + [Entity(Point(x, y), h.idCounter)], idCounter := h.idCounter + 1)
  }

  /** `EntityHolder::entity_selected`: a `contains_key` test on the entity's
      id, so the value stored under the id plays no part. */
  function EntitySelected(h: EntityHolder, e: Entity): (r: bool)
    ensures r <==> e.id in h.selectedEntityIds.Keys
  {
    e.id in h.selectedEntityIds
  }

  /** Selection follows the id, not the position: moving an entity keeps it
      selected or unselected. */
  lemma SelectionFollowsId(h: EntityHolder, e: Entity, location: Point)
    ensures EntitySelected(h, e.(location := location)) == EntitySelected(h, e)
  {
  }

  /** `EntityHolder::set_selection`: the previous selection is discarded and
      replaced by the ids of the entities `isInside` reports inside the box
      spanned by `pos1` and `pos2`. `isInside` stands for `Entity::is_inside`,
      which is not part of this model. */
  method SetSelection(h: EntityHolder, pos1: (real, real), pos2: (real, real),
                      isInside: (Entity, (real, real), (real, real)) -> bool)
    returns (r: EntityHolder)
    ensures r.entities == h.entities && r.idCounter == h.idCounter
    ensures forall id :: id in r.selectedEntityIds ==> r.selectedEntityIds[id]
    ensures forall i :: 0 <= i < |h.entities| && isInside(h.entities[i], pos1, pos2) ==> EntitySelected(r, h.entities[i])
    ensures forall id :: id in r.selectedEntityIds ==>
      exists i :: 0 <= i < |h.entities| && h.entities[i].id == id && isInside(h.entities[i], pos1, pos2)
    ensures IdsConsistent(h) ==>
      forall i :: 0 <= i < |h.entities| ==> (EntitySelected(r, h.entities[i]) <==> isInside(h.entities[i], pos1, pos2))
  {
    var es := h.entities;
    var selected: map<nat, bool> := map[];
    var i := 0;
    while i < |es|
      invariant 0 <= i <= |es|
      invariant forall k :: 0 <= k < i && isInside(es[k], pos1, pos2) ==> es[k].id in selected
      invariant forall id :: id in selected ==> selected[id]
      invariant forall id :: id in selected ==> exists k :: 0 <= k < i && es[k].id == id && isInside(es[k], pos1, pos2)
    {
      if isInside(es[i], pos1, pos2) {
        selected := selected[es[i].id := true];
      }
      i := i + 1;
    }
    r := h.(selectedEntityIds := selected);
    if IdsConsistent(h) {
      forall i | 0 <= i < |es| && EntitySelected(r, es[i])
        ensures isInside(es[i], pos1, pos2)
      {
        var k :| 0 <= k < |es| && es[k].id == es[i].id && isInside(es[k], pos1, pos2);
        assert k == i;
      }
    }
  }

  /** The push `a` receives from `b`, zero when they do not interact. */
  function Push(a: Entity, b: Entity, len: Vector -> real, distVect: (Point, Point) -> Vector): Vector
    requires IsLength(len)
  {
    match InteractWith(a, b, len, distVect)
    case Some(v) => v
    case None => Zero
  }

  /** The sum of the pushes on es[i] from es[0..n), skipping es[i] itself. */
  function ForceSum(es: seq<Entity>, i: nat, n: nat, len: Vector -> real, distVect: (Point, Point) -> Vector): Vector
    requires IsLength(len)
    requires i < |es| && n <= |es|
    decreases n
  {
    if n == 0 then
      Zero
    else if n - 1 != i then
      Sum(ForceSum(es, i, n - 1, len, distVect), Push(es[i], es[n - 1], len, distVect))
    else
      ForceSum(es, i, n - 1, len, distVect)
  }

  /** The total push on es[i] from every other entity, all taken at their
      positions before the step. */
  function NetForce(es: seq<Entity>, i: nat, len: Vector -> real, distVect: (Point, Point) -> Vector): Vector
    requires IsLength(len)
    requires i < |es|
  {
    ForceSum(es, i, |es|, len, distVect)
  }

  /** The inner loop of `entities_interact_with_each_other`: the sum of the
      pushes on es[i] from every other entity. */
  method ForceOn(es: seq<Entity>, i: nat, len: Vector -> real, distVect: (Point, Point) -> Vector)
    returns (forceVecFor1: Vector)
    requires IsLength(len)
    requires i < |es|
    ensures forceVecFor1 == NetForce(es, i, len, distVect)
  {
    forceVecFor1 := Zero;
    var j := 0;
    while j < |es|
      invariant 0 <= j <= |es|
      invariant forceVecFor1 == ForceSum(es, i, j, len, distVect)
    {
      if i != j {
        var vectorSome := InteractWith(es[i], es[j], len, distVect);
        assert Push(es[i], es[j], len, distVect) == if vectorSome.Some? then vectorSome.value else Zero;
        match vectorSome {
          case Some(vector) =>
            forceVecFor1 := VectorAdd(forceVecFor1, vector);
          case None =>
        }
      }
      j := j + 1;
    }
  }

  /** `EntityHolder::entities_interact_with_each_other`: first every net force
      is computed from the positions before the step, then all are applied.
      Count, order and ids of the entities are kept. */
  method EntitiesInteractWithEachOther(h: EntityHolder, len: Vector -> real, distVect: (Point, Point) -> Vector)
    returns (r: EntityHolder)
    requires IsLength(len)
    ensures r.selectedEntityIds == h.selectedEntityIds && r.idCounter == h.idCounter
    ensures |r.entities| == |h.entities|
    ensures forall i :: 0 <= i < |h.entities| ==>
      r.entities[i].id == h.entities[i].id
      && DistTo(r.entities[i].location, h.entities[i].location) == NetForce(h.entities, i, len, distVect)
  {
    var es := h.entities;
    var forceVecs: seq<Vector> := [];
    var i := 0;
    while i < |es|
      invariant 0 <= i <= |es|
      invariant |forceVecs| == i
      invariant forall k :: 0 <= k < i ==> forceVecs[k] == NetForce(es, k, len, distVect)
    {
      var forceVecFor1 := ForceOn(es, i, len, distVect);
      forceVecs := forceVecs + [forceVecFor1];
      i := i + 1;
    }

    var moved: seq<Entity> := [];
    var k := 0;
    while k < |es|
      invariant 0 <= k <= |es|
      invariant |moved| == k
      invariant forall n :: 0 <= n < k ==> moved[n] == AddForceVect(es[n], forceVecs[n])
    {
      moved := moved + [AddForceVect(es[k], forceVecs[k])];
      k := k + 1;
    }
    r := h.(entities := moved);
  }

  /** A push from `b` to `a` is the negation of the push from `a` to `b` when
      the distance vector is antisymmetric, as `Point::dist_to` is. */
  lemma PushAntisymmetric(a: Entity, b: Entity, len: Vector -> real, distVect: (Point, Point) -> Vector)
    requires IsLength(len)
    requires distVect(b.location, a.location) == Negated(distVect(a.location, b.location))
    ensures Push(b, a, len, distVect) == Negated(Push(a, b, len, distVect))
  {
    var d := distVect(a.location, b.location);
    LengthOfNegated(len, d);
  }

  /** An entity with no other entity closer than 0.55 (or exactly on top of
      it) is not pushed. */
  lemma {:induction false} NoNeighboursNoPush(es: seq<Entity>, i: nat, n: nat, len: Vector -> real, distVect: (Point, Point) -> Vector)
    requires IsLength(len)
    requires i < |es| && n <= |es|
    requires forall j :: 0 <= j < |es| && j != i ==>
      distVect(es[i].location, es[j].location) == Zero || len(distVect(es[i].location, es[j].location)) >= MaxDist
    ensures ForceSum(es, i, n, len, distVect) == Zero
    decreases n
  {
    if n > 0 {
      NoNeighboursNoPush(es, i, n - 1, len, distVect);
    }
  }

  /** `EntityHolder::entities_interact_with_map`: every entity is corrected
      against the map on its own; order and ids are kept. */
  function EntitiesInteractWithMap(h: EntityHolder, m: Map): (r: EntityHolder)
    requires GridMap.Valid(m)
    ensures r.selectedEntityIds == h.selectedEntityIds && r.idCounter == h.idCounter
    ensures |r.entities| == |h.entities|
    ensures forall i :: 0 <= i < |h.entities| ==> r.entities[i] == InteractWithMap(m, h.entities[i])
    ensures IdsConsistent(h) ==> IdsConsistent(r)
  {
    h.(entities := seq(|h.entities|, i requires 0 <= i < |h.entities| => InteractWithMap(m, h.entities[i])))
  }
}
