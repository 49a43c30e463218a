# oskuRTS core, modelled in Dafny

oskuRTS is a small real-time strategy game. Its simulation core runs on a
grid map of ground cells. The pieces modelled here are:

- point and vector algebra;
- cell look-ups, cell setters and a bounding-box line-of-sight test on the map;
- the breadth-first search tree that unit path finding is built from;
- the separation and wall-clamping rules that keep entities apart and out of
  blocked cells;
- the entity holder: id allocation, box selection, and the per-tick two-phase
  pairwise push;
- projectiles flying from a start point to an end point;
- the game tick, with its last-in-first-out event queue;
- the binary save format, both the Rust writer and the Python reader.

Floating-point numbers are modelled as `real`. The Rust `% 1.0` and `as i32`
are modelled as truncation toward zero (`Geometry.Fmod1`, `Geometry.Trunc`),
for negative values too; the saturation of `as i32` is not modelled (see
"Left out"). Bytes are naturals below 256.

Some functions the code calls have no body in the files modelled:
`dist_vect`, `Vector::angle`, `is_inside`, `entity_ai`, `order_entities`,
`Map::set` and `add_new_building`. Each one is a function-valued parameter
instead. `Vector::length` does have a body, a square root of x² + y²; it is
abstracted as a parameter `len` constrained by `Geometry.IsLength`:
non-negative, zero exactly on the zero vector, and scaling by |k| under
multiplication by k. The game-state hooks are grouped in `Game.Hooks`.
`Point::add_vect`, which `interact_with_map` calls (src/entity.rs:47-55), is
not defined in src/point.rs either; it is taken to be `Point::added`
(`Geometry.Added`), the translation by the vector.

Modules, one per source file: `Geometry` (src/point.rs), `GridMap`
(src/map.rs), `PathFinder` (src/path_finder.rs), `Entities` (src/entity.rs),
`EntityHolders` (src/entity_holder.rs), `Projectiles` (src/projectile.rs),
`Game` (src/game_state.rs), `BinaryHelpers` (src/binary_helpers.rs) and
`SaveLoader` (save_loader.py). `Wrappers` holds `Option` and `Result`.

Path finding is a breadth-first search over four neighbours from the goal,
with a 100000-iteration cap. Line of sight checks every cell of a widened
bounding box.

The files also come from different revisions:

- `game_state.rs` passes a team id to `add_new_entity`, but `entity_holder.rs`
  takes only x and y. The model follows `entity_holder.rs`.
- `entity_holder.rs` builds entities with an id that `entity.rs` does not
  declare. The model gives `Entity` an `id` field.

## Model

| member | source | states |
|---|---|---|
| Geometry.Normalized | src/point.rs:19-28 | the zero vector normalizes to zero; any other vector normalizes to a unit-length vector in its own direction |
| Geometry.XNormalized | src/point.rs:30-35 | zero when x is 0; otherwise x becomes ±1 with x's sign, and y scaled by \|x\| is the original y |
| Geometry.YNormalized | src/point.rs:37-42 | the same as XNormalized, with the roles of x and y swapped |
| Geometry.VectorAdd | src/point.rs:44-47 | the in-place add gives the componentwise sum; adding the negation of the argument undoes it |
| Geometry.Multiplied | src/point.rs:49-54 | multiplying by 1 is the identity; multiplying by 0 gives the zero vector |
| Geometry.Negated | src/point.rs:56-61 | a vector plus its negation is the zero vector |
| Geometry.NegatedInvolution | src/point.rs:56-61 | negating twice gives back the vector |
| Geometry.LengthOfNegated | src/point.rs:14-17 | a vector and its negation have the same length |
| Geometry.PointAdd | src/point.rs:76-86 | the mutating `Point::add` ends at the same point as the pure `added` |
| Geometry.Added | src/point.rs:81-86 | the displacement from the start to the translated point is exactly the vector added |
| Geometry.DistTo | src/point.rs:88-93 | the difference vector is zero exactly when the two points coincide |
| Geometry.AddedDistTo | src/point.rs:81-93 | `q.added(p.dist_to(q))` is `p` |
| Geometry.DistToSwapped | src/point.rs:88-93 | swapping the points negates the difference vector |
| Geometry.Trunc | src/point.rs:95-97 | `as i32` truncates toward zero: the result is within one of the value, on the zero side |
| Geometry.TruncMonotone | src/point.rs:95-97 | truncation preserves order |
| Geometry.Fmod1 | src/map.rs:59-70 | `% 1.0` is the signed fractional part: in [0,1) for non-negative values and (-1,0] for negative ones, and adding it back to the truncation gives the value |
| Geometry.AsInt | src/point.rs:95-97 | each coordinate is truncated toward zero |
| GridMap.IndexInjective | src/map.rs:96 | within the width, distinct cells have distinct indices `x + y*width` |
| GridMap.GetAt | src/map.rs:92-98 | `Empty` off the map (x ≥ width or y ≥ height); otherwise the stored ground type |
| GridMap.PointMoveable | src/map.rs:100-110 | false at negative coordinates and off the map; true exactly when the in-bounds cell holds `Grass` |
| GridMap.SetAt | src/map.rs:43-51 | the write keeps the dimensions; with x < width the cell reads back the new type and every other cell is unchanged |
| GridMap.SetWater | src/map.rs:43-46 | the cell becomes non-moveable; with x < width every other cell's moveability is unchanged |
| GridMap.SetGrass | src/map.rs:48-51 | with x < width the cell becomes moveable and every other cell's moveability is unchanged |
| GridMap.SightBox | src/map.rs:54-70 | the widened bounding box is never inverted |
| GridMap.LineOfSight | src/map.rs:53-90 | true exactly when every cell of the widened bounding box is moveable |
| GridMap.ScanBox | src/map.rs:80-89 | true exactly when every cell of the given box is moveable; false as soon as one is not |
| GridMap.SightBoxSymmetric | src/map.rs:54-57 | line of sight from p to q equals line of sight from q to p |
| GridMap.SightBoxHoldsEndpoints | src/map.rs:54-81 | both endpoints' cells lie in the box, so line of sight implies both are moveable |
| GridMap.CentredPointSeesItself | src/map.rs:59-81 | a point in a Grass cell with both offsets in [0.25, 0.75] checks only its own cell and sees itself |
| PathFinder.AdjacentSymmetric | src/path_finder.rs:37-40 | the four-neighbour relation is symmetric |
| PathFinder.Expansions | src/path_finder.rs:37-40 | a moveable popped cell queues its four neighbours in the order -x, +x, -y, +y, each with the popped cell as predecessor |
| PathFinder.PendingExpansions | src/path_finder.rs:37-40 | the queued cells are exactly the four neighbours |
| PathFinder.PendingAppend | src/path_finder.rs:37-40 | appending to the queue adds exactly the appended cells to the pending set |
| PathFinder.Visit | src/path_finder.rs:27-42 | first pop wins: a cell already in the map leaves map and queue unchanged; otherwise exactly that key is added with its predecessor and no earlier entry changes; only a moveable cell is expanded |
| PathFinder.VisitKeepsQueue | src/path_finder.rs:33-41 | every queued entry keeps a predecessor that is in the map, adjacent and moveable |
| PathFinder.VisitKeepsCovered | src/path_finder.rs:33-41 | every neighbour of an expanded cell stays either in the map or in the queue |
| PathFinder.VisitKeepsRanked | src/path_finder.rs:33-40 | each predecessor was inserted before the cell pointing to it, so the tree stays acyclic |
| PathFinder.VisitKeepsEdges | src/path_finder.rs:33-40 | every non-goal key's predecessor stays a key one orthogonal step away and moveable |
| PathFinder.VisitInitial | src/path_finder.rs:20-21 | the first pop inserts goal↦goal and establishes the search invariant |
| PathFinder.VisitStep | src/path_finder.rs:27-42 | each pop preserves the search invariant |
| PathFinder.RankedFollowReachesGoal | src/path_finder.rs:33-40 | in a ranked tree, following predecessors from any key reaches the goal within its rank |
| PathFinder.RankedTreeReachesGoal | src/path_finder.rs:33-40 | following predecessors from every key reaches the goal within \|tree\| steps |
| PathFinder.CoveredEmptyIsClosed | src/path_finder.rs:27-29 | once the queue is empty, every moveable key has all four neighbours as keys |
| PathFinder.BuildSearchTree | src/path_finder.rs:8-61 | goal↦goal is in the result; every non-goal key has an adjacent, moveable key as predecessor; predecessor chains reach the goal; stops with all starts found exactly when they are all keys, or with the queue empty (then closed), or after 100000 + 1 iterations; empty starts give {goal↦goal} after one iteration; a non-moveable goal gives {goal↦goal} |
| PathFinder.ClosedTreeHoldsReachable | src/path_finder.rs:27-42 | when the queue empties, every cell reachable from a key through moveable cells is itself a key |
| Entities.AddForceVect | src/entity.rs:17-19 | the location is translated by exactly the force and the id is kept |
| Entities.InteractWith | src/entity.rs:21-33 | None for coincident entities or at distance ≥ 0.55; otherwise a push along the separating direction with magnitude (0.55 - d)·0.1, strictly between 0 and 0.055 |
| Entities.ScaledUnit | src/entity.rs:29 | the normalised separation scaled by k has length k and equals the separation scaled by k / distance |
| Entities.PushOutOfBlocked | src/entity.rs:36-58 | a moveable own cell changes nothing; a blocked one shifts the location by exactly 0.1 toward the nearer edge, on the axis farther from the cell centre (ties go to y) |
| Entities.ClampSides | src/entity.rs:60-73 | a side whose offset is within 0.25 and whose neighbour is blocked clamps that coordinate to trunc + 0.25 or trunc + 0.75; otherwise the coordinate is unchanged |
| Entities.ClampCorners | src/entity.rs:75-103 | at most one coordinate changes; nothing changes unless a corner's offsets are both within 0.25 and its diagonal neighbour is blocked; each firing corner sets the coordinate the source chooses |
| Entities.InteractWithMap | src/entity.rs:35-104 | the id is kept; what the correction does to the location is stated by `CorrectionClear`, `ClearOfBlockedSides`, `OpenSurroundingsUnchanged` and `CentredEntityUnchanged` |
| Entities.OpenSurroundingsUnchanged | src/entity.rs:44-103 | with the own cell and all eight neighbours moveable, the location is unchanged |
| Entities.CentredEntityUnchanged | src/entity.rs:44-103 | in a moveable cell with both offsets in [0.25, 0.75], the location is unchanged |
| Entities.ClearOfBlockedSides | src/entity.rs:35-104 | at non-negative coordinates in a moveable cell, after the whole correction the entity stays in its cell and its offset is at least 0.25 from every side whose neighbour is blocked |
| Entities.SidesClear | src/entity.rs:60-73 | the side clamp leaves a point of its cell inside that cell and at least 0.25 from every blocked side |
| Entities.CornersKeepClear | src/entity.rs:75-103 | the corner clamp keeps a point that is clear of the blocked sides clear of them and inside its cell |
| Entities.CorrectionClear | src/entity.rs:35-104 | for an entity in a moveable cell the push-out step does nothing, and the two clamps end clear of the blocked sides |
| Entities.ClearInCellOffsets | src/entity.rs:36-38 | a point clear of the blocked sides of its cell has that cell as `as_int` and offsets `% 1.0` that keep 0.25 from every blocked side |
| EntityHolders.NewHolder | src/entity_holder.rs:15-21 | no entities, an empty selection, counter 0, and the id invariant holds |
| EntityHolders.AddNewEntity | src/entity_holder.rs:36-39 | exactly one entity is appended, carrying the old counter as its id; the counter grows by 1; distinct ids below the counter are preserved |
| EntityHolders.EntitySelected | src/entity_holder.rs:32-34 | true exactly when the entity's id is a key of the selection map, whatever value is stored; `SetSelection` states which ids are keys and `SelectionFollowsId` that moving an entity keeps it selected or not |
| EntityHolders.SelectionFollowsId | src/entity_holder.rs:32-34 | moving an entity does not change whether it is selected |
| EntityHolders.SetSelection | src/entity_holder.rs:23-30 | the old selection is discarded; the selection holds an entity's id exactly when that entity is inside the box (both directions, given distinct ids) |
| EntityHolders.EntitiesInteractWithEachOther | src/entity_holder.rs:45-65 | count, order and ids are kept; each entity moves by the sum of the pushes from every other index, all computed from the positions before the step |
| EntityHolders.ForceOn | src/entity_holder.rs:49-58 | the inner loop sums exactly the pushes entity i receives from every other index |
| EntityHolders.PushAntisymmetric | src/entity_holder.rs:48-59 | with an antisymmetric distance vector, the push a gets from b is the negation of the push b gets from a |
| EntityHolders.NoNeighboursNoPush | src/entity_holder.rs:48-59 | an entity with no other entity within 0.55 (other than one exactly on top of it) receives no push |
| EntityHolders.EntitiesInteractWithMap | src/entity_holder.rs:67-71 | each entity is corrected against the map on its own; count, order and ids are kept |
| Projectiles.NewProjectile | src/projectile.rs:16-25 | the location and start point are the start, the end point is the end, and the angle is taken from the end-minus-start vector |
| Projectiles.Increment | src/projectile.rs:31-38 | within 0.11 it lands exactly on the end point; at the end point it is a no-op; otherwise it moves exactly 0.2 straight towards the end point: the new offset to the end point is the old one scaled by 1 - 0.2/d, so the remaining distance is \|d - 0.2\| |
| Projectiles.StepTowards | src/projectile.rs:36 | a 0.2 step along the normalized direction leaves the offset to the end point scaled by 1 - 0.2/d, hence \|d - 0.2\| from it, and has length 0.2 |
| Projectiles.AtLocation | src/projectile.rs:40-42 | true exactly when the location is the end point |
| Projectiles.ArrivesWithin | src/projectile.rs:31-42 | a projectile within 0.11 + 0.2·k of its end point has landed after k + 1 increments |
| Projectiles.StaysLanded | src/projectile.rs:31-42 | further increments leave a landed projectile in place |
| Projectiles.GetHeight | src/projectile.rs:44-54 | undefined (NaN in the source) exactly when start and end coincide; otherwise 0 at the start and at the end, the total length at the midpoint, and between 0 and the total length in between |
| Projectiles.HeightBounds | src/projectile.rs:48-53 | the parabola 1 - (2p - 1)² lies in [0, 1] for p in [0, 1], is 0 at both ends and 1 at p = ½ |
| Projectiles.FiredAtGroundLevel | src/projectile.rs:16-25 | a new projectile with distinct ends starts at height 0 |
| BinaryHelpers.U32AsBytes | src/binary_helpers.rs:32-41 | always exactly four bytes |
| BinaryHelpers.U32AsBytesBigEndian | src/binary_helpers.rs:35-38 | the bytes are the base-256 digits of the input, most significant first |
| BinaryHelpers.I32AsBytes | src/binary_helpers.rs:44-53 | four bytes, which are exactly the bytes `u32_as_bytes` writes for the two's-complement bit pattern of the signed value |
| BinaryHelpers.AsPaddedBinary | src/binary_helpers.rs:6-14 | 4 + length bytes: the first four are `u32_as_bytes` of the payload length modulo 2^32, the rest is the payload; `SaveLoader.PaddedRoundTrip` reads it back |
| BinaryHelpers.PaddedList | src/binary_helpers.rs:22-24 | the concatenated padded records take the sum of (4 + item length) bytes |
| BinaryHelpers.VecAsBytes | src/binary_helpers.rs:18-29 | an empty list encodes as [0,0,0,0]; the prefix encodes the sum of (4 + item length) |
| SaveLoader.BinArrayToInt | save_loader.py:7-12 | the big-endian value is below 256^length |
| SaveLoader.U32RoundTrip | save_loader.py:7-12 | reading back `u32_as_bytes(x)` gives x |
| SaveLoader.U32AsBytesInjective | src/binary_helpers.rs:32-41 | distinct numbers have distinct encodings |
| SaveLoader.PopU | save_loader.py:23-28 | fails with "File too short" exactly when fewer than n bytes remain; otherwise the n bytes returned followed by the rest are the old buffer |
| SaveLoader.PopU32 | save_loader.py:34-35 | consumes exactly four bytes and reads them big-endian; fails when fewer remain |
| SaveLoader.PopU8 | save_loader.py:37-38 | consumes exactly one byte and returns it; fails on an empty buffer |
| SaveLoader.PopF32 | save_loader.py:31-32 | consumes exactly four bytes, kept uninterpreted |
| SaveLoader.PopPaddedDataHandler | save_loader.py:40-46 | fails when fewer than four bytes remain, or when the declared size exceeds the remaining bytes; otherwise the new handler holds exactly the declared number of bytes and the rest follows |
| SaveLoader.PaddedRoundTrip | save_loader.py:40-46 | on `as_padded_binary(p) ++ rest`, the handler holds exactly p and rest is left |
| SaveLoader.Empty | save_loader.py:51-52 | true exactly when no bytes are left; `ExpectEmpty` fails exactly when it is false, and `ParseListLoop`/`ParsePath` stop on it |
| SaveLoader.ExpectEmpty | save_loader.py:51-56 | fails exactly when the buffer is non-empty |
| SaveLoader.PopU8s | save_loader.py:71-72 | n byte pops succeed exactly when n bytes remain, and return those bytes |
| SaveLoader.ParseMap | save_loader.py:60-73 | fails when too short for the two dimensions; otherwise succeeds exactly when the remaining length is 2·width·height, the first half being the first layer and the second half the second layer |
| SaveLoader.PopLayers | save_loader.py:71-73 | with exactly 2·size bytes left, the two layers are the first and second halves and nothing is left over |
| SaveLoader.ParsePath | save_loader.py:104-110 | succeeds exactly when the length is a multiple of 8, and then yields the consecutive 8-byte pairs, each as two 4-byte floats; a trailing partial pair fails with FileTooShort |
| SaveLoader.PairsOfCons | save_loader.py:105-109 | one leading pair followed by the pairs of the remaining bytes are the pairs of the whole |
| SaveLoader.ParseEnemyPoint | save_loader.py:112-122 | always consumes a flag byte plus 8 bytes; a point is present exactly when the flag is non-zero |
| SaveLoader.PopUnitIdentity | save_loader.py:92-95 | fails exactly below 13 bytes; otherwise the location floats, the `u32` id and the type byte sit at offsets 0, 4, 8 and 12 |
| SaveLoader.PopUnitCounters | save_loader.py:96-100 | fails exactly below 20 bytes; otherwise the five `u32` counters are read big-endian at offsets 0, 4, 8, 12 and 16 |
| SaveLoader.ParseUnitHead | save_loader.py:92-100 | fails exactly below 33 bytes; otherwise the fixed-width unit fields sit at fixed offsets and the rest starts at byte 33 |
| SaveLoader.ParseUnitTail | save_loader.py:104-128 | a padded path, a nine-byte enemy point and a padded task need at least 17 bytes |
| SaveLoader.ParseUnit | save_loader.py:91-128 | a unit record is at least 50 bytes; its fixed fields are those at the fixed offsets |
| SaveLoader.ParseBuilding | save_loader.py:150-153 | succeeds exactly on 8 bytes; shorter fails "too short", longer fails "not empty" |
| SaveLoader.BuildingRoundTrip | save_loader.py:150-153 | two `u32_as_bytes` encodings read back as the building they encode |
| SaveLoader.ParseProjectile | save_loader.py:160-168 | succeeds exactly on 28 bytes, giving seven 4-byte floats in order |
| SaveLoader.ParseList | save_loader.py:191-204 | an empty handler gives the empty list |
| SaveLoader.ParseListRoundTrip | save_loader.py:191-204 | reading the padded records that `vec_as_bytes` writes gives one parsed item per record, in order |
| SaveLoader.ParseListLoop | save_loader.py:192-194 | the `while not empty` loop computes the same result as the recursive reading |
| SaveLoader.ParseEntityHolder | save_loader.py:184-206 | a holder record is at least 16 bytes, and the id counter is its first u32 |
| SaveLoader.VecRoundTrip | save_loader.py:191-194 | a `vec_as_bytes` field reads back as its list, leaving what follows |
| SaveLoader.EntityHolderRoundTrip | save_loader.py:184-206 | an id counter followed by three `vec_as_bytes` lists reads back as the holder they encode |
| SaveLoader.ParseSave | save_loader.py:221-226 | a save shorter than 32 bytes fails |
| SaveLoader.SaveRoundTrip | save_loader.py:221-226 | two padded records that parse as a map and as a holder read back as the save |
| Game.NewGameState | src/game_state.rs:43-50 | tick 0, an empty queue and an empty holder |
| Game.DispatchEvent | src/game_state.rs:85-87 | the event is appended to the end of the queue and nothing else changes |
| Game.ApplyEvent | src/game_state.rs:60-81 | `OrderUnits` and `InsertUnit` touch only the entity holder, `SetMapPoint` only the map; no event changes the tick or the queue |
| Game.InsertUnitIgnoresKind | src/game_state.rs:68-72 | the unit type of an inserted unit has no effect, as in the source; the team has none either because it is dropped with the two-argument `add_new_entity` (see the note on revisions above) |
| Game.ApplyEventIgnoresLog | src/game_state.rs:60-81 | applying an event neither reads nor changes the queue |
| Game.ApplyInOrder | src/game_state.rs:59-82 | applying a list of events changes neither the tick nor the queue |
| Game.ApplyInOrderIgnoresLog | src/game_state.rs:59-82 | applying a list of events does not depend on the queue |
| Game.Reverse | src/game_state.rs:59 | the popping order: element i of the reversal is element \|s\|-1-i |
| Game.DoTick | src/game_state.rs:56-83 | the tick grows by exactly 1 and the queue ends empty; the AI runs once, before any queued event, and the events are then applied newest first |
| Game.LastDispatchedAppliedFirst | src/game_state.rs:56-87 | the event dispatched last is the first applied after the AI |
| Game.QuietTick | src/game_state.rs:56-59 | a tick with an empty queue is just the counter step and the AI |

## Left out

- `Map::new_random` and src/noise.rs: random terrain generation, which is randomness plus float interpolation.
- src/main.rs, src/camera.rs and src/texture_holder.rs: the SDL event loop, rendering and screen projection.
- src/building.rs: trivial accessors; building placement goes through the `add_new_building` hook.
- `f32_as_bytes` and `bin_array_to_float`: a native-endian bit copy of an IEEE float. Float fields are opaque 4-byte blocks (`SaveLoader.F32Bits`).
- File reading and every `pretty_print` in save_loader.py: I/O. `SaveLoader.ParseSave` takes the bytes directly.
- f32 rounding: coordinates, lengths and heights are exact reals.
- `Vector::length` as an actual square root: only the norm properties listed above are assumed.
- `Vector::angle`, `dist_vect`, `is_inside`, `entity_ai`, `order_entities`, `Map::set` and `add_new_building`: their bodies are not part of this model. Each is a parameter.
- Geometry.Trunc: Rust `as i32` saturates at -2^31 and 2^31 - 1 and sends NaN to 0; the model truncates without bounds, so coordinates beyond the `i32` range are not modelled (reals have no NaN).
- Game.DoTick: `tick` is a `u32` in the source; the model does not model its overflow at 2^32.
- EntityHolders.AddNewEntity: `id_counter` is a `u32` in the source; the model does not model its overflow, so ids stay distinct for ever.
- GridMap.SetWater: an index outside the map data makes the source panic, and the `u32` arithmetic of `x + y*width` could overflow; the model requires the index to be inside the data.
- GridMap.SetGrass: same requirement as SetWater, for the same reason.
- GridMap.SetAt: same requirement as SetWater, for the same reason.
- BinaryHelpers.AsPaddedBinary: a payload longer than 2^32 - 1 bytes gets a wrapped length prefix (the `as u32` cast), which the model writes out. The round-trip lemmas require payloads below 2^32.
- SaveLoader.ParseUnit: the contract fixes the leading fields and the minimum length. The path, enemy point and task have their own contracts (`ParsePath`, `ParseEnemyPoint`, `PopPaddedDataHandler`).
- SaveLoader.ParseUnitTail: states only the minimum length; the parts it reads have their own contracts (`ParsePath`, `ParseEnemyPoint`, `PopPaddedDataHandler`, `ExpectEmpty`).
- SaveLoader.ParseEntityHolder: the contract gives only the minimum length and the id counter. Its full behaviour is stated by `EntityHolderRoundTrip`.
- SaveLoader.ParseSave: the contract gives only the minimum length. Its behaviour on well-formed saves is stated by `SaveRoundTrip`.
- `EntityHolder::get_entity_refs` and the accessors of `GameState` and `Projectile`: plain field reads.
