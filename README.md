# CARLA mesh builder and lane invasion sensor, in Dafny

This project models two pieces of CARLA's C++ client library and proves properties of the model.

**`carla::geom::Mesh`** (`mesh.dfy`, module `Geom`) is a mesh builder with five lists: vertices, normals, UVs, indexes and materials.
- The `Add*` methods append to these lists.
- Triangle strips and triangle fans turn a run of new vertices into index triples. Indexes are 1-based vertex positions.
- Materials follow an open/close protocol. A material is `name, index_start, index_end`, and `index_end == 0` means it is still open.
- `IsValid` checks the mesh, and `GenerateOBJ` writes it as Wavefront OBJ text.

The model has these parts:
- `class Mesh` has `seq` fields, and its methods append to them.
- Each method's contract gives the new value of every field, either directly or as a function of the old values: `StripIndexes`, `FanIndexes`, `EndedMaterials`, `AddedMaterials`, `ObjText`.
- Lemmas state what those functions mean:
  - the number of triples and the first triple
  - winding that alternates along a strip
  - fan triples of the form `(V0+1, i, i+1)`
  - indexes that point only at the vertices just added
  - material invariants kept by `AddMaterial` and `EndMaterial`
  - the face section writing each triple in order, with `usemtl` before the triple where a material starts
- `GenerateOBJ` walks the lists with the source's loops, and each loop is proved equal to the text function.
- `decimal.dfy` (module `Decimal`) writes an index as decimal text. It proves that reading this text back gives the same number.

**The lane invasion sensor** (`lane_invasion_sensor.dfy`, module `Client`) has two parts.

The first part is `LaneInvasionCallback`, which runs on every world tick:
- It rebuilds the four ground corners of the parent vehicle's bounding box (`MakeBounds`, `Rotate`).
- It does nothing if the parent is missing.
- On the first tick it installs a baseline.
- It gives up if any corner moved less than `10 * FLT_EPSILON`.
- It gives up if the committed bounds are not older than the new ones.
- Otherwise it commits with a compare-exchange retry loop. It then concatenates the lane markings each corner crossed, in corner order, and emits an event if that list is non-empty.

The model has these parts:
- `Tick` is a method on a class that holds the shared slot. It keeps a ghost history of every commit.
- The function `TickStep` states the single-threaded rule. `Tick` equals it when no other thread interferes.
- A schedule of rival commits models the other threads, one possible rival before each compare-exchange.
- Under any such schedule, committed frames strictly increase. Every commit also replaces older bounds, and an event reports the crossings made since the bounds that the commit replaced.

The second part is the sensor's bookkeeping: `Listen`, `Stop` and the destructor manage one registration in the episode's tick-event registry.
- The registry is modelled as a set of ids.
- Id 0 means "none".
- After `Listen`, exactly one registration of the sensor is live. A second `Stop` is a no-op.

Model choices:
- Floating point is modelled as `real`.
- `cos` and `sin` of the yaw in degrees are an input of the callback (`Trig`).
- The road map's `CalculateCrossedLanes` is an input function (`Map.crossedLanes`).
- The OBJ writer's float formatting is the function parameter `num`.

## Model

| member | source | states |
|---|---|---|
| Geom.ValidMesh | LibCarla/source/carla/geom/Mesh.cpp:21-42 | IsValid's checks on the mesh's lists: valid exactly when there is a vertex, the index count is a multiple of 3 (an empty list passes), and the last material, if any, is closed |
| Geom.ObjTextEmptyIffInvalid | LibCarla/source/carla/geom/Mesh.cpp:145-148 | the OBJ text is empty exactly when the mesh fails IsValid's three checks: no vertices, an index count that is not a multiple of 3, or an open last material |
| Geom.OpenMaterialBlocksValidity | LibCarla/source/carla/geom/Mesh.cpp:35-38 | right after AddMaterial the mesh is invalid, because the last material is open; after whole faces and EndMaterial it is valid again |
| Geom.Mesh.AddVertex | LibCarla/source/carla/geom/Mesh.cpp:86-88 | appends the vertex; no other list changes |
| Geom.Mesh.AddVertices | LibCarla/source/carla/geom/Mesh.cpp:91-93 | appends the vertices in order; no other list changes |
| Geom.Mesh.AddNormal | LibCarla/source/carla/geom/Mesh.cpp:96-98 | appends the normal; no other list changes |
| Geom.Mesh.AddIndex | LibCarla/source/carla/geom/Mesh.cpp:101-103 | appends the index; no other list changes |
| Geom.Mesh.AddUV | LibCarla/source/carla/geom/Mesh.cpp:106-108 | appends the UV; no other list changes |
| Geom.Mesh.AddUVs | LibCarla/source/carla/geom/Mesh.cpp:111-113 | appends the UVs in order; no other list changes |
| Geom.Mesh.AddStripTriangle | LibCarla/source/carla/geom/Mesh.cpp:57-65 | one turn of the strip loop appends (i+1, i, i-1) when clockwise and (i-1, i, i+1) otherwise |
| Geom.Mesh.AddTriangleStrip | LibCarla/source/carla/geom/Mesh.cpp:46-68 | appends exactly the given vertices and the strip indexes over them; normals, UVs and materials are unchanged; an empty list changes nothing |
| Geom.StripClockwiseParity | LibCarla/source/carla/geom/Mesh.cpp:54-56 | the winding flag, toggled before each triple from an initial true, is clockwise exactly for the odd-numbered triples |
| Geom.StripIndexesLength | LibCarla/source/carla/geom/Mesh.cpp:52-67 | n >= 3 vertices give 3 * (n - 2) indexes; fewer give none |
| Geom.StripIndexAt | LibCarla/source/carla/geom/Mesh.cpp:52-67 | the j-th strip index in closed form: ascending inside even triples, descending inside odd ones |
| Geom.StripFirstTriangle | LibCarla/source/carla/geom/Mesh.cpp:52-65 | the first strip triple is (V0+1, V0+2, V0+3), where V0 is the old vertex count |
| Geom.StripTriangleAt | LibCarla/source/carla/geom/Mesh.cpp:54-67 | triple k is the one the loop emits at vertex V0+k+2, clockwise exactly when k is odd |
| Geom.StripWindingAlternates | LibCarla/source/carla/geom/Mesh.cpp:54-67 | triples alternate between ascending and descending order, and consecutive triples traverse their shared edge in opposite directions (consistent winding) |
| Geom.StripIndexesWithin | LibCarla/source/carla/geom/Mesh.cpp:52-67 | every strip index lies in [V0+1, V0+n], so it names one of the new vertices |
| Geom.Mesh.AddTriangleFan | LibCarla/source/carla/geom/Mesh.cpp:72-83 | appends exactly the given vertices and the fan indexes over them; normals, UVs and materials are unchanged |
| Geom.FanIndexesLength | LibCarla/source/carla/geom/Mesh.cpp:74-82 | n >= 3 vertices give 3 * (n - 2) indexes; fewer give none |
| Geom.FanIndexAt | LibCarla/source/carla/geom/Mesh.cpp:74-82 | the j-th fan index in closed form: the centre V0+1 first in every triple |
| Geom.FanTriangles | LibCarla/source/carla/geom/Mesh.cpp:74-82 | triple k is (V0+1, V0+k+2, V0+k+3), and consecutive triples share the edge from the centre with consistent winding |
| Geom.FanIndexesWithin | LibCarla/source/carla/geom/Mesh.cpp:74-82 | every fan index lies in [V0+1, V0+n] |
| Geom.PrimitivesKeepIndexesResolved | LibCarla/source/carla/geom/Mesh.cpp:52-82 | after a strip or a fan every index still names an existing vertex, and the index count stays a multiple of 3 |
| Geom.Mesh.EndMaterial | LibCarla/source/carla/geom/Mesh.cpp:131-142 | the materials become EndedMaterials of the old ones at the current index count; no other list changes |
| Geom.EndMaterialEffect | LibCarla/source/carla/geom/Mesh.cpp:131-142 | EndMaterial changes something exactly when the last material is open, does not start at the index count, and the count is non-zero and a multiple of 3; it then sets only that material's end to the count; a second call changes nothing |
| Geom.EndMaterialKeepsWellFormed | LibCarla/source/carla/geom/Mesh.cpp:131-142 | EndMaterial keeps the materials well formed: starts and ends within the index count and on triangle boundaries, ends after starts, and each material before the last either closed no later than the next one's start or open and empty at it |
| Geom.EndMaterialKeepsSeparated | LibCarla/source/carla/geom/Mesh.cpp:131-142 | EndMaterial keeps every material before the last closed and no later than the next one's start |
| Geom.Mesh.AddMaterial | LibCarla/source/carla/geom/Mesh.cpp:116-128 | the materials become AddedMaterials of the old ones at the current index count; no other list changes |
| Geom.AddMaterialEffect | LibCarla/source/carla/geom/Mesh.cpp:116-128 | AddMaterial first closes an open last material; if the index count is not a multiple of 3 it adds nothing, otherwise it appends (name, count, 0) |
| Geom.AddMaterialKeepsWellFormed | LibCarla/source/carla/geom/Mesh.cpp:116-128 | AddMaterial keeps the materials well formed |
| Geom.AppendOpenKeepsWellFormed | LibCarla/source/carla/geom/Mesh.cpp:127 | appending an open material at a triangle boundary keeps well-formed materials well formed |
| Geom.AppendOpenKeepsSeparated | LibCarla/source/carla/geom/Mesh.cpp:127 | appending an open material after closed ones keeps them separated |
| Geom.IndexGrowthKeepsMaterials | LibCarla/source/carla/geom/Mesh.cpp:101-103 | adding indexes keeps the material invariants |
| Geom.AddMaterialTwiceMislabels | LibCarla/source/carla/geom/Mesh.cpp:116-128 | as written, AddMaterial twice with no face in between leaves an empty open material before the last one, and the faces then get the first name |
| Geom.AddedMaterialsIntended | LibCarla/source/carla/geom/Mesh.cpp:116-128 | intended AddMaterial: it agrees with the written one except when the open last material starts at the current index count, which it replaces |
| Geom.AddMaterialIntendedKeepsSeparated | LibCarla/source/carla/geom/Mesh.cpp:116-128 | the intended AddMaterial keeps the materials separated, which the written one does not |
| Geom.AddMaterialTwiceIntended | LibCarla/source/carla/geom/Mesh.cpp:116-128 | with the intended AddMaterial, the same calls give the faces the last material's name |
| Geom.Faces | LibCarla/source/carla/geom/Mesh.cpp:177-194 | the face section has one entry per whole index triple left from the iterator |
| Geom.FacesTriangle | LibCarla/source/carla/geom/Mesh.cpp:189-192 | face line k carries index triple k, in order |
| Geom.FacesMaterialLines | LibCarla/source/carla/geom/Mesh.cpp:180-187 | with separated, closed materials, face k is preceded by `usemtl name` exactly when a material starts at offset 3k, and then it names that material |
| Geom.FacesMaterialFrom | LibCarla/source/carla/geom/Mesh.cpp:180-187 | the same, from any cursor position the loop can reach |
| Geom.SeparatedOrdered | LibCarla/source/carla/geom/Mesh.cpp:180-187 | separated materials are ordered: an earlier one ends no later than a later one starts |
| Geom.CursorStep | LibCarla/source/carla/geom/Mesh.cpp:181-183 | the cursor step passes exactly the materials that have ended |
| Geom.CursorNamesMaterial | LibCarla/source/carla/geom/Mesh.cpp:185-187 | the material under the cursor starts at the offset exactly when some material does |
| Geom.WriteFaceEntriesExtends | LibCarla/source/carla/geom/Mesh.cpp:174-195 | writing faces only appends to the text |
| Geom.FacesStep | LibCarla/source/carla/geom/Mesh.cpp:180-193 | one turn of the face loop writes the first face entry and continues from the next triple |
| Geom.WriteFaceLine | LibCarla/source/carla/geom/Mesh.cpp:189-191 | appends `f a b c` for the three indexes at the iterator |
| Geom.WriteFaces | LibCarla/source/carla/geom/Mesh.cpp:177-194 | the two-iterator loop writes exactly the face entries of the index triples with their material lines |
| Geom.WriteVertices | LibCarla/source/carla/geom/Mesh.cpp:154-156 | appends one `v x y z` line per vertex, in order |
| Geom.WriteUVs | LibCarla/source/carla/geom/Mesh.cpp:159-164 | appends one `vt u v` line per UV, in order |
| Geom.WriteNormals | LibCarla/source/carla/geom/Mesh.cpp:167-172 | appends one `vn x y z` line per normal, in order |
| Geom.Mesh.GenerateOBJ | LibCarla/source/carla/geom/Mesh.cpp:145-195 | returns ObjText: empty for an invalid mesh; otherwise the vertex section, then the UV and normal sections when non-empty, then the face section when there are indexes |
| Decimal.NatToString | LibCarla/source/carla/geom/Mesh.cpp:189-191 | an index is written as non-empty decimal digits without leading zero |
| Decimal.DecimalRoundTrip | LibCarla/source/carla/geom/Mesh.cpp:189-191 | reading an index's decimal text back gives the index |
| Decimal.NatToStringInjective | LibCarla/source/carla/geom/Mesh.cpp:189-191 | distinct indexes are written differently |
| Client.Turn | LibCarla/source/carla/client/LaneInvasionSensor.cpp:34-37 | the turn about the vertical axis keeps the height |
| Client.Rotate | LibCarla/source/carla/client/LaneInvasionSensor.cpp:28-38 | rotating an offset by the yaw keeps its height |
| Client.TurnKeepsLength | LibCarla/source/carla/client/LaneInvasionSensor.cpp:28-38 | for cos^2 + sin^2 = 1, the rotation keeps z and the horizontal length |
| Client.TurnBack | LibCarla/source/carla/client/LaneInvasionSensor.cpp:28-38 | rotating by the opposite angle undoes the rotation |
| Client.TurnOpposite | LibCarla/source/carla/client/LaneInvasionSensor.cpp:28-38 | the rotation commutes with mirroring through the vertical axis |
| Client.MakeBounds | LibCarla/source/carla/client/LaneInvasionSensor.cpp:129-140 | the bounds carry the given frame |
| Client.CornerOffsets | LibCarla/source/carla/client/LaneInvasionSensor.cpp:136-139 | offset 0 is (+x, +y, 0) of the extent; offset 1 mirrors it in x, offset 2 in y and offset 3 in both; every offset lies at height 0 with the extent's squared components |
| Client.MakeBoundsCorner | LibCarla/source/carla/client/LaneInvasionSensor.cpp:133-139 | corner i is the box centre (transform location plus box location) plus offset i rotated by the yaw |
| Client.MakeBoundsSymmetric | LibCarla/source/carla/client/LaneInvasionSensor.cpp:133-139 | all corners are at the centre's height, and corners 0 and 3, and 1 and 2, are opposite through the centre |
| Client.MakeBoundsRadius | LibCarla/source/carla/client/LaneInvasionSensor.cpp:133-139 | every corner is at horizontal distance sqrt(x^2 + y^2) of the extent from the centre |
| Client.HasStillCorner | LibCarla/source/carla/client/LaneInvasionSensor.cpp:98-103 | the corner loop reports true exactly when some corner moved less than the threshold |
| Client.CollectCrossedLanes | LibCarla/source/carla/client/LaneInvasionSensor.cpp:113-117 | the lane loop collects the crossings of corners 0 to 3 |
| Client.CrossedLanesInCornerOrder | LibCarla/source/carla/client/LaneInvasionSensor.cpp:113-117 | the crossed lanes are the map's result for corner 0, then 1, then 2, then 3, each kept in its own order |
| Client.CrossedLanesEmpty | LibCarla/source/carla/client/LaneInvasionSensor.cpp:113-119 | the list is empty exactly when no corner crossed anything |
| Client.OnlyThirdCornerCrosses | LibCarla/source/carla/client/LaneInvasionSensor.cpp:113-117 | if only corner 2 crosses, the list is that corner's result |
| Client.TickStep | LibCarla/source/carla/client/LaneInvasionSensor.cpp:84-126 | the single-threaded tick: an event only comes with a commit, and a commit replaces the old slot value with a different one |
| Client.TickStepSlot | LibCarla/source/carla/client/LaneInvasionSensor.cpp:84-110 | a tick is a no-op exactly when the parent is missing; it installs a baseline exactly when the slot is empty; it changes the slot only on a baseline or a commit, and only to bounds of the snapshot's frame that are newer than the old ones |
| Client.TickStepStale | LibCarla/source/carla/client/LaneInvasionSensor.cpp:106-110 | bounds that are not older than the snapshot stay, and nothing is emitted |
| Client.Still | LibCarla/source/carla/client/LaneInvasionSensor.cpp:98-103 | a corner that did not move at all is still |
| Client.AtRestCornerStill | LibCarla/source/carla/client/LaneInvasionSensor.cpp:98-103 | bounds whose corners did not move have a still corner |
| Client.TickStepStationary | LibCarla/source/carla/client/LaneInvasionSensor.cpp:98-103 | when some corner of the committed bounds moved less than the threshold, the tick keeps the slot, reports nothing and ends stationary |
| Client.ParkedParentStationary | LibCarla/source/carla/client/LaneInvasionSensor.cpp:98-103 | a parent whose corners are where they were at the last commit never reports, whatever the frame |
| Client.TickStepEvent | LibCarla/source/carla/client/LaneInvasionSensor.cpp:98-126 | an event is emitted exactly when the parent is present, bounds are committed, no corner is still, the frame is newer and some corner crossed a marking; it carries the snapshot's frame and elapsed seconds, the parent's transform, the parent and the crossings in corner order |
| Client.FirstTickReportsNothing | LibCarla/source/carla/client/LaneInvasionSensor.cpp:90-95 | the first tick commits the new bounds and emits nothing |
| Client.LateTickIgnored | LibCarla/source/carla/client/LaneInvasionSensor.cpp:106-110 | a tick for frame 3 after one for frame 5 changes nothing and emits nothing |
| Client.CommitsIncrease | LibCarla/source/carla/client/LaneInvasionSensor.cpp:106-110 | along any sequence of ticks, committed frames strictly increase, starting above the slot's frame |
| Client.FramesIncreasingAllPairs | LibCarla/source/carla/client/LaneInvasionSensor.cpp:106-110 | in an increasing history every earlier commit has a smaller frame than every later one |
| Client.NoRecommit | LibCarla/source/carla/client/LaneInvasionSensor.cpp:93 | no bounds value is committed twice, so comparing slot values by value identifies the commit as the pointer compare does |
| Client.LaneInvasionCallback.constructor | LibCarla/source/carla/client/LaneInvasionSensor.cpp:47-56 | the callback keeps the parent id, bounding box and map, and starts with an empty slot |
| Client.LaneInvasionCallback.CompareExchange | LibCarla/source/carla/client/LaneInvasionSensor.cpp:106-110 | succeeds exactly when the slot still holds the expected value, and then stores the new bounds; the value found is returned either way |
| Client.LaneInvasionCallback.Interfere | LibCarla/source/carla/client/LaneInvasionSensor.cpp:106-110 | another thread's tick commits its bounds only over older ones |
| Client.LaneInvasionCallback.Rival | LibCarla/source/carla/client/LaneInvasionSensor.cpp:106-110 | consumes one slot of the rival schedule, applying that rival's commit if it exists and is newer |
| Client.AddedByRivalsTrans | LibCarla/source/carla/client/LaneInvasionSensor.cpp:106-110 | two stretches of history each grown only by rival commits, the second from a later part of the schedule, together are grown only by rival commits |
| Client.LaneInvasionCallback.RivalFrom | LibCarla/source/carla/client/LaneInvasionSensor.cpp:106-110 | consuming one slot of the schedule keeps the rest a suffix of it, and the history still grows only by its values |
| Client.LaneInvasionCallback.CommitNewer | LibCarla/source/carla/client/LaneInvasionSensor.cpp:106-110 | the retry loop commits only over older bounds, and reports the bounds it replaced; without rivals it commits exactly when the loaded bounds are older; apart from its own commit, the history grows only by rival commits; when it gives up, the slot holds bounds at least as new as `next` |
| Client.LaneInvasionCallback.InstallBaseline | LibCarla/source/carla/client/LaneInvasionSensor.cpp:90-95 | on an empty slot, without rivals it always installs `next` as the baseline; if it does not install, it returns the rival's bounds now in the slot, and the history grew only by rival commits |
| Client.LaneInvasionCallback.Advance | LibCarla/source/carla/client/LaneInvasionSensor.cpp:97-117 | ends stationary, stale or committed, and without rivals exactly as TickStep decides from the loaded bounds; with any rivals it ends stationary exactly when some corner of the loaded bounds moved less than the threshold; a stale end leaves the slot at least as new as `next`; a commit installs `next` over strictly older bounds and collects the crossings of corners 0 to 3 since the bounds it replaced |
| Client.LaneInvasionCallback.Tick | LibCarla/source/carla/client/LaneInvasionSensor.cpp:82-127 | without rivals the tick is TickStep; with any rivals the commit history stays increasing, a missing parent changes nothing, a baseline installs the snapshot's bounds, a stationary tick happens only when some corner is still against bounds that were committed, a stationary or stale tick adds only rival commits, a stale tick leaves the slot at least as new as the snapshot's frame (no update is lost), a committing tick adds only rival commits and then its own, and an event is emitted only after a commit, with the crossings since the bounds that commit replaced |
| Client.Listened | LibCarla/source/carla/client/LaneInvasionSensor.cpp:150-183 | Listen keeps the episode's liveness, never lowers the next id, and registers no handler other than the sensor's new one |
| Client.ListenedReplaces | LibCarla/source/carla/client/LaneInvasionSensor.cpp:150-183 | Listen on a non-vehicle parent changes nothing; otherwise the registry loses the previous registration and gains a fresh non-zero one, which the sensor keeps |
| Client.ListenTwiceKeepsOne | LibCarla/source/carla/client/LaneInvasionSensor.cpp:168-182 | after two Listens only the second registration of the sensor is live |
| Client.Stopped | LibCarla/source/carla/client/LaneInvasionSensor.cpp:186-197 | Stop leaves the sensor with id 0, keeps the episode's liveness and next id, and only removes handlers |
| Client.StoppedRemoves | LibCarla/source/carla/client/LaneInvasionSensor.cpp:186-197 | Stop leaves id 0, removes the registration when there was one and the episode is alive, and a second Stop is a no-op |
| Client.Episode.RegisterOnTickEvent | LibCarla/source/carla/client/LaneInvasionSensor.cpp:168 | registers a handler under a new id |
| Client.Episode.RemoveOnTickEvent | LibCarla/source/carla/client/LaneInvasionSensor.cpp:181 | removes the handler with that id |
| Client.LaneInvasionSensor.Listen | LibCarla/source/carla/client/LaneInvasionSensor.cpp:150-183 | the sensor and registry change as Listened says |
| Client.LaneInvasionSensor.Stop | LibCarla/source/carla/client/LaneInvasionSensor.cpp:186-197 | the sensor and registry change as Stopped says |
| Client.LaneInvasionSensor.Destroy | LibCarla/source/carla/client/LaneInvasionSensor.cpp:146-148 | the destructor has the effect of Stop |

## Left out

- Floating point: coordinates, extents and yaw are `real`, so float rounding is not modelled. `FLT_EPSILON` is the exact value 2^-23, and the length test compares squared lengths against the squared threshold.
- `Rotate`'s degree-to-radian conversion, `std::cos` and `std::sin`: their values enter as the `Trig` parameter of the callback, because Dafny has no trigonometry. Client.TurnKeepsLength and Client.MakeBoundsRadius assume cos^2 + sin^2 = 1 of those inputs.
- The float text of the `v`, `vt` and `vn` lines (`std::fixed` formatting) is the input function `num` of GenerateOBJ. Only decimal index text is defined in the model.
- `Bounds::frame` (a `size_t`) is an unbounded `nat`, so a wrap of the frame counter is not modelled; the strict frame ordering relies on it not wrapping.
- `index_type` is an unbounded `nat`. `Mesh.h` is not part of this model, so any index width and its wrap-around are not modelled.
- The `std::cout` diagnostics of `IsValid` and `AddMaterial`, and the error log in `Listen` and the callback closure, are left out. They have no effect on state.
- `DEBUG_ASSERT(vertices.size() >= 3)` in the strip and fan builders is debug-only, so every size is modelled. One or two vertices add vertices but no indexes.
- Threads and `AtomicSharedPtr`:
  - Concurrency is modelled by the `rivals` schedule of other ticks' commits, one possible commit before each compare-exchange. Memory ordering is not modelled.
  - The slot holds bounds by value, and the compare-exchange compares values. Client.NoRecommit shows that no bounds value is committed twice. The value the compare-exchange expects is always a history entry, since Valid keeps the slot equal to the last one. So comparing values agrees with comparing pointers.
  - The shared pointer's lifetime is not modelled.
- The user callback is not modelled: the emitted event is Tick's result. The episode's scheduler dispatch, the lambda that calls Tick and its `try`/`catch` are not modelled either.
- The real episode's tick-callback registration lies outside the modelled files. Its stand-in in the model assumes that it hands out fresh, non-zero ids counting up from 1 (Client.RegistryValid, Client.Episode.RegisterOnTickEvent).
- `GetEpisode().Lock()` throws when the episode is gone. The model treats that Listen as a no-op, since the exception leaves the sensor's state unchanged. `TryLock` in Stop is the registry's `alive` flag.
- The map's `CalculateCrossedLanes` is an input function. The vehicle cast in Listen is the `parentIsVehicle` flag.
- The corner loop returns as soon as any single corner moved less than the threshold, even when the others moved. The model does the same (Client.HasStillCorner, Client.AnyCornerStill).
- Geom.Mesh.AddMaterial models the method as written: Geom.AddMaterialTwiceMislabels holds of it. The corrected Geom.AddedMaterialsIntended stands beside it, with its separation proof.
- `LibCarla/source/carla/client/Walker.cpp` is not part of this model. It only forwards to the simulator.

## Findings

| source | as written | input that shows it | evidently intended | confidence | as-written member | corrected member |
|---|---|---|---|---|---|---|
| LibCarla/source/carla/geom/Mesh.cpp:116-128 | AddMaterial closes an open last material through EndMaterial. EndMaterial refuses when that material starts at the current index count (line 134), so a second AddMaterial at a non-zero index count with no face in between leaves the first one open and appends another. At count 0 the cursor's end check (line 182) steps past the empty material, so nothing goes wrong there. GenerateOBJ's cursor (lines 181-187) stops at the empty open material for good: the following faces get its name, and no later material gets its `usemtl` line. | AddMaterial("a"), 3 indexes, AddMaterial("b"), AddMaterial("c"), 3 indexes, EndMaterial gives materials [a(0,3), b(3,0), c(3,6)]; the second face is written after `usemtl b` | a material that no face uses is replaced by the new one, so the second face is written after `usemtl c` | not executed | Geom.AddMaterialTwiceMislabels | Geom.AddedMaterialsIntended, Geom.AddMaterialIntendedKeepsSeparated, Geom.AddMaterialTwiceIntended |
