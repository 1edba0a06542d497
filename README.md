# Reflection probes, hero probes, material editor and status bar — a Dafny model

This project models four parts of the Firestorm viewer's `indra/newview`
directory and proves properties of them.

**Reflection map manager** (`llreflectionmapmanager.cpp`). The viewer keeps a
list of reflection probes. Each probe may hold one of a
fixed number of cube-map slots in a cube-map array. Each frame the manager:
- drains a kill list;
- appends newly created probes;
- garbage-collects unreferenced probes in one compacting pass, which also
  records each probe's index and distance and finds the oldest probe and the
  closest dynamic probe that still holds a slot;
- sorts the probes by distance;
- renders one face of the probe being updated, or starts a new capture.

Starting a capture allocates a cube slot. It takes the first free slot, or
steals the slot of the last probe that holds one.

Other operations:
- Deleting a probe frees its slot and unlinks it from its neighbours.
- Neighbour discovery links a probe with every probe it intersects.
- `getReflectionMaps` hands out the first slot-holding probes and stamps
  their indices.
- `updateUniforms` packs neighbour runs into a 4096-entry index buffer. Runs
  start at multiples of 4.

The model is a class over these fields. A `Valid()` invariant states:
- the probe lists are distinct;
- the neighbour graph is symmetric and closed;
- slot ownership is a bijection between used slots and slot-holding probes;
- the update cursor is on a slot-holding probe.

Every method keeps `Valid()` and states its new state through specification
functions. Those functions are proved about in modules `ReflectionState`,
`Probes`, `CollectionScan`, `UniformPacking` and `CubeArrays`.

**Hero probe manager** (`llheroprobemanager.cpp`). Mirrors ("hero" objects)
are registered and unregistered. One default probe tracks the nearest hero. It
owns cube index 0 and renders 6/rate faces per frame, where the rate is
clamped to a divisor of 6. The cube array is (re)built with `count + 2` layers
when the hero setting changes.

**Material editor** (`llmaterialeditor.cpp`):
- dirty and reverted flag words of eleven distinct bits;
- the override merge that `applyToSelection` posts for every selected face;
- the four-slot texture upload stage of `saveIfNeeded`, with its counter of
  uploads in flight;
- the names derived from a glTF file: the short and long material names, and
  the per-texture image names with their "already mentions the type" test.

**Status bar** (`llstatusbar.cpp`):
- balance and health updates, with their sound choice and icon flash timer;
- land credit and land in use;
- `can_afford_transaction`;
- the handler of the `balance` command;
- `setupDate`, which splits the day and month name lists on `:`, keeps a
  list only when it is shorter than 2000 characters, and pads to 7 days and
  12 months.

Things that need the renderer, the scene graph or the network are
parameters:
- whether two probes intersect;
- a probe's distance to the camera;
- the chosen hero object;
- the current time;
- whether the viewer is in a state where updates run.

All paths below are under `indra/newview/`.

## Model

| member | source | states |
|---|---|---|
| ReflectionMaps.ReflectionMapManager.constructor | indra/newview/llreflectionmapmanager.cpp:45-51 | every cube slot starts free; there are no probes and no pending lists; no update is in progress |
| ReflectionMaps.ReflectionMapManager.AddProbe | indra/newview/llreflectionmapmanager.cpp:235-251 | a fresh probe, without a slot or neighbours, is stored under a new id. It goes to the create list during a snapshot, otherwise to the probe list. The invariant is kept |
| ReflectionMaps.ReflectionMapManager.Insert | indra/newview/llreflectionmapmanager.cpp:244-250 | the shared insertion step of the two registration paths: the snapshot decides the create list or the probe list, and nothing else changes |
| ReflectionMaps.InsertKeepsInv | indra/newview/llreflectionmapmanager.cpp:235-251 | inserting a slotless, unlinked probe under the next id keeps the manager invariant, in both the snapshot and the normal case |
| ReflectionMaps.ReflectionMapManager.RegisterSpatialGroup | indra/newview/llreflectionmapmanager.cpp:287-311 | a probe is added exactly when the partition and group-size guards pass; otherwise nothing changes |
| ReflectionMaps.ReflectionMapManager.RegisterViewerObject | indra/newview/llreflectionmapmanager.cpp:313-331 | the object's probe is added with the object as owner, by the same snapshot rule |
| ReflectionMaps.ReflectionMapManager.AllocateCubeIndex | indra/newview/llreflectionmapmanager.cpp:334-358 | the result and new state are `Allocation`: the first free slot; or, when none is free, the slot taken from the LAST slot-holding probe beyond the first `probeCount` probes; or -1 |
| ReflectionState.Allocation | indra/newview/llreflectionmapmanager.cpp:334-358 | the allocation keeps the slot count and the set of stored probes |
| ReflectionState.LastHolder | indra/newview/llreflectionmapmanager.cpp:346-355 | the backwards search returns the last index at or after `n` whose probe holds a slot, and None exactly when none does |
| ReflectionState.StealAvailable | indra/newview/llreflectionmapmanager.cpp:334-358 | when no slot is free and the requesting probe is among the first `n` probes without a slot, some later probe holds a slot to steal (pigeonhole) |
| ReflectionState.NoInjection | indra/newview/llreflectionmapmanager.cpp:334-358 | the pigeonhole fact behind StealAvailable: no injection maps `n + 1` values into `n` |
| ReflectionState.OwnerPosition | indra/newview/llreflectionmapmanager.cpp:334-358 | the owners of distinct used slots have distinct ranks among the first `n` probes |
| ReflectionState.TakeSlotKeepsInv | indra/newview/llreflectionmapmanager.cpp:216-229 | giving the allocated slot to the probe that starts a capture keeps the invariant, and the slot lies in range |
| ReflectionState.ClaimFreeSlotKeepsInv | indra/newview/llreflectionmapmanager.cpp:338-344 | claiming a free slot keeps the slot-ownership bijection |
| ReflectionState.StealSlotKeepsInv | indra/newview/llreflectionmapmanager.cpp:346-355 | moving a stolen slot to the new probe keeps the slot-ownership bijection |
| ReflectionMaps.ReflectionMapManager.TakeSlot | indra/newview/llreflectionmapmanager.cpp:219-223 | the capturing probe receives a slot in range, marked as a cube-array slot; the rest of the state is the allocation's, and every stored distance is unchanged |
| ReflectionMaps.ReflectionMapManager.StartCapture | indra/newview/llreflectionmapmanager.cpp:216-229 | starting a capture renders face 0 into a layer of the probe's slot and sets the cursor to the probe and face 1. A probe with a slot keeps it and nothing else changes; a probe without one is allocated one. Probes that carry their camera distance still do |
| ReflectionState.StartCursorKeepsInv | indra/newview/llreflectionmapmanager.cpp:226-228 | setting the update cursor on a slot-holding probe at face 0 keeps the invariant |
| ReflectionMaps.ReflectionMapManager.DeleteProbe | indra/newview/llreflectionmapmanager.cpp:360-384 | the probe leaves the list. Its slot is freed. A cursor on it is reset to face 0. Every neighbour forgets it. The invariant is kept |
| ReflectionMaps.DeleteKeepsInv | indra/newview/llreflectionmapmanager.cpp:360-384 | freeing the slot, detaching the neighbours, erasing the entry and resetting the cursor together keep the invariant |
| ReflectionMaps.DeleteKeepsSlots | indra/newview/llreflectionmapmanager.cpp:365-383 | after the delete, slot ownership is still a bijection, with the freed slot now free |
| ReflectionMaps.ReflectionMapManager.CommitDelete | indra/newview/llreflectionmapmanager.cpp:365-383 | freeing the slot, resetting the cursor and storing the detached probes and the shortened list keep the invariant; each field takes its new value |
| ReflectionState.FreedSlot | indra/newview/llreflectionmapmanager.cpp:365-368 | freeing a slot keeps the size of the free-slot table |
| ReflectionMaps.ReflectionMapManager.FreeSlot | indra/newview/llreflectionmapmanager.cpp:365-368 | a slot index other than -1 becomes free and loses its owner; -1 changes nothing |
| ReflectionMaps.ReflectionMapManager.ReleaseCursor | indra/newview/llreflectionmapmanager.cpp:369-373 | a cursor on the deleted probe becomes none at face 0; any other cursor is unchanged |
| ReflectionState.ResetCursorKeepsInv | indra/newview/llreflectionmapmanager.cpp:369-373 | clearing the update cursor keeps the invariant |
| ReflectionMaps.ReflectionMapManager.DetachAll | indra/newview/llreflectionmapmanager.cpp:376-381 | the neighbour-erase loop yields `Detach` over the probe's own neighbour list |
| Probes.DetachGraph | indra/newview/llreflectionmapmanager.cpp:376-381 | after detaching, no remaining probe lists the deleted one, each other neighbour list loses exactly it, and the graph stays symmetric and closed |
| Probes.DetachOnlyLinks | indra/newview/llreflectionmapmanager.cpp:376-381 | detaching changes only neighbour lists |
| ReflectionState.KillStep | indra/newview/llreflectionmapmanager.cpp:131-141 | removing one more kill-list entry equals filtering the probes by a kill list that is one entry longer |
| ReflectionMaps.ReflectionMapManager.KillOne | indra/newview/llreflectionmapmanager.cpp:133-138 | one kill removes the first occurrence of the probe and changes only neighbour lists |
| ReflectionMaps.ReflectionMapManager.DrainKillList | indra/newview/llreflectionmapmanager.cpp:131-141 | the probe list becomes the old list without the killed probes; the kill list is emptied and the invariant kept |
| ReflectionMaps.ReflectionMapManager.AppendCreates | indra/newview/llreflectionmapmanager.cpp:143-149 | the create list is appended to the probe list and emptied |
| ReflectionState.AppendCreatedKeepsInv | indra/newview/llreflectionmapmanager.cpp:143-149 | appending the slotless, unlinked created probes keeps the invariant |
| ReflectionMaps.ReflectionMapManager.UpdateNeighbors | indra/newview/llreflectionmapmanager.cpp:516-549 | the probe's neighbours become exactly the probes it intersects, in list order. Every other probe lists it exactly when the two intersect. Nothing but neighbour lists changes |
| ReflectionMaps.RelinkKeepsInv | indra/newview/llreflectionmapmanager.cpp:516-549 | clearing and re-linking a probe keeps the invariant and yields that neighbour relation |
| ReflectionMaps.LinkAll | indra/newview/llreflectionmapmanager.cpp:534-548 | the search loop yields `Link` over all probes |
| Probes.UnlinkGraph | indra/newview/llreflectionmapmanager.cpp:520-532 | clearing leaves the probe with no neighbours, no probe listing it, and the graph symmetric |
| Probes.LinkGraph | indra/newview/llreflectionmapmanager.cpp:534-548 | linking gives the probe the intersecting probes as neighbours, adds it to each of those, and keeps the graph symmetric and closed |
| Probes.AddIsolated | indra/newview/llreflectionmapmanager.cpp:143-149 | an unlinked new probe keeps the neighbour graph well formed |
| ReflectionMaps.ReflectionMapManager.Collect | indra/newview/llreflectionmapmanager.cpp:171-202 | the compacting pass keeps exactly the referenced probes, in order, and stamps each with its index and distance. The oldest probe comes from the first `probeCount` kept probes, or none when an update was in progress. In realtime mode the closest dynamic probe is the first one that is dynamic, has its cube array and still holds a slot (the corrected test listed under Findings) |
| CollectionScan.ScanStep | indra/newview/llreflectionmapmanager.cpp:171-202 | one iteration either erases an unreferenced probe or keeps it and advances; either way the remaining work shrinks by one and the stored probes stay the same |
| CollectionScan.ScanFinal | indra/newview/llreflectionmapmanager.cpp:171-202 | at the end of the trace the probes are the referenced ones, stamped with index and distance; the oldest and dynamic picks are as in Collect |
| CollectionScan.ScanIsCompaction | indra/newview/llreflectionmapmanager.cpp:171-202 | at every point of the scan the state equals the compaction of the prefix seen so far |
| CollectionScan.KeptFresh | indra/newview/llreflectionmapmanager.cpp:181-201 | a probe being kept was not already kept earlier in the pass |
| ReflectionMaps.ReflectionMapManager.CollectDrop | indra/newview/llreflectionmapmanager.cpp:174-179 | erasing an unreferenced probe produces the next scan point and keeps the invariant |
| ReflectionMaps.ReflectionMapManager.CollectKeep | indra/newview/llreflectionmapmanager.cpp:181-201 | keeping a probe stamps its index and distance and updates the oldest and dynamic picks as the next scan point |
| ReflectionState.OldestAt | indra/newview/llreflectionmapmanager.cpp:185-190 | the oldest pick has the least age, and it is the first probe with that age |
| ReflectionState.OldestSnoc | indra/newview/llreflectionmapmanager.cpp:185-190 | extending the scan by one probe replaces the pick only when the new probe is strictly older |
| ReflectionState.OldestOfEqualAges | indra/newview/llreflectionmapmanager.cpp:185-190 | among probes of equal age the first is picked |
| ReflectionMaps.OldestInPrefix | indra/newview/llreflectionmapmanager.cpp:185-190 | a pick exists exactly when the prefix is non-empty, and it lies within the prefix |
| ReflectionMaps.ReflectionMapManager.Scan | indra/newview/llreflectionmapmanager.cpp:165-202 | the list left is exactly the referenced probes of the old list, in order. With an update in progress there is no oldest probe; otherwise the oldest probe is the oldest of the first `probeCount` kept probes, and it exists when the list and the array are not empty. The dynamic pick is the first live dynamic probe in realtime mode and none otherwise, and it holds a slot of the array. Every kept probe is stored with its camera distance `distanceOf` |
| ReflectionMaps.ReflectionMapManager.SortProbes | indra/newview/llreflectionmapmanager.cpp:232 | the probes become a permutation of themselves ordered by stored distance; when every probe carries its camera distance `distanceOf`, they are ordered by camera distance and still carry it |
| ReflectionState.PermuteKeepsInv | indra/newview/llreflectionmapmanager.cpp:232 | reordering the probe list keeps the invariant |
| ReflectionState.InvReindex | indra/newview/llreflectionmapmanager.cpp:181-201 | stamping a probe's index and distance keeps the invariant |
| ReflectionState.SettledLinks | indra/newview/llreflectionmapmanager.cpp:171-202 | changes that touch only links, index and distance leave the slot-related part of each probe unchanged |
| ReflectionState.StealExampleInv | indra/newview/llreflectionmapmanager.cpp:334-358 | a one-slot state, with a static probe first and a dynamic slot holder second, keeps the invariant |
| ReflectionState.StealExampleAllocation | indra/newview/llreflectionmapmanager.cpp:346-355 | in that state the array is full, so the static probe's allocation steals the slot of the dynamic probe |
| ReflectionState.StolenSlotStaysRealtimePick | indra/newview/llreflectionmapmanager.cpp:192-197 | after the steal the state keeps the invariant and the dynamic probe has no slot, yet the real-time test as written picks it in either list order, so its faces would go below the array; the corrected test picks nothing |
| ReflectionState.StolenPicks | indra/newview/llreflectionmapmanager.cpp:192-197 | a dynamic probe with its cube array but no slot passes the written test and fails the corrected one |
| ReflectionMaps.ReflectionMapManager.DoProbeUpdate | indra/newview/llreflectionmapmanager.cpp:387-400 | the cursor's face is rendered into the layer of the cursor probe's slot, inside the array. Before the sixth face the cursor moves to the next face and the store is unchanged; after it the probe is unlinked and relinked with the probes it intersects and the cursor becomes `(none, 0)`. Only neighbour lists change |
| ReflectionMaps.ReflectionMapManager.Advance | indra/newview/llreflectionmapmanager.cpp:165-169 | one face is rendered exactly when an update is in progress: the cursor's face, into the layer of its probe's slot. With no update nothing changes. The cursor then moves on as in `doProbeUpdate`, and only neighbour lists change |
| ReflectionMaps.ReflectionMapManager.RenderRealtime | indra/newview/llreflectionmapmanager.cpp:204-213 | realtime mode renders the six faces of the dynamic probe in order, each into a layer of that probe's slot inside the array |
| ReflectionMaps.ReflectionMapManager.UpdateProbeFace | indra/newview/llreflectionmapmanager.cpp:402-498 | the capture names the probe and the face, and its target layer is `cubeIndex * 6 + face`. For a slot in the array the layer is in range and gives back the slot and the face; for a probe without a slot (-1) it is below the array |
| ReflectionMaps.ReflectionMapManager.Begin | indra/newview/llreflectionmapmanager.cpp:204-229 | the real-time probe's six faces are rendered first, in order. Then, when no update was in progress and there is an oldest probe, a capture of it starts at face 0 and the cursor moves to face 1; otherwise the cursor is left as it was. Every rendered layer lies in the array, and probes that carry their camera distance still do |
| ReflectionMaps.ReflectionMapManager.Capture | indra/newview/llreflectionmapmanager.cpp:165-229 | the list left is exactly the probes of the old list still referenced at the start of the frame. With no update in progress the cursor ends on the oldest of the first `probeCount` of them and the last rendered face is its face 0. With an update in progress the first rendered face is the cursor's, and the cursor stays or, after the sixth face, becomes none. Every rendered layer lies in the array. Every kept probe is stored with its camera distance; the pending lists are untouched |
| ReflectionMaps.ReflectionMapManager.Tick | indra/newview/llreflectionmapmanager.cpp:131-229 | one frame empties both pending lists. The list left is `Collected`: the old list without the killed probes, then the created probes, of which the referenced ones stay, in that order. With no update in progress the cursor ends on the oldest of the first `probeCount` of them, whose face 0 is the last one rendered. Every rendered layer lies in the array, and every probe left is stored with its camera distance `distanceOf` |
| ReflectionMaps.ReflectionMapManager.Frame | indra/newview/llreflectionmapmanager.cpp:131-232 | as Tick, with the list holding the probes of `Collected` as a multiset, each stored with its camera distance `distanceOf`, and sorted by that camera distance |
| ReflectionMaps.ReflectionMapManager.Update | indra/newview/llreflectionmapmanager.cpp:68-233 | when inactive nothing changes and nothing is rendered. When active: the texture exists; the mip chain is built once; the pending lists are empty; the list is a permutation of `Collected`, each probe stored with its camera distance `distanceOf` and the list sorted by it; with no update in progress the cursor is on the oldest of the first `probeCount` probes of `Collected` and its face 0 was rendered; every rendered face is below 6 and every layer lies in `[0, 6 * probeCount)` |
| ReflectionState.SortedByCamera | indra/newview/llreflectionmapmanager.cpp:232 | a list sorted by the stored distances whose probes all carry their camera distance is sorted by camera distance |
| ReflectionState.MeasuredKept | indra/newview/llreflectionmapmanager.cpp:199-201 | dropping or reordering probes, or rewriting anything but distances, keeps every remaining probe at its camera distance |
| ReflectionState.AllocationKeepsDistances | indra/newview/llreflectionmapmanager.cpp:346-355 | taking a slot from its holder changes no stored distance |
| ReflectionMaps.ReflectionMapManager.ApplyPending | indra/newview/llreflectionmapmanager.cpp:131-149 | the kill list is applied to the list and the created probes are appended after the survivors; both pending lists end empty; only neighbour lists change in the store, and a free cursor stays free |
| ReflectionMaps.ReflectionMapManager.FinishCapture | indra/newview/llreflectionmapmanager.cpp:395-399 | after the sixth face the probe's neighbours are rebuilt, the cursor becomes `(none, 0)` and only neighbour lists change |
| ReflectionMaps.ReflectionMapManager.ScanThenBegin | indra/newview/llreflectionmapmanager.cpp:171-229 | the list left is the referenced probes of the old list. With no update in progress the cursor ends on the oldest of the first `probeCount` of them, whose face 0 is rendered last; otherwise the cursor stays or becomes none. Every kept probe is stored with its camera distance |
| ReflectionMaps.ReflectionMapManager.CaptureIfAny | indra/newview/llreflectionmapmanager.cpp:151-229 | the capture step runs only on a non-empty list; it keeps and picks as `Capture` does, leaves the pending lists alone, and every probe left carries its camera distance |
| ReflectionMaps.SurvivorsAgree | indra/newview/llreflectionmapmanager.cpp:131-202 | on a store that differs from the frame's first store only in neighbour lists, the scan of the list the pending passes leave keeps `Collected` and picks the same oldest probe |
| ReflectionState.CollectedMembers | indra/newview/llreflectionmapmanager.cpp:131-202 | a probe survives a frame exactly when it was listed and not killed, or was created, and it is still referenced |
| ReflectionState.OldestAtAgrees | indra/newview/llreflectionmapmanager.cpp:185-189 | the oldest pick depends only on the ages of the probes it looks at |
| ReflectionState.LinksKeepScanInputs | indra/newview/llreflectionmapmanager.cpp:171-189 | stores that differ only in neighbour lists agree on which probes are referenced and on their ages |
| CubeArrays.MipCount | indra/newview/llreflectionmapmanager.cpp:108-119 | the mip count is the k with 4^k <= 2·res² < 4^(k+1) |
| CubeArrays.MipCountOfPowerOfTwo | indra/newview/llreflectionmapmanager.cpp:108-119 | a power-of-two resolution 2^n has n mips |
| CubeArrays.Log4FloorUnique | indra/newview/llreflectionmapmanager.cpp:108-119 | the integer base-4 logarithm is the only k satisfying its bounds |
| CubeArrays.BuildMipChain | indra/newview/llreflectionmapmanager.cpp:108-119 | the chain has MipCount entries, and entry i is the resolution halved i times |
| CubeArrays.MipCopyMatchesLevel | indra/newview/llreflectionmapmanager.cpp:481-488 | the mip-copy loop's level index names the chain entry whose resolution it copies |
| CubeArrays.CubeLayerInjective | indra/newview/llreflectionmapmanager.cpp:486 | the layer `cube * 6 + face` determines cube and face, and stays below `6 * n` for cubes below n |
| ReflectionMaps.ReflectionMapManager.GetReflectionMaps | indra/newview/llreflectionmapmanager.cpp:253-285 | the output holds the first slot-holding probes in list order, up to the array length, followed by a null; each gets its position as index and the bind time; every other probe gets index -1. The entries before the first null are exactly the handed-out probes |
| ReflectionMaps.WriteMaps | indra/newview/llreflectionmapmanager.cpp:259-284 | the selected probes fill the array's prefix and a null follows them; entries after the null are untouched; the entries before the first null are exactly the selected probes |
| ReflectionMaps.BindMaps | indra/newview/llreflectionmapmanager.cpp:259-278 | the walk and the clearing loop together yield `BindAll`, and the output is `Selected` |
| ReflectionMaps.WalkOutput | indra/newview/llreflectionmapmanager.cpp:259-272 | when the walk stops, the output is the first slot-holding probes up to the capacity |
| ReflectionMaps.WalkStore | indra/newview/llreflectionmapmanager.cpp:259-278 | clearing after the walk's stopping point gives the `BindAll` store |
| ReflectionState.BindAllIndex | indra/newview/llreflectionmapmanager.cpp:259-278 | after binding, each probe's index is -1 or its position among slot holders below the capacity, and every such holder gets its position |
| ReflectionState.BindAllFrame | indra/newview/llreflectionmapmanager.cpp:259-278 | binding changes only index and bind time |
| ReflectionState.RankIsFilter | indra/newview/llreflectionmapmanager.cpp:259-272 | the walk's running count is the number of slot holders before the probe |
| ReflectionState.HolderAtRank | indra/newview/llreflectionmapmanager.cpp:259-272 | a slot holder sits at its rank among the slot holders |
| ReflectionMaps.HandedOut | indra/newview/llreflectionmapmanager.cpp:253-285 | every probe handed out (`Uploadable`) has its output position as index, a slot in range, and neighbours that are all stored |
| ReflectionMaps.LeadingIsSelected | indra/newview/llreflectionmapmanager.cpp:580-585 | the uniform packer's stop-at-null walk over the output recovers exactly the selected probes |
| ReflectionMaps.ReflectionMapManager.UpdateUniforms | indra/newview/llreflectionmapmanager.cpp:551-671 | one row per handed-out probe, each with its index and a slot in range. Row c starts at the packing cursor of the earlier rows. The index buffer holds the row's sampled neighbour indices there |
| UniformPacking.Placed | indra/newview/llreflectionmapmanager.cpp:614-634 | a run takes all the neighbours it wants, or stops at the 4096-entry limit |
| UniformPacking.Advance | indra/newview/llreflectionmapmanager.cpp:636-651 | after a non-empty run the cursor moves to the next multiple of 4 at or past the run's end; an empty run leaves it |
| UniformPacking.Cursor | indra/newview/llreflectionmapmanager.cpp:614-651 | the packing cursor stays a multiple of 4 within the buffer |
| UniformPacking.CursorStep | indra/newview/llreflectionmapmanager.cpp:614-651 | one more row moves the cursor past that row's run |
| UniformPacking.RunsDisjoint | indra/newview/llreflectionmapmanager.cpp:614-651 | the run of an earlier row ends before any later row starts |
| UniformPacking.CursorMonotone | indra/newview/llreflectionmapmanager.cpp:614-651 | the cursor never moves back |
| UniformPacking.SampledIndices | indra/newview/llreflectionmapmanager.cpp:614-634 | neighbours with index -1 are skipped; no -1 is written |
| UniformPacking.SampledSplit | indra/newview/llreflectionmapmanager.cpp:614-634 | sampling a split neighbour list is sampling its parts |
| UniformPacking.RowLayout | indra/newview/llreflectionmapmanager.cpp:600-651 | a row's header is -1 exactly for an empty run; otherwise it is the start divided by 4. The run fits the buffer and takes all it wants unless it reaches the limit. The priority is negated for box probes |
| UniformPacking.Leading | indra/newview/llreflectionmapmanager.cpp:580-585 | the walk over the map list stops at the first null |
| UniformPacking.PackRun | indra/newview/llreflectionmapmanager.cpp:614-651 | one row is packed at the given start; earlier buffer entries are untouched |
| UniformPacking.PackNeighbors | indra/newview/llreflectionmapmanager.cpp:577-657 | `Packed`: one row per probe, every row is the layout at its cursor, and the buffer holds each row's sampled neighbours there |
| UniformPacking.PackedLayout | indra/newview/llreflectionmapmanager.cpp:577-657 | rows and buffer built with the loop's run starts are `Packed`: the starts are the cursor layout |
| ReflectionMaps.ReflectionMapManager.Rebuild | indra/newview/llreflectionmapmanager.cpp:500-506 | every probe's completion time is reset, and nothing else changes |
| ReflectionState.RebuildRestartsScan | indra/newview/llreflectionmapmanager.cpp:500-506 | after a rebuild all ages are equal, so the next oldest pick is the first probe |
| ReflectionMaps.RebuildAll | indra/newview/llreflectionmapmanager.cpp:500-506 | the loop yields `Rebuilt` |
| ReflectionMaps.ReflectionMapManager.Shift | indra/newview/llreflectionmapmanager.cpp:508-514 | every probe's origin moves by the offset |
| ReflectionState.ShiftRoundTrip | indra/newview/llreflectionmapmanager.cpp:508-514 | shifting by an offset and then by its negation restores the store, with origins as exact reals |
| ReflectionMaps.ShiftAll | indra/newview/llreflectionmapmanager.cpp:508-514 | the loop yields `Shifted` |
| HeroProbes.HeroProbeManager.constructor | indra/newview/llheroprobemanager.cpp:63-65 | no heroes, no probes, no texture, no reset pending |
| HeroProbes.HeroProbeManager.RegisterViewerObject | indra/newview/llheroprobemanager.cpp:664-676 | an object is appended exactly when it is not yet registered |
| HeroProbes.HeroProbeManager.UnregisterViewerObject | indra/newview/llheroprobemanager.cpp:678-697 | the object is removed. If it was the nearest hero, the nearest hero is cleared and the default probe drops it. Otherwise the nearest hero and the default probe are unchanged |
| HeroProbes.HeroProbeManager.Reset | indra/newview/llheroprobemanager.cpp:659-662 | a reset is requested |
| HeroProbes.HeroProbeManager.Cleanup | indra/newview/llheroprobemanager.cpp:631-643 | the vertex buffer, the mip chain, the texture and all probes are released |
| HeroProbes.HeroProbeManager.InitReflectionMaps | indra/newview/llheroprobemanager.cpp:565-629 | rebuilds exactly when mirrors are on and the texture is missing, the count changed or a reset is pending. A rebuild gives `count + 2` layers and a default probe at the front with cube and probe index 0. A reset first cleans up, leaving two probe entries and no mip chain. The vertex buffer always exists afterwards |
| HeroProbes.HeroProbeManager.Allocate | indra/newview/llheroprobemanager.cpp:587-607 | the texture gets `count + 2` layers; the default probe is created when missing and re-pushed, keeping cube and probe index 0 |
| HeroProbes.HeroProbeManager.Update | indra/newview/llheroprobemanager.cpp:76-239 | inactive changes nothing. Active leaves a default probe at the front. The mip chain is built on first use and after a reset, and is otherwise kept. The nearest hero becomes the chosen object, or none when no hero is registered |
| HeroProbes.EffectiveRate | indra/newview/llheroprobemanager.cpp:264-274 | the clamped rate divides 6: settings below 1 give 1, 1 to 3 are kept, above 3 give 6 |
| HeroProbes.ScheduleMembers | indra/newview/llheroprobemanager.cpp:283-291 | a frame renders exactly the faces congruent to the frame modulo the rate, in ascending order |
| HeroProbes.FacesBelowMembers | indra/newview/llheroprobemanager.cpp:283-291 | the faces below k that a frame renders are those below k matching the rate, in ascending order |
| HeroProbes.ScheduleCount | indra/newview/llheroprobemanager.cpp:283-291 | each frame renders 6/rate faces |
| HeroProbes.OncePerCycle | indra/newview/llheroprobemanager.cpp:283-291 | within any `rate` consecutive frames each face is rendered exactly once |
| HeroProbes.WindowHit | indra/newview/llheroprobemanager.cpp:283-291 | every window of `rate` frames contains a frame matching a given face |
| HeroProbes.WindowUnique | indra/newview/llheroprobemanager.cpp:283-291 | two frames of one window matching the same face are the same frame |
| HeroProbes.RenderFaces | indra/newview/llheroprobemanager.cpp:283-291 | the loop renders the frame's schedule |
| HeroProbes.HeroProbeManager.RenderProbes | indra/newview/llheroprobemanager.cpp:241-302 | faces are rendered only when there is a nearest hero and the probe is present and not occluded, and they are the schedule for the clamped rate. The default probe is then pointed at the nearest hero |
| HeroProbes.HeroProbeManager.SourceLayer | indra/newview/llheroprobemanager.cpp:321-324 | the source index is `count + 1`, its layer `sourceIdx * 6 + face` is in range and is never a layer of the default probe's cube 0 |
| MaterialEditing.FlagsAreDistinctBits | indra/newview/llmaterialeditor.cpp:75-89 | the eleven dirty flags are the bits 1<<0 … 1<<10, pairwise disjoint and inside 0x7FF |
| MaterialEditing.OrFlag | indra/newview/llmaterialeditor.cpp:852-854 | or-ing a flag sets exactly that field's bit beside those already set |
| MaterialEditing.NoneSet | indra/newview/llmaterialeditor.cpp:807-810 | a cleared flag word marks no field |
| MaterialEditing.MaterialEditor.constructor | indra/newview/llmaterialeditor.cpp:807-810 | an editor starts with no unsaved or reverted fields, no uploads in flight, no failure, and enabled |
| MaterialEditing.MaterialEditor.MarkChangesUnsaved | indra/newview/llmaterialeditor.cpp:852-854 | the flag is or-ed into the unsaved word |
| MaterialEditing.MaterialEditor.ResetUnsavedChanges | indra/newview/llmaterialeditor.cpp:807-810 | both flag words are cleared |
| MaterialEditing.MaterialEditor.OnCancelCtrl | indra/newview/llmaterialeditor.cpp:1119-1123 | the field's reverted flag is set and the override applied. A post happens exactly when it is an override editor, the capability exists and some flag is set; posting clears both words |
| MaterialEditing.MaterialEditor.OnSelectCtrl | indra/newview/llmaterialeditor.cpp:1135-1137 | the field's unsaved flag is set and the override applied, under the same posting rule |
| MaterialEditing.MaterialEditor.ApplyToSelection | indra/newview/llmaterialeditor.cpp:3168-3205 | an override is posted exactly when it is an override editor, the capability exists and some field is unsaved or reverted; posting clears both flag words |
| MaterialEditing.MergeOverride | indra/newview/llmaterialeditor.cpp:2999-3137 | the merged override has one value per field |
| MaterialEditing.MergeRule | indra/newview/llmaterialeditor.cpp:2999-3137 | a changed field takes the editor's value. Otherwise a reverted field takes the saved value when one exists. Otherwise the field keeps the material's value |
| MaterialEditing.MergeNoFlags | indra/newview/llmaterialeditor.cpp:2999-3137 | with no flags set the merge returns the material unchanged |
| MaterialEditing.MergeIdempotent | indra/newview/llmaterialeditor.cpp:2999-3137 | merging twice with the same inputs equals merging once |
| MaterialEditing.MergeWithoutSaved | indra/newview/llmaterialeditor.cpp:2983-3137 | without saved values, reverted flags have no effect |
| MaterialEditing.RevertSource | indra/newview/llmaterialeditor.cpp:2983-2997 | there is no revert source exactly when the face has no saved entry. A saved material is used when present, a blank one otherwise |
| MaterialEditing.VisitedCount | indra/newview/llmaterialeditor.cpp:2940 | the functor visits no more faces than the object has texture entries or faces |
| MaterialEditing.ApplyToNode | indra/newview/llmaterialeditor.cpp:2933-3147 | a node is handled exactly when it can be modified and has a volume. It then queues the merged override for every visited selected face with a base material, in face order. It succeeds exactly when the target face is among those |
| MaterialEditing.QueuedBelowSound | indra/newview/llmaterialeditor.cpp:2948-3144 | every queued entry is a visited selected face with a base material, carries that face's merge, and entries are in increasing face order |
| MaterialEditing.QueuedBelowComplete | indra/newview/llmaterialeditor.cpp:2948-3144 | every such face is queued |
| MaterialEditing.MaterialEditor.SaveTextures | indra/newview/llmaterialeditor.cpp:3590-3777 | the corrected stage (see Findings): the failure flag is cleared. Uploads start for every pending slot with image data, in the order base, normal, metallic, emissive, named from the material. The counter rises by the number of uploads started, not by the number of pending slots. When none starts, the four slots are cleared |
| MaterialEditing.StartUploads | indra/newview/llmaterialeditor.cpp:3596-3763 | the four slot blocks produce `UploadsBelow` over all slots |
| MaterialEditing.UploadsBelowSound | indra/newview/llmaterialeditor.cpp:3596-3763 | every request is for a pending slot with data, with that slot's upload id and derived name, in slot order |
| MaterialEditing.UploadsBelowComplete | indra/newview/llmaterialeditor.cpp:3596-3763 | every pending slot with data gets a request |
| MaterialEditing.UploadsBelowCount | indra/newview/llmaterialeditor.cpp:3596-3763 | no more uploads start than there are pending slots |
| MaterialEditing.SlotsOf | indra/newview/llmaterialeditor.cpp:3604-3636 | the awaited slots are exactly the slots of the started requests |
| MaterialEditing.Cleared | indra/newview/llmaterialeditor.cpp:3779-3795 | a cleared slot is not pending and has no image or fetched data; its current id and name stay |
| MaterialEditing.ClearedAll | indra/newview/llmaterialeditor.cpp:3779-3795 | each slot is cleared and the number of slots is kept |
| MaterialEditing.MaterialEditor.ClearTextures | indra/newview/llmaterialeditor.cpp:3779-3795 | every slot is cleared |
| MaterialEditing.Uploaded | indra/newview/llmaterialeditor.cpp:3609-3628 | a successful upload makes the new asset the slot's current id and ends its pending state |
| MaterialEditing.MaterialEditor.TakeUpload | indra/newview/llmaterialeditor.cpp:3609-3628 | the callback's bookkeeping: the slot takes the new asset, leaves the awaited set, and the counter drops by one |
| MaterialEditing.MaterialEditor.OnTextureUploaded | indra/newview/llmaterialeditor.cpp:3604-3636 | the slot takes the new asset and ends its pending state. The slot leaves the awaited set and the counter drops by one. After an earlier failure the save is not retried, and the editor is re-enabled exactly when the counter reaches zero. Otherwise, while other uploads are in flight, it keeps waiting with the editor unchanged. At zero the save is retried: it starts the remaining uploads and disables the editor, or clears the slots and goes on to the material save |
| MaterialEditing.MaterialEditor.SetFailedToUploadTexture | indra/newview/llmaterialeditor.cpp:3580-3588 | the failure flag is set and the counter lowered; the editor is re-enabled when it reaches zero |
| MaterialEditing.MaterialEditor.SaveIfNeeded | indra/newview/llmaterialeditor.cpp:1364-1379 | with uploads in flight nothing changes and it waits. Otherwise the corrected texture stage runs. When uploads start, the slots are kept and the editor is disabled. When none starts, the slots are cleared and it goes on to the material save exactly then |
| MaterialEditing.ToLower | indra/newview/llmaterialeditor.cpp:2678-2688 | lowering leaves no upper-case letter and does not turn a non-space into a space |
| MaterialEditing.SquashAppend | indra/newview/llmaterialeditor.cpp:2678-2688 | lowering and removing spaces distributes over concatenation |
| MaterialEditing.SquashIdempotent | indra/newview/llmaterialeditor.cpp:2678-2688 | lowering and removing spaces twice equals doing it once |
| MaterialEditing.ContainsInMiddle | indra/newview/llmaterialeditor.cpp:2686-2688 | a string contains anything placed in its middle |
| MaterialEditing.UnifyDelimiters | indra/newview/llmaterialeditor.cpp:2659-2660 | both kinds of slash become the platform delimiter, and the length is kept |
| MaterialEditing.LastSegment | indra/newview/llmaterialeditor.cpp:2661-2662 | the base name is the delimiter-free suffix of the path |
| MaterialEditing.StripExtension | indra/newview/llmaterialeditor.cpp:2661-2662 | removing the extension leaves a prefix |
| MaterialEditing.StripExtensionAt | indra/newview/llmaterialeditor.cpp:2661-2662 | the extension search leaves a prefix no longer than its start |
| MaterialEditing.Shorten | indra/newview/llmaterialeditor.cpp:2664-2669 | names over 64 characters are cut to a prefix; others are unchanged |
| MaterialEditing.TextureStem | indra/newview/llmaterialeditor.cpp:2659-2669 | the stem is at most 64 characters |
| MaterialEditing.ImageNameShape | indra/newview/llmaterialeditor.cpp:2690-2731 | the name starts with the material's short name. It is `short: stem` when the stem mentions the type, ends in ` (type)` otherwise, and is `short (type)` for an empty stem |
| MaterialEditing.SquashedInMiddle | indra/newview/llmaterialeditor.cpp:2678-2688 | a name built around the type mentions the type after squashing |
| MaterialEditing.ImageNameMentionsType | indra/newview/llmaterialeditor.cpp:2678-2731 | every generated image name mentions its texture type |
| MaterialEditing.MaterialLabel | indra/newview/llmaterialeditor.cpp:2754-2774 | the caption is the material's own name when set, else the first scene's name, else empty |
| MaterialEditing.LongNameReadsBack | indra/newview/llmaterialeditor.cpp:2782-2799 | the long name is the base name exactly when the caption is empty; otherwise it is `base (caption)`, from which the caption reads back |
| MaterialEditing.MaterialNamesShape | indra/newview/llmaterialeditor.cpp:2748-2799 | the short name is the file's base name, and the long name carries the material label |
| MaterialEditing.TextureNameMentionsType | indra/newview/llmaterialeditor.cpp:2815-2857 | outside a listed material a texture's name is kept. Otherwise it is the default type name when the image index is out of range, and otherwise the generated image name. Either way it mentions the type; this is the name before the inventory-name correction |
| MaterialEditing.UploadsBelowMissing | indra/newview/llmaterialeditor.cpp:3537-3542 | a pending slot without image data is counted among the pending slots but starts no upload |
| MaterialEditing.SaveTexturesAsWritten | indra/newview/llmaterialeditor.cpp:3590-3777 | as written, the counter and the returned count rise by the number of pending slots, which is at least the number of uploads started; the failure flag is cleared |
| MaterialEditing.SaveIfNeededAsWritten | indra/newview/llmaterialeditor.cpp:1364-1379 | as written, with uploads in flight it waits and nothing changes |
| MaterialEditing.AsWrittenCounterOutlivesUploads | indra/newview/llmaterialeditor.cpp:1364-1379 | as written, from a zero counter, a pending slot without image data disables the editor and leaves the counter above the number of uploads started, so the callbacks can never bring it back to zero |
| MaterialEditing.CounterRaiseOvercounts | indra/newview/llmaterialeditor.cpp:3537-3542 | as written, one pending base-color slot without data disables the editor with the counter at 1 and no upload started. The next call waits with nothing changed |
| StatusBar.StatusBarState.constructor | indra/newview/llstatusbar.cpp:118-123 | balance 0, health 100, no land, no running timers |
| StatusBar.StatusBarState.SetBalance | indra/newview/llstatusbar.cpp:358-389 | the balance is stored and the sound is `BalanceSound`. The flash timer restarts for 3 seconds exactly when the balance changed. Nothing else changes |
| StatusBar.BalanceSound | indra/newview/llstatusbar.cpp:375-381 | a sound plays exactly when the old balance is non-zero and the change exceeds the threshold: down for a loss, up otherwise |
| StatusBar.UnchangedBalanceIsSilent | indra/newview/llstatusbar.cpp:375-381 | an unchanged balance plays no sound |
| StatusBar.DebitSoundsDown | indra/newview/llstatusbar.cpp:375-381 | a debit beyond the threshold from a non-zero balance sounds down |
| StatusBar.CreditSoundsUp | indra/newview/llstatusbar.cpp:375-381 | a credit beyond the threshold to a non-zero balance sounds up |
| StatusBar.StatusBarState.DebitBalance | indra/newview/llstatusbar.cpp:348-351 | the balance falls by the debit through SetBalance |
| StatusBar.StatusBarState.CreditBalance | indra/newview/llstatusbar.cpp:353-356 | the balance rises by the credit through SetBalance |
| StatusBar.StatusBarState.SetHealth | indra/newview/llstatusbar.cpp:406-435 | the health is stored and the sound is `HealthSound`; the flash timer restarts exactly on a drop; nothing else changes |
| StatusBar.HealthSound | indra/newview/llstatusbar.cpp:411-432 | a sound plays exactly on a drop beyond the threshold with a known avatar; female or male follows the avatar |
| StatusBar.HealthSoundOnlyOnDrop | indra/newview/llstatusbar.cpp:411-432 | no drop beyond the threshold, no sound |
| StatusBar.StatusBarState.SetLandCredit | indra/newview/llstatusbar.cpp:448-460 | the land credit is stored and nothing else changes. The user is tiered afterwards exactly when the credit is positive, and the land left is the new credit minus the land in use |
| StatusBar.StatusBarState.SetLandCommitted | indra/newview/llstatusbar.cpp:452-475 | the land in use is stored and nothing else changes. Whether the user is tiered is unchanged, and the land left is the credit minus the new land in use |
| StatusBar.CanAffordTransaction | indra/newview/llstatusbar.cpp:561-564 | a free or negative cost is always affordable; without a balance nothing else is |
| StatusBar.AffordableIffDebitNonNegative | indra/newview/llstatusbar.cpp:561-564 | with a balance, a cost is affordable exactly when paying it leaves a non-negative balance |
| StatusBar.AffordableMonotone | indra/newview/llstatusbar.cpp:561-564 | what is affordable stays affordable with a larger balance |
| StatusBar.BalanceHandle | indra/newview/llstatusbar.cpp:574-582 | the handler acts exactly on the single token `request` |
| StatusBar.TokensCount | indra/newview/llstatusbar.cpp:504-540 | splitting on `:` yields one more word than there are separators |
| StatusBar.TokensHaveNoSeparator | indra/newview/llstatusbar.cpp:504-540 | no word contains `:` |
| StatusBar.JoinTokens | indra/newview/llstatusbar.cpp:504-540 | joining the words with `:` gives back the list |
| StatusBar.TokensJoin | indra/newview/llstatusbar.cpp:504-540 | splitting a `:`-joined list of separator-free words gives back the words |
| StatusBar.Tokenize | indra/newview/llstatusbar.cpp:504-516 | the tokenizer loop yields the words of the list |
| StatusBar.AcceptedCount | indra/newview/llstatusbar.cpp:500-540 | a list of 2000 characters or more contributes nothing; a shorter one contributes its words, which join back to it |
| StatusBar.Padded | indra/newview/llstatusbar.cpp:543-552 | padding keeps the names as a prefix and adds empty names up to the required count |
| StatusBar.DateNames.SetupDate | indra/newview/llstatusbar.cpp:493-552 | the accepted day and month words are appended and padded to at least 7 and 12 names |
| StatusBar.SetupDateStoresNames | indra/newview/llstatusbar.cpp:493-552 | on an empty table, seven separator-free day names joined by `:` are stored exactly |

## Left out

- GPU work (render passes, mip draws, texture copies, radiance and irradiance generation, uniform-buffer upload, render targets, debug rendering, occlusion queries, the default-probe touch): there is no renderer in the model. A rendered face is recorded as a `FaceCapture` value.
- Floating-point geometry is supplied as parameters: probe intersection, distance to the camera, spatial-group size, and the hero selection by distance and visibility (`chosen` in HeroProbes.HeroProbeManager.Update).
- ReflectionState.ShiftRoundTrip: origins and offsets are exact reals (`Vec3` over `real` in probes.dfy), so shifting by an offset and back restores every origin. The source adds F32 vectors (`mOrigin.add`, llreflectionmapmanager.cpp:508-514), where the round trip can fail through rounding: 1.0f + 1e8f - 1e8f is 0.
- UniformPacking.RowLayout: an empty run records length 0. The source never writes `refIndex[count][2]` for an empty run (llreflectionmapmanager.cpp:636-644), and the uniform block `rpd` is not initialised (llreflectionmapmanager.cpp:570), so that entry is indeterminate there.
- CubeArrays.MipCount: the float `log2` of the source is replaced by the exact integer bound it computes for the usual resolutions.
- ReflectionMaps.ReflectionMapManager.SortProbes: promises a distance-ordered permutation, not the tie order of `std::sort`.
- ReflectionMaps.ReflectionMapManager.UpdateProbeFace: does not stamp the probe's last-update time. The source relies on `LLReflectionMap::update` (called at llreflectionmapmanager.cpp:408) to set `mLastUpdateTime`, and that file is not part of this model. In the model an age is set only when a probe is created (0.0) and by a rebuild (0.0, llreflectionmapmanager.cpp:504). The oldest-first pick (llreflectionmapmanager.cpp:185-190) is proved for arbitrary ages, but the model never produces distinct ages, so the rotation that captured probes go to the back of the queue is not shown.
- ReflectionMaps.ReflectionMapManager.Tick: states the capture-in-progress case (the first face rendered is the cursor's, and the cursor stays or becomes none after the sixth face) only as far as Capture. Tick, Frame and Update do not state it, because the kill-list pass can delete the cursor probe and clear the cursor (llreflectionmapmanager.cpp:132-139 with 371), and carrying that case through the pass was too costly to prove here.
- Probe counts and resolutions are constructor and method parameters, because the header that defines them is not part of this model. A probe's reference count is a `referenced` flag.
- The startup, teleport, disconnect and logout guards of both `update` functions are reduced to one `active` flag.
- HeroProbes.HeroProbeManager.Update: models the effect of the selection, not the loop that erases dead heroes while iterating.
- HeroProbes.HeroProbeManager.RenderProbes: points the default probe at the nearest hero only when it exists. The source indexes `mProbes[0]` without a check (llheroprobemanager.cpp:299), which the model cannot express for an empty list.
- Material editor UI: widgets, floaters, callbacks on controls, notifications, the upload-cost refresh, local-texture tracking and the `for_override` setter arguments.
- MaterialEditing.LastSegment and MaterialEditing.StripExtension stand in for the platform's `getBaseFileName`.
- `LLInventoryObject::correctInventoryName` is not part of this model. The source applies it to the material names and to the four texture names (llmaterialeditor.cpp:2828, 2837, 2846, 2855). MaterialEditing.TextureNameMentionsType therefore states its property of the name before that correction; the correction may change the name, and the model does not say whether the type mention survives it.
- MaterialEditing.Shorten: counts characters where the source's `length()` counts UTF-8 bytes. For non-ASCII names the 64 bound is therefore a bound on characters, not bytes, and the source's byte cut can split a multi-byte character, which the model cannot express.
- MaterialEditing.TextureStem: the 64 bound is in characters, not in the UTF-8 bytes the source counts, for the same reason as Shorten.
- glTF and LLSD decoding are left out. The model receives the decoded material, scene and image names.
- MaterialEditing.MaterialEditor.SaveIfNeeded: covers the texture-upload stage. The asset save that follows it (llmaterialeditor.cpp:1381-1433) is left out.
- MaterialEditing.MaterialEditor.ApplyToSelection: the local-preview fallback branch (llmaterialeditor.cpp:3207-3219) is left out.
- MaterialEditing.MaterialEditor.ApplyToSelection: `targetFound` is a parameter. It stands for the result of `applyToNode` over the selection (`MaterialEditing.ApplyToNode`), and the method does not derive it, because the selection manager's traversal is not part of this model.
- MaterialEditing.MaterialEditor.SaveTextures: the corrected behaviour listed under Findings. It raises the counter by the number of uploads started, and returns that number, where the source raises the counter and its return value once per pending slot. It clears the slots when no upload starts, where the source clears them only when no slot is pending. The source as written is `MaterialEditing.SaveTexturesAsWritten`. The asynchronous upload and callback lookup are replaced by returned requests and `OnTextureUploaded`.
- MaterialEditing.MaterialEditor.SaveIfNeeded: follows the corrected texture stage. When only pending slots without image data remain, the model clears them and goes on to the material save with the editor enabled. The source instead disables the editor and returns true with the counter stuck above zero (`MaterialEditing.SaveIfNeededAsWritten`).
- MaterialEditing.MaterialEditor.OnTextureUploaded: an upload's callback is delivered only after SaveTextures has returned. The source notes that asset storage can call back immediately, inside the upload call (llmaterialeditor.cpp:3772-3775), which lowers the counter while SaveTextures is still running; that re-entrant delivery is not modelled.
- MaterialEditing.MaterialEditor.SetFailedToUploadTexture: takes the failed slot as a ghost parameter, so that the model can track which uploads are still awaited.
- StatusBar.StatusBarState.SetBalance: balances and health are unbounded integers. The S32 overflow of the source is undefined behaviour in C++ and is not modelled.
- StatusBar.BalanceSound: the F32 threshold and the float cast are modelled as exact reals.
- StatusBar.HealthSound: the F32 threshold `UISndHealthReductionThreshold` and the float comparison (llstatusbar.cpp:413) are modelled as exact reals.
- StatusBar.StatusBarState.SetLandCredit: the land credit is an unbounded integer, not the source's S32.
- StatusBar.StatusBarState.SetLandCommitted: the land in use is an unbounded integer, not the source's S32.
- StatusBar.StatusBarState.SquareMetersLeft: the subtraction is exact. The source's S32 subtraction (llstatusbar.cpp:472-475) can overflow, which is undefined behaviour in C++ and is not modelled.
- StatusBar.Accepted: measures a name list in characters where the source's `size()` counts UTF-8 bytes, so for non-ASCII lists the 2000 bound differs.
- StatusBar.AcceptedCount: the 2000 bound is in characters, not bytes, as for Accepted.
- Sounds and icon-flash timers are values: a sound choice, and a "flash until" time. Nothing is played or drawn.
- StatusBar.DateNames.SetupDate: the static day and month vectors are fields of a `DateNames` object.
- StatusBar.DateNames.SetupDate: lists are measured and split by character, not by the UTF-8 byte the source reads, as for Accepted.
- StatusBar.Tokenize: collects the words of a list first; the source pushes each word as it is read.
- The network balance request and all status-bar drawing and refresh are left out.

## Findings

| source | as written | input that shows it | evidently intended | confidence | as-written member | corrected member |
|---|---|---|---|---|---|---|
| indra/newview/llmaterialeditor.cpp:3590-3777 with 3537-3542 and 1364-1379 | the upload counter is raised, and the returned count grows, for every pending slot. But `saveTexture` returns silently when the slot has no image data, so no callback lowers the counter again. `saveIfNeeded` disables the editor, and every later call returns at its wait guard, so the editor stays disabled | one pending base-color slot without image data: `TextureSlot(7, 7, false, false, "Base Color")` with the other three slots idle. The counter becomes 1, no upload starts, the editor is disabled, and the next call waits with nothing changed | the counter counts only uploads that actually start | not executed; low-medium | MaterialEditing.SaveIfNeededAsWritten (with MaterialEditing.SaveTexturesAsWritten; shown by MaterialEditing.AsWrittenCounterOutlivesUploads and MaterialEditing.CounterRaiseOvercounts) | MaterialEditing.MaterialEditor.SaveIfNeeded (over MaterialEditing.MaterialEditor.SaveTextures; its invariant keeps the counter equal to the uploads awaited) |
| indra/newview/llreflectionmapmanager.cpp:192-197 with 346-352 and 486 | `allocateCubeIndex` takes a slot by setting the holder's `mCubeIndex` to -1 but leaves its `mCubeArray`. The real-time test asks only for `mCubeArray` and the dynamic flag, so a dynamic probe that lost its slot can still be the closest dynamic probe, and its faces are copied to layer `-1 * 6 + face` | `ReflectionState.StealExample`: one slot, a static probe 0 without a slot and a dynamic probe 1 holding slot 0. Capturing probe 0 steals the slot; in the next scan probe 1 is picked in either list order | only probes with a slot are rendered in real time | not executed; medium | ReflectionState.IsLiveDynamicAsWritten (shown by ReflectionState.StolenSlotStaysRealtimePick) | ReflectionState.IsLiveDynamic (used by ReflectionMaps.ReflectionMapManager.Scan; ReflectionMaps.ReflectionMapManager.Update proves every rendered layer lies in the array) |
