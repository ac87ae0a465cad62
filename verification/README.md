# Puddle core, modelled in Dafny

Puddle runs programs on a digital microfluidic board. Droplets sit on a grid of
electrodes and move from cell to cell. Two droplets that come too close merge
by accident, so every part of the system checks for collisions. This project
models three of its cores and proves what they promise.

- **The router** (`Route`, with `MinHeap` and `Geometry`). A best-first search
  over `(location, time)` nodes routes one droplet. It uses a `done` set,
  `best_so_far`, `came_from` and a time horizon. A reservation structure,
  `AvoidanceSet`, holds the nodes the droplets routed so far use, the cells
  blocked from some time on ("finals"), and `max_time`. `route_many` routes the
  droplets in order, each avoiding those before it. `build_path` rebuilds a
  path from the search tree. `paths_to_actions` turns the paths into a
  tick-by-tick schedule.
- **The action interpreter** (`Gridview`). `GridView::execute` changes a map
  from droplet ids to droplets. It handles Add, Remove, Mix, Split, Update,
  Move, Tick and Ping. Its `assert!`/`expect` panics are the interpreter's
  preconditions. `Apply` is the function that specifies it. It returns `None`
  exactly where the code panics. `get_collision` and
  `get_destination_collision` look for colliding pairs and take collision
  groups into account.
- **The Python device model** (`Arch`, `Board`). `Droplet` and `Architecture`
  are classes with identity. Their methods update fields in place: the
  `valid` flag, `locations`, and the architecture's set of droplets.
  `Mix.run` and `Split.run` walk droplets along a mapped loop or along two
  arms. `from_string` assigns cell ids. The function `AssignIds` specifies it,
  and lemmas state when a board is accepted and which ids it gets.

Each imperative routine is a `method` whose loops keep the invariants its
proof needs. Its `ensures` ties the result or the new state to a
specification function. Separate lemmas state what those functions mean:
round trips, "iff" characterisations, counts, and what stays unchanged.

Modules and files:

| file | module | models |
|---|---|---|
| `wrappers.dfy` | `Wrappers` | `Option`, `Result` |
| `geometry.dfy` | `Geometry` | `Location`, the grid helpers (`neighbors4`, `neighbors_dimensions`, `get_locations`, `distance_to`) |
| `minheap.dfy` | `MinHeap` | the search's priority queue, kept abstract |
| `gridview.dfy` | `Gridview` | `src/core/src/grid/gridview.rs` |
| `route.dfy` | `Route` | `src/core/src/plan/route.rs` |
| `arch.dfy` | `Arch` | `puddle/arch.py`: droplets, the architecture, `Mix`, `Split` |
| `board.dfy` | `Board` | `puddle/arch.py`: the id assignment of `from_string` |

## Model

| member | source | states |
|---|---|---|
| Geometry.DistanceTo | src/core/src/plan/route.rs:243-244 | Manhattan distance; it is zero exactly for equal locations |
| Geometry.Chebyshev | puddle/arch.py:233 | the larger of the two coordinate differences |
| Geometry.Neighbors4 | src/core/src/plan/route.rs:129 | exactly the grid cells at Manhattan distance 1, at most four |
| Geometry.GetLocations | src/core/src/grid/gridview.rs:54 | (definition) exactly the cells of the droplet's rectangle |
| Geometry.NeighborsDimensions | src/core/src/plan/route.rs:109 | (definition) exactly the grid cells in the footprint or next to it, diagonals included |
| Geometry.UnitNeighbourhood | src/core/src/plan/route.rs:109 | for a 1x1 droplet, a grid cell is a neighbour iff it is within Chebyshev distance 1 |
| MinHeap.Empty | src/core/src/plan/route.rs:225 | a new heap holds nothing |
| MinHeap.Push | src/core/src/plan/route.rs:235 | the heap gains exactly the one entry, as a multiset |
| MinHeap.Pop | src/core/src/plan/route.rs:246 | `None` iff the heap is empty; otherwise an entry of least cost, with the rest left as a multiset |
| Route.Reverse | src/core/src/plan/route.rs:22 | (definition) element `i` of the result is element `len-1-i` of the input |
| Route.ChainShape | src/core/src/plan/route.rs:17-20 | the chain ends at the end node; each later node is a key whose entry is the node before it; those keys are distinct; the first node has no entry left |
| Route.ChainTimes | src/core/src/plan/route.rs:17-20 | when every entry is one time step before its key, node `i` of the chain is at the first node's time plus `i` |
| Route.BuildPath | src/core/src/plan/route.rs:14-24 | the path is the locations of the `came_from` chain from `end_node` back to its root, root first |
| Route.MaxLen | src/core/src/plan/route.rs:27 | no path is longer, some path reaches it, and it is 0 for no paths |
| Route.PathsToActions | src/core/src/plan/route.rs:26-41 | the actions are the schedule of `max_len` rounds, each followed by a `Tick` |
| Route.RoundMoves | src/core/src/plan/route.rs:30-37 | round `i` holds a `MoveDroplet(id, path[i])` for each path longer than `i`, and nothing else; how often each occurs is stated in `RoundNoRepeats` |
| Route.RoundNoRepeats | src/core/src/plan/route.rs:30-37 | when the ids are distinct, no move occurs twice in a round |
| Route.RoundMovesOnce | src/core/src/plan/route.rs:30-37 | when the ids are distinct, each `MoveDroplet(id, path[i])` of a path longer than `i` occurs in round `i` exactly once |
| Route.RoundHasNoTick | src/core/src/plan/route.rs:30-37 | a round holds no `Tick` |
| Route.TickCountAppend | src/core/src/plan/route.rs:38 | the ticks of a concatenation add up |
| Route.ScheduleTickCount | src/core/src/plan/route.rs:29-39 | `n` rounds hold exactly `n` ticks |
| Route.SchedulePrefix | src/core/src/plan/route.rs:29-39 | fewer rounds give a prefix of the schedule |
| Route.ScheduleMeaning | src/core/src/plan/route.rs:26-41 | `max_len` ticks in total; between tick `i-1` and tick `i` come exactly the moves of the droplets whose path is longer than `i`, each to `path[i]` and each once |
| Route.ScheduleEmpty | src/core/src/plan/route.rs:27 | no paths give no actions |
| Route.Expand | src/core/src/plan/route.rs:128-151 | every successor is one time step later; the last one waits in place at cost 1 and is the only one that stays; every other one moves at cost 100 to a cell that `neighbors4` gives, and every such cell appears |
| Route.Reservation | src/core/src/plan/route.rs:109-119 | (definition) the nodes on the given cells one time step before, at, and one step after the given time |
| Route.ReservationGrows | src/core/src/plan/route.rs:109-119 | one more cell adds its three times |
| Route.TimesGrow | src/core/src/plan/route.rs:110-118 | one more pass of the inner loop adds the node at `time + t`, and nothing when that time is negative |
| Route.Block | src/core/src/plan/route.rs:101-103 | (definition) every given cell is blocked from the given time, and no other cell is |
| Route.BlockGrows | src/core/src/plan/route.rs:101-103 | inserting one more cell extends the block by that cell |
| Route.FinalsOf | src/core/src/plan/route.rs:99-103 | (definition) the finals that `avoid_path` writes: the neighbourhood of the last cell, blocked from index `len-1` |
| Route.PathReservationMeaning | src/core/src/plan/route.rs:91-97 | a node is reserved for the first `n` steps iff some step `i < n` reserves it |
| Route.PathReservesSteps | src/core/src/plan/route.rs:91-97 | with 1x1 dimensions, every grid cell within Chebyshev distance 1 of `path[i]` is reserved at times `i-1`, `i` and `i+1` |
| Route.Avoidance.Collides | src/core/src/plan/route.rs:70-73 | (definition) the node is in `present` |
| Route.Avoidance.CollidesWithFinal | src/core/src/plan/route.rs:75-79 | (definition) the node's cell is in `finals` and its time is at or after the blocking time |
| Route.Avoidance.Keeps | src/core/src/plan/route.rs:61-67 | (definition) `filter`'s test: neither `collides` nor `collides_with_final` |
| Route.Avoidance.Filter | src/core/src/plan/route.rs:61-79 | keeps exactly the successors that are neither in `present` nor on a `finals` cell at or after its time, every copy of each, as a sub-multiset of the input |
| Route.Avoidance.KeptFrom | src/core/src/plan/route.rs:61-67 | the positions from `i` on whose successors `filter` keeps: each is kept, every kept one appears, in increasing order |
| Route.Avoidance.FilterFrom | src/core/src/plan/route.rs:61-67 | `filter` of the suffix from `i` lists the successors at the kept positions, in turn |
| Route.Avoidance.FilterInOrder | src/core/src/plan/route.rs:61-67 | `filter` keeps the original order: element `k` of its result is the successor at the `k`-th kept position |
| Route.PresentFromMeaning | src/core/src/plan/route.rs:81-88 | the upward scan finds a reservation iff some time from `t` up to `max_time` is reserved on the cell |
| Route.Avoidance.WouldFinallyCollide | src/core/src/plan/route.rs:81-88 | (definition) the upward scan `PresentFrom` from the node's time; its meaning is `WouldFinallyCollideMeaning` |
| Route.WouldFinallyCollideMeaning | src/core/src/plan/route.rs:81-88 | `would_finally_collide(node)` holds iff `(node.location, t)` is in `present` for some `node.time <= t < max_time` |
| Route.AvoidanceSet.constructor | src/core/src/plan/route.rs:53-58 | the default set: `max_time` 0, nothing present, no finals |
| Route.AvoidanceSet.AvoidNode | src/core/src/plan/route.rs:108-121 | `present` gains exactly the node's neighbourhood at `t-1`, `t`, `t+1`, never at a negative time; nothing else changes |
| Route.AvoidanceSet.AvoidPath | src/core/src/plan/route.rs:90-106 | for a non-empty path: `present` gains the reservations of every `(path[i], i)`, finals gain the end neighbourhood at `len-1`, and `max_time` becomes `max(old, len-1)` |
| Route.SuccessorSet | src/core/src/plan/route.rs:261 | (definition) exactly the nodes that `next_fn` offers |
| Route.Horizon | src/core/src/plan/route.rs:253 | (definition) the nodes the search can pop: on the grid or the start cell, at most one step past `max_time` |
| Route.SearchTreeChain | src/core/src/plan/route.rs:268-281 | the chain from any node of the search tree is a walk from the start at time 0, with node `i` at time `i` |
| Route.WalkStaysIn | src/core/src/plan/route.rs:253-255 | a walk within the horizon stays inside any node set that is closed under expansion below the horizon |
| Route.LinkKeepsTree | src/core/src/plan/route.rs:268-281 | linking an offered successor to its parent keeps `best_so_far`/`came_from` a search tree |
| Route.SettlingShrinks | src/core/src/plan/route.rs:253 | settling a new node of the horizon leaves one node fewer to settle, which is the search's termination measure |
| Route.SettleKeepsClosed | src/core/src/plan/route.rs:252-286 | settling a node and queueing all its successors keeps every successor of a settled node settled or queued |
| Route.ExpandNode | src/core/src/plan/route.rs:259-286 | the successor loop keeps the search tree, only grows `best_so_far` and the queue, and leaves every successor of the node done or queued |
| Route.ExpandedGrows | src/core/src/plan/route.rs:253 | a node not done before joins the expanded nodes, which stay settled and distinct |
| Route.SkipKeepsSearching | src/core/src/plan/route.rs:253-255 | skipping a popped node that is done or past the horizon keeps the loop invariant |
| Route.ExpandKeepsSearching | src/core/src/plan/route.rs:252-286 | expanding a new popped node within the horizon keeps the loop invariant |
| Route.SearchStarts | src/core/src/plan/route.rs:231-236 | the start node queued at cost 0 establishes the loop invariant |
| Route.SearchExhausted | src/core/src/plan/route.rs:246-289 | once the queue is empty, no walk within the horizon ends on a node that `done_fn` accepts |
| Route.SearchExpandsOnce | src/core/src/plan/route.rs:253-255 | each node was expanded at most once, and never past `max_time` |
| Route.FoundPath | src/core/src/plan/route.rs:247-250 | the path rebuilt from a popped node that `done_fn` accepts starts at the droplet, ends on that node, and takes only steps `next_fn` offers |
| Route.Visit | src/core/src/plan/route.rs:252-286 | one popped, unaccepted node keeps the loop invariant and either settles a new node or changes nothing |
| Route.RouteOne | src/core/src/plan/route.rs:206-290 | `Some(p)`: `p` starts at the droplet's location at time 0, ends on a node `done_fn` accepts, and each step is a successor; `None`: no walk within the horizon reaches such a node; each node expanded once, within `max_time`; the cost lookup of every popped node is proved to succeed |
| Route.Avoiding | src/core/src/plan/route.rs:180 | (definition) the `next_fn` closure of `route_many`: `filter` of `expand` |
| Route.Dest | src/core/src/plan/route.rs:182-185 | (definition) the droplet's destination, or its location when it has none |
| Route.Arrived | src/core/src/plan/route.rs:181-186 | (definition) the `done_fn` closure of `route_many`: at the destination and not `would_finally_collide` |
| Route.AvoidingStep | src/core/src/plan/route.rs:183 | a filtered successor is one time step later, waits or moves to a neighbouring grid cell, and avoids the reservations |
| Route.AvoidingStepsForward | src/core/src/plan/route.rs:183 | the filtered expansion meets the search's requirement on `next_fn` |
| Route.RoutedFits | src/core/src/plan/route.rs:180-190 | a path found for a droplet starts at its location, ends at its destination, moves one cell or waits at each step, and avoids the reservations |
| Route.RouteAvoiding | src/core/src/plan/route.rs:180-190 | one search of `route_many`: a fitting path that avoids the reservations, or no walk within the horizon arrives |
| Route.IdsOfMeaning | src/core/src/plan/route.rs:200 | an id is among the first `k` ids iff one of the first `k` droplets has it |
| Route.KeyedGrows | src/core/src/plan/route.rs:200 | inserting the next droplet's path keeps `paths` holding exactly the routed droplets, each under its id |
| Route.LongestOfIsMax | src/core/src/plan/route.rs:196 | `max_t` is the length of the longest path so far, 0 for none |
| Route.AvoidanceMaxTime | src/core/src/plan/route.rs:105 | after routing, the set's `max_time` is one below the longest path |
| Route.ReservationsKept | src/core/src/plan/route.rs:199 | every node an earlier path reserved is still in `present` later on |
| Route.KeyedFit | src/core/src/plan/route.rs:200-203 | once every droplet is routed, `paths` holds exactly their ids, each with a path that fits its droplet |
| Route.RoutedGrows | src/core/src/plan/route.rs:191-200 | a found path extends the routed sequence; the avoidance set and `max_t` move on as `avoid_path` and `max` say |
| Route.RouteMany | src/core/src/plan/route.rs:171-204 | `Some`: one fitting path per droplet under its id, each avoiding the reservations of those before it; `None`: the first droplet that could not be routed has no walk within the horizon `num_cells + max_t` |
| Route.Separation | src/core/src/plan/route.rs:171-204 | after its start, a droplet routed later never stands inside the collision zone of any step of an earlier droplet |
| Gridview.NewDroplet | src/core/src/grid/gridview.rs:129 | (definition) `Droplet::new` keeps id, volume, location and dimensions, and sets no destination |
| Gridview.GridView.constructor | src/core/src/grid/gridview.rs:26-33 | a view of the grid with no droplets |
| Gridview.GridView.GetCollision | src/core/src/grid/gridview.rs:40-64 | `Some((a, b))` only for distinct ids in different collision groups whose neighbourhood and footprint overlap; `None` iff no such pair exists |
| Gridview.GridView.GetDestinationCollision | src/core/src/grid/gridview.rs:66-94 | the same, on destinations, skipping droplets without one |
| Gridview.GridView.Insert | src/core/src/grid/gridview.rs:104-107 | requires a fresh id and stores the droplet under it |
| Gridview.GridView.Remove | src/core/src/grid/gridview.rs:109-113 | requires a present id, returns that droplet and drops exactly it |
| Gridview.GridView.GetMut | src/core/src/grid/gridview.rs:115-119 | requires a present id and yields the droplet stored under it |
| Gridview.Apply | src/core/src/grid/gridview.rs:121-186 | (definition) the effect of one action on the droplet map, `None` where `execute` panics; each arm is characterised by the lemmas below |
| Gridview.GridView.Execute | src/core/src/grid/gridview.rs:121-186 | when no arm panics, the new droplet map is `Apply` of the old one, and every droplet stays under its own id |
| Gridview.RemoveDropsOne | src/core/src/grid/gridview.rs:130-132 | `RemoveDroplet` succeeds iff the id is present, and drops exactly one droplet |
| Gridview.AddAddsOne | src/core/src/grid/gridview.rs:124-129 | `AddDroplet` succeeds iff the id is fresh, and adds one droplet built by `Droplet::new` |
| Gridview.MixMergesTwo | src/core/src/grid/gridview.rs:133-139 | `Mix` succeeds iff both inputs are present, distinct, co-located and `out` is free afterwards; the result is one 1x1 droplet at that location with the summed volume, and the count drops by one |
| Gridview.SplitMakesTwo | src/core/src/grid/gridview.rs:140-163 | `Split` succeeds iff the input is present and the outputs are distinct and free once it is removed; it yields two 1x1 droplets at the input's location, each with exactly half its volume, and the count rises by one |
| Gridview.UpdateRekeys | src/core/src/grid/gridview.rs:164-169 | `UpdateDroplet` succeeds iff `old_id` is present and `new_id` is free once it is removed; it moves that droplet to `new_id` and keeps every field but the id |
| Gridview.MoveChangesLocation | src/core/src/grid/gridview.rs:170-174 | `MoveDroplet` succeeds iff the droplet is present and the move is at most one step; only its location changes |
| Gridview.TickChecksCollisions | src/core/src/grid/gridview.rs:175-184 | `Tick` panics iff `get_collision` would find a pair, and otherwise changes nothing; `Ping` changes nothing |
| Gridview.ApplyKeepsIds | src/core/src/grid/gridview.rs:121-186 | every successful action keeps each droplet stored under its own id |
| Arch.Droplet.constructor | puddle/arch.py:17-22 | a new droplet holds its info and locations and is valid |
| Arch.Droplet.Copy | puddle/arch.py:35-36 | a fresh, valid droplet with the same info and locations |
| Arch.Droplet.Split | puddle/arch.py:38-43 | requires `valid`; two distinct fresh copies, valid, with the same info and locations; the original becomes invalid |
| Arch.MixedInfo | puddle/arch.py:56 | (definition) the info string `"(a, b)"` of a mix |
| Arch.Droplet.Mix | puddle/arch.py:45-58 | requires both inputs valid and invalidates both; the result is fresh and valid, covers the union of their locations, and has info `"(a, b)"` |
| Arch.NearIsChebyshev | puddle/arch.py:233 | the collision test is Chebyshev distance at most 1 |
| Arch.MinOf | puddle/arch.py:184-185 | the least coordinate: it occurs and no coordinate is smaller |
| Arch.MaxOf | puddle/arch.py:184-185 | the greatest coordinate: it occurs and no coordinate is larger |
| Arch.Architecture.constructor | puddle/arch.py:170-196 | the bounds enclose every node and each is reached by one; height and width span them; no droplets |
| Arch.Architecture.GetDroplet | puddle/arch.py:205-209 | a droplet of the set that covers the location, or `None` iff no droplet does |
| Arch.Architecture.CheckCollisions | puddle/arch.py:220-235 | raises iff two distinct droplets have cells within 1 in both coordinates |
| Arch.Architecture.AddDroplet | puddle/arch.py:211-214 | requires the droplet to be absent; it is in the set afterwards even when the check raises, which it does iff the new set collides |
| Arch.Architecture.RemoveDroplet | puddle/arch.py:216-218 | requires membership and removes exactly that droplet |
| Arch.AddedColliding | puddle/arch.py:211-214 | the set with one more droplet collides iff the old set collides or the new droplet touches one of it |
| Arch.SameCellCollides | puddle/arch.py:144-149 | two distinct droplets on the same single cell collide, so the second add in `Split.run` always raises |
| Arch.Pairs | puddle/arch.py:107 | the consecutive pairs of a sequence, one fewer than its length |
| Arch.Mapped | puddle/arch.py:107 | (definition) element `i` of the result is `mapping` of element `i` of the input |
| Arch.MixEdges | puddle/arch.py:96-107 | the mapped loop has six edges; their targets are the mapped loop after its start, and the last one is `mapping[(0, 0)]` |
| Arch.WalkLoop | puddle/arch.py:116-121 | the droplet visits each edge's target in turn, `n_mix_loops` times, and ends on the last target |
| Arch.WalkApart | puddle/arch.py:151-154 | the two halves move in lock step and end on the mapped last cells of their arms |
| Arch.Mix.constructor | puddle/arch.py:98-102 | records the architecture and both inputs |
| Arch.Mix.Run | puddle/arch.py:104-122 | the inputs are replaced by their mix and keep their info and cells, only invalidated; adding it raises iff the other droplets already collide or one of them is next to the inputs' cell; without a collision the mix visits the mapped loop after its start, six edges per repetition (six cells visited per loop), and ends at `mapping[(0, 0)]` |
| Arch.Split.constructor | puddle/arch.py:131-134 | records the architecture and the droplet |
| Arch.Split.Run | puddle/arch.py:136-156 | the input is replaced by two valid halves and keeps its info and cells, only invalidated; the first add raises iff the other droplets already collide or one of them is next to the input's cell; otherwise the second add always raises and is caught, and after three lock-step moves the halves are at `mapping[(0, 0)]` and `mapping[(0, 4)]` |
| Board.NextFree | puddle/arch.py:304-305 | the least id at or above the start that is not taken, with every id in between taken |
| Board.NewIds | puddle/arch.py:302-308 | one id per queued cell |
| Board.ScanRow | puddle/arch.py:286-300 | the inner scan loop computes the scan of one more row |
| Board.ScanBoard | puddle/arch.py:285-300 | the scan loop computes `ScanAll` of the board's entries in row-major order |
| Board.FillIds | puddle/arch.py:302-308 | the fill loop computes `Fill` of the scanned cells |
| Board.AssignIds | puddle/arch.py:285-311 | (definition) the scan, then the fill, then the consecutive-ids check; characterised by `AssignIdsAccepts` and `AssignIdsOk` |
| Board.FromString | puddle/arch.py:285-311 | the id assignment computes `AssignIds` of the board |
| Board.ScanErrSticks | puddle/arch.py:292-300 | once an element raises, the later elements do not change the outcome |
| Board.ScanOutcome | puddle/arch.py:285-300 | the scan succeeds iff every element is recognised and no explicit id repeats; it then holds exactly the explicit ids at their cells, and the `a` cells in scan order |
| Board.ScanErrWitness | puddle/arch.py:290-300 | a failed scan is a duplicate id, or names an unrecognised element of the board |
| Board.NewIdsMeaning | puddle/arch.py:302-308 | the new ids are untaken, strictly increasing, and leave no untaken id below the last one unused |
| Board.FillKeeps | puddle/arch.py:302-308 | the fill keeps every explicit cell |
| Board.FillAssigns | puddle/arch.py:302-308 | the `i`-th queued cell receives the `i`-th new id |
| Board.FillAddsOnly | puddle/arch.py:302-308 | the fill adds no other id, and the cell count grows by the number of queued cells |
| Board.RangeMeaning | puddle/arch.py:311 | `range(n)` holds exactly `0 .. n-1` |
| Board.FillConsecutive | puddle/arch.py:302-311 | the final assertion holds iff every explicit id lies in `0 .. n-1`, where `n` is the number of cells |
| Board.AssignIdsAccepts | puddle/arch.py:285-311 | the id assignment accepts a board iff every element is recognised, no id repeats, and every explicit id is below the number of cells |
| Board.AssignIdsOk | puddle/arch.py:285-311 | an accepted board keeps each explicit id at its cell, gives the `a` cells the new ids in scan order, and ends with ids exactly `0 .. n-1` |

## Left out

- `GridView::route` (src/core/src/plan/route.rs:155-168) is not modelled. It retries `route_many` on random shuffles. `RouteMany` takes the order as a parameter instead.
- MinHeap internals and ordering of equal-cost entries: the heap is a bag whose `pop` returns some cheapest entry; which one is not fixed.
- The grid code (`neighbors4`, `neighbors_dimensions`, `locations`, `Droplet::get_locations`, `distance_to`) is not part of this model. `Geometry` defines each one from what its callers rely on:
  - the grid is a set of cells;
  - `neighbors4` gives the cardinal neighbours in a fixed order;
  - `neighbors_dimensions` gives the footprint and the ring around it, clipped to the grid;
  - `distance_to` is Manhattan distance.
- `Droplet::new` is not part of this model. `NewDroplet` assumes that a new droplet has no destination and has its own collision group.
- Time and Cost are `nat`. The 32-bit wrap-around of `u32` is not modelled, including in `num_cells + max_t` and `time + 1`.
- Volumes are `real`. The split error is left out: `Normal`, `IsaacRng` and the clamping of the error. Split uses the default options, which give no error.
- `trace!`/`error!` logging and `droplet_info` are left out.
- `Route.RouteOne` requires that `next_fn` gives successors one time step later, on the grid or in place. `route_many`'s filtered expansion meets this (`AvoidingStepsForward`).
- `Route.RouteMany` requires distinct droplet ids. The source iterates a map, so its ids are distinct.
- `Route.PathsToActions` takes the map's iteration order as a parameter. The statements about the schedule (`ScheduleMeaning`) require that order to list every key once.
- `Gridview.GridView.Execute` requires that no arm panics. The panics are modelled as `None` from `Apply`, and the lemmas state when that happens.
- `Arch.Architecture.constructor` requires a non-empty node list. With no nodes, the unpacking `ys, xs = zip(*graph)` at `puddle/arch.py:182` raises in Python.
- The conversion from `nx.Graph` to `nx.DiGraph` is left out, and so are the graph's edges. Only the node list is kept.
- `Arch.Architecture.CheckCollisions` requires every droplet to occupy exactly one cell. The unpacking `(location,) = ...` raises otherwise.
- `Arch.Architecture.AddDroplet` and the commands model `CollisionError` as a returned flag. The state at the moment of the raise is the same as the model's.
- `Arch.Mix.Run` and `Arch.Split.Run` do not model a `KeyError` from a partial mapping. Their requires clauses ask for the mapping to cover the shape's cells.
- `Arch.Mix.Run` and `Arch.Split.Run` require every droplet to occupy one cell, as the collision check does.
- `Arch.Mix.Run` and `Arch.Split.Run` do not model what happens after an uncaught `CollisionError`. When adding the mix (or the first half) raises, the method returns at that point with `collided` set.
- `puddle.util.pairs` is not part of this model. `Pairs` assumes it gives consecutive pairs.
- Python's untyped `info` is modelled by its string form, so `mix`'s f-string is concatenation.
- Aliasing in `copy` is left out. Python shares the `locations` set object between a copy and its original. Here sets are values, and nothing mutates them in place.
- `Architecture.wait` is treated as a no-op. It is a rendezvous with a rendering session.
- Session, `source_file`, `push_command`/`pop_command` and `cells()` are left out.
- `to_dict`, `__str__` and `to_yaml_string` are rendering and are left out.
- The `Move` command is left out: its `run` does nothing.
- The command `shape` graphs are left out.
- `from_string`: YAML parsing, the board's width, and the `networkx` grid construction are left out. The board arrives as rows of elements. Python's `'_'`/`None` are `Gap`, `int` ids are `CellId`, `'a'` is `Auto`, and anything else is `Other`. The final `assert` is the `NotConsecutive` error.
- `Board.AssignIds` returns `Ok(map[])` for a board with no cells. `from_string` raises on every such board. The empty board fails at the `max` of `puddle/arch.py:276`. Any other board without cells fails when the architecture is built (`puddle/arch.py:182`). The model covers only the id assignment, so it does not capture either error.
- `from_file` file I/O is left out.
- The proptest strategies and the other test files are left out.
- Some routines are split into helper methods, each with its own contract:
  - `route_one`'s loop body is `Visit` and `ExpandNode`;
  - `route_many`'s search is `RouteAvoiding`;
  - the walks of `Mix.run` and `Split.run` are `WalkLoop` and `WalkApart`;
  - `from_string`'s loops are `ScanBoard`, `ScanRow` and `FillIds`.
