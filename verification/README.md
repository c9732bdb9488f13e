# Verified models from Space Nerds in Space

This project models ten algorithmic units of Space Nerds in Space, a multi-player starship bridge
simulator written in C, and proves what they are for. `dafny verify dfyconfig.toml` checks it all.

The models keep the form of the C code. State that C updates in place is a class with fields, or an
array; loops and recursion are as they are there. Next to each imperative part stands a module of
specifications on values (sequences, maps, algebraic data), and the main results are lemmas about
those, for all inputs, all runs or all states that can be reached.

| unit | modules | main results |
|---|---|---|
| A* search (`a_star.c`) | AStarSpec, AStarTables, AStar | `AStar.Run`: a path comes back if and only if there is one; it has no repeats and fits; with a consistent heuristic it is cheapest |
| hull fracture (`mesh_fracture.c`) | MeshCuts, MeshSubdivision, MeshCells, MeshCoalescing, MeshCore, MeshMoments, MeshFracture | the walk that puts the core together stays in step with the subdivision it derives again, covers each core leaf once, keeps area and balance, and merges as much as it may; the pieces have the hull's area between them and balance about its middle |
| key/value text (`key_value_parser.c`) | KeyValueText, KeyValueSpec, KeyValueParser, KeyValueRoundTrip, KeyValueReload | what is written reads back exactly when every string is on one line, ended, and starts with no space |
| child lists (`entity.c`) | EntityLists, EntityDescent, EntityChanges, EntityRemoval, EntityTree | adding, re-parenting and removing keep the lists well formed, with the exact case where removal does not; removal ends whatever cycles of parents there are, unless the entity is its own parent; which list nodes are freed twice |
| frustum clipping (`entity.c`) | FrustumClip | a rejected segment has no point inside; a kept one is cut to exactly the points inside if and only if its new ends are such points, which they are if no cut was shallow |
| Mersenne Twister (`mtwist.c`) | MersenneTwister | the buffer, regenerated in place, hands out the infinite MT19937 sequence; tempering is one to one |
| fleets (`fleet.c`) | Fleets, Formations | throughout a run nobody is in two fleets, or in one not founded yet, if and only if free ids found fleets and only founded fleets are joined, and then members keep their order; the spiral fills squares; triangle places are right but for one position |
| Liang-Barsky (`liang-barsky.c`) | LiangBarsky | what is kept, for all inputs; for all but nearly parallel segments, that this is what is in the window, save for segments along a border |
| Bresenham lines (`bline.c`) | Bresenham | the points are the rounded line; drawn from the other end it has the same point for a step exactly when the ideal height is not half way between two |
| gravitational lenses (`black_hole_lens.c`) | LensSelection | a hole gets a slot if and only if fewer than three beat it |

Lists, Wrappers and Reals hold what several of these use: lists without repeats, the Option type, and
absolute values and the signs of products.

Numbers: C's `float` is an exact `real`, `int` is an unbounded `int`, and the 32-bit words of the
generator and of the mesh's hash are bit-vectors. Random draws, noise and the distance of a point to
a piece's boundary are parameters. NULL is 0 for nodes of the search and -1 for entities.

## What came up

Where the code and what is said about it differ, the model follows the code.

- `key_value_parser.c`: a line whose key matches but whose integer does not scan makes the field's
  parser return 1. The comments at lines 262 and 264 take positive results for "not this key" and
  negative ones for a failed parse, so the line is ignored and the parse succeeds
  (`KeyValueRoundTrip.FailsOnUnknown`, `KeyValueRoundTrip.NeverFails`).
- `entity.c`: removing an entity that has a parent but no children leaves its node in the parent's
  list, and no reading of the arrays is then well formed (`EntityRemoval.Dangling`,
  `EntityTree.RemoveLeaf`). Removing a tree frees some list nodes twice: those of entities that have
  children and are two or more levels down. Freeing is idempotent and nothing is allocated in
  between, so the result is still right at any depth (`EntityRemoval.RemoveKeeps`).
- `entity.c`: `update_entity_parent` lets its caller make cycles of parents. Removing an entity of a
  cycle removes them all and is right, for the entity leaves its parent's list before the recursion
  starts (`EntityTree.RemoveFromCycle`). Only an entity that is its own parent cannot be removed: the
  recursion meets it in its own list and calls `abort` (`EntityTree.RemoveOwnParent`,
  `EntityRemoval.RemovalEndsIff`).
- `mesh_fracture.c`: the comment at lines 79-82 says that the triangles beside a shared edge pick the
  same point to cut it at. They do not when its ends, less than a grid step apart, round to the same
  grid point, unless they are equal (`MeshSubdivision.IndistinctEndsCutAlike`,
  `MeshSubdivision.TinyEdgeCutTwice`); otherwise they do (`MeshSubdivision.SharedEdgeCutAlike`).
- `fleet.c`: triangle position 256 is wrong after any call for a greater one
  (`Formations.TriangleTable.Position`, `Formations.PositionGoesWrong`). `fleet_join` refuses a
  member of a full fleet that it would otherwise have found there (`Fleets.FleetTable.Join`).
- `fleet.c`: `fleet_join` looks for the id in the fleets founded so far (line 255), but writes to any
  fleet it is given (line 270). After one fleet is founded by id 1, joining id 2 to fleets 1 and 2
  leaves it in both (`Fleets.JoinGoesWrong`). A join that is not refused keeps each id in at
  most one fleet, and the fleets not founded empty, exactly when its own fleet has been founded
  (`Fleets.FleetTable.Join`, `Fleets.StepIsSoundIff`). The caller at `snis_server.c:4171-4181` tries
  all ten fleet numbers, but only once all ten are founded (line 4160).
- `black_hole_lens.c`: the comment at lines 156-159 says nearest first; the code puts the farthest
  first.
- `liang-barsky.c`: a segment parallel to a side of the window and lying on it is rejected, though the
  window is closed (`LiangBarsky.BorderIsRejected`). Among segments that do not move by less than the
  tolerance, these and no others are misjudged (`LiangBarsky.Segment.ClipLine`,
  `LiangBarsky.FairIsExact`).

## Model

| member | source | states |
|---|---|---|
| AStar.Run | a_star.c:227-294 | NULL comes back if and only if no path leads to the goal; otherwise a path from start to goal along neighbours, without repeats, of at most maxnodes nodes, and of least cost among all paths when the heuristic is consistent, though closed nodes are never opened again |
| AStar.CloseAndExpand | a_star.c:257-279 | closing a node of lowest score and visiting its neighbours keeps everything the search knows, and one more node is closed |
| AStar.Expand | a_star.c:260-279 | the loop over the neighbours keeps the invariant and leaves all of them with a score as good as through the closed node |
| AStar.Workspace.Visit | a_star.c:262-277 | one neighbour: the open set, the scores and the came-from map change as the step on values says, and not at all if it is skipped |
| AStar.Room | a_star.c:39-50 | no set or map can run out of room while everything met is in a set of at most maxnodes nodes |
| AStar.ReconstructPath | a_star.c:208-225 | following the came-from map writes the trail backwards, never past maxnodes, and ends |
| AStar.Answer | a_star.c:286-290 | the path given out is that trail in order |
| AStar.LowestScore | a_star.c:120-135 | a candidate is found whose score none undercuts, the last of them |
| AStarSpec.CloseIsShortest | a_star.c:253-258 | when a node of lowest score is closed, with a consistent heuristic its score is the cost of a cheapest path from the start |
| AStarSpec.CloseStep | a_star.c:257-258 | closing keeps the invariant: trails are paths of the cost recorded, closed nodes are settled, the rest is accounted for |
| AStarSpec.ImproveStep | a_star.c:266-277 | a better score for a neighbour keeps the invariant |
| AStarSpec.ClosedNeighbour | a_star.c:262-263 | a closed neighbour may be skipped: no path through the current node betters its score |
| AStarSpec.SkipStep | a_star.c:262-271 | a neighbour that is passed over leaves the invariant and counts as relaxed |
| AStarSpec.Frontier | a_star.c:247-253 | every path that leaves the closed nodes does so through an open one whose score is at most the cost so far |
| AStarSpec.NoPathLeft | a_star.c:281-285 | with nothing open, no path to the goal exists |
| AStarSpec.GoalIsCheapest | a_star.c:254-256 | the goal's trail, when it is chosen, is a cheapest path |
| AStarSpec.TrailLinks | a_star.c:266-275 | the came-from map spells out the trail, and ends at the start |
| AStarSpec.TrailFits | a_star.c:286-290 | a trail has no repeats and no more nodes than there are |
| AStarTables.NodeSet.Add | a_star.c:39-50 | the node joins the set, whose members are told by a list without repeats |
| AStarTables.NodeSet.Remove | a_star.c:52-69 | the last member takes the removed one's place: exactly that node leaves the set |
| AStarTables.SwapRemoved | a_star.c:52-69 | moving the last element into the gap takes one element from a list without repeats and repeats none |
| AStarTables.NodeTable.Set | a_star.c:147-165 | the map gets the binding, in the slot of the key or in the first free one |
| AStarTables.NodeTable.Get | a_star.c:110-118 | the value bound to the key |
| AStarTables.NodeTable.GetOr | a_star.c:198-206 | the value bound to the key, or NULL for a key that is not bound |
| AStarTables.WriteSlot | a_star.c:177-196 | writing the first fitting slot of the table updates the map it stands for and keeps one slot for each key |
| AStarTables.CountBindings | a_star.c:147-165 | a table holds as many bindings as it has filled slots, each for a key of its own |
| MeshCuts.Subdivide | mesh_fracture.c:150-165 | the soup grows by the leaves of the cutting tree, in order |
| MeshCuts.Soup.Add | mesh_fracture.c:54-67 | one triangle is appended |
| MeshCuts.LeavesAreSmall | mesh_fracture.c:150-165 | every leaf is small enough or at the greatest depth |
| MeshCuts.LeavesAddUp | mesh_fracture.c:150-165 | any measure that a cut divides adds up over the leaves to the source triangle's |
| MeshSubdivision.LeavesAreFine | mesh_fracture.c:118-165 | every leaf has all its edges within the limit, or was reached by 25 cuts |
| MeshSubdivision.SharedEdgeCutAlike | mesh_fracture.c:83-100 | the two triangles beside an edge cut it at the same point if its ends round to different grid points |
| MeshSubdivision.IndistinctEndsCutAlike | mesh_fracture.c:79-100 | when they round to one grid point, the two cuts agree if and only if the ends are equal |
| MeshSubdivision.NeverInTheMiddle | mesh_fracture.c:83-100 | no edge is cut at its middle, whatever the hash |
| MeshSubdivision.TinyEdgeCutTwice | mesh_fracture.c:79-100 | an edge of a ten-thousandth that the two sides cut at different points |
| MeshSubdivision.HalvesShare | mesh_fracture.c:118-148 | the halves share the vector area in the ratio of the cut, and their centroids average to the whole's |
| MeshSubdivision.LeafAreas | mesh_fracture.c:118-165 | the areas of the leaves add up to the triangle's |
| MeshSubdivision.LeafVectorAreas | mesh_fracture.c:118-165 | so do the vector areas, along every direction |
| MeshSubdivision.LeafMoments | mesh_fracture.c:118-165 | so do the centroids weighted by area |
| MeshCells.Assign | mesh_fracture.c:307-325 | each triangle gets the cell of least power distance, the first of equals, and nothing else changes |
| MeshCells.CoreGrows | mesh_fracture.c:307-325 | a triangle in the core's cell stays there at any greater weight |
| MeshCells.CoreAreaGrows | mesh_fracture.c:307-325 | so the core's area grows with the weight |
| MeshCells.Bisect | mesh_fracture.c:639-652 | after forty halvings the weight is an end of a range of 20 r^2 / 2^40 whose ends, where moved, undershoot and reach the target |
| MeshCells.BracketHolds | mesh_fracture.c:639-652 | every weight up to the low end undershoots, and every weight from the high end on reaches the target |
| MeshCells.AreaOfCell | mesh_fracture.c:383-392 | the loop adds up the areas of one cell |
| MeshCoalescing.Coalesce | mesh_fracture.c:172-232 | the call takes exactly as many leaves as the subtree has, appends to the core the triangles the walk on values gives, and says whether they are one |
| MeshCoalescing.WalkCovers | mesh_fracture.c:172-232 | each leaf of a subtree is under exactly one triangle if it is the core's, and under none otherwise |
| MeshCoalescing.WalkArea | mesh_fracture.c:193-231 | the triangles have the area of the core leaves |
| MeshCoalescing.WalkFits | mesh_fracture.c:193-231 | every triangle put on the core has the corners of a node of the tree, and stands for exactly that node's leaves |
| MeshCoalescing.WalkGauged | mesh_fracture.c:193-231 | the distances at a triangle's corners are those measured there, and a subtree is single exactly when the distances allow it to collapse |
| MeshCoalescing.SingleIsClear | mesh_fracture.c:183-231 | the triangle that a single subtree leaves has the root's corners, is of the core, and has no corner within the glow |
| MeshCoalescing.CoalesceWithin | mesh_fracture.c:167-232 | a return of 1 means that exactly one triangle was put on the core, with the corners of t and none of them within the glow; what was on the core stays |
| MeshCoalescing.WalkNodes | mesh_fracture.c:193-231 | the triangles are exactly the greatest tree nodes that may collapse, found from the top down by a definition of its own |
| MeshCore.SubdivideAll | mesh_fracture.c:580-590 | the leaves of all source triangles, in order |
| MeshCore.CoalesceCore | mesh_fracture.c:542-563 | the walk over all source triangles takes every leaf once: the running index ends at the number of leaves |
| MeshCore.InLockStep | mesh_fracture.c:172-232 | for each source triangle the walk finds that triangle's own leaves, in order, whatever was written on them since |
| MeshCore.CoreCovers | mesh_fracture.c:542-563 | every core leaf is under exactly one core triangle, and no other leaf is under any |
| MeshCore.CoreKeepsArea | mesh_fracture.c:542-563 | the core's triangles together have the area of cell 0 |
| MeshCore.CoreFits | mesh_fracture.c:193-231 | every core triangle is a node of some source triangle's tree with the distances measured at its corners |
| MeshCore.CoreIsGreatest | mesh_fracture.c:542-563 | the core is made of exactly the greatest such nodes |
| MeshCore.TreeIsWellCut | mesh_fracture.c:118-165 | the cutting tree of the C code is one the walk can rely on: halves share the cut edge and keep the other corners |
| MeshMoments.CutsBalance | mesh_fracture.c:118-148 | the halves of a cut have the triangle's area between them and balance about its middle |
| MeshCore.AllLeavesAddUp | mesh_fracture.c:580-605 | whatever cuts divide between the halves adds up over all leaves to what the hull has |
| MeshMoments.LeavesBalance | mesh_fracture.c:580-605 | the leaves have the hull's area between them and balance about its middle |
| MeshMoments.CoreKeepsMoment | mesh_fracture.c:217-228 | the core put together out of merged triangles balances where its leaves did |
| MeshMoments.CellsBalance | mesh_fracture.c:415-435 | the cells share out the hull's moment |
| MeshFracture.Fracture | mesh_fracture.c:565-679 | a hull with area is always cut up, seeded, weighed and labelled as above; pieces come out if and only if it has area and so has the core; then they are those of the cells, each balancing about its offset, and together they have the hull's area and balance about its middle |
| MeshFracture.ShatteredAddsUp | mesh_fracture.c:592-660 | what the leaves are labelled and measured as has the hull's area and moment between the cells, and the core put together has those of its cell |
| MeshFracture.BuildPiece | mesh_fracture.c:412-440 | a piece has the area of its cell and sits at the cell's area-weighted middle; an empty cell gives none |
| MeshFracture.BuildPieces | mesh_fracture.c:656-678 | the pieces are those of the cells that are not empty, in order, each with its cell's area and its offset where the cell's leaves balance, or none at all without a core |
| MeshFracture.CellsAddUp | mesh_fracture.c:383-392 | the cells share out the area of all leaves |
| MeshFracture.PlaceSeeds | mesh_fracture.c:612-636 | the core's seed is the hull's middle, and each debris seed the leaf under its draw |
| MeshFracture.PickLeaf | mesh_fracture.c:626-636 | the leaf under a draw of area: the areas before it do not reach the draw, and with its own they do, unless it is the last |
| MeshFracture.CoreOfFractured | mesh_fracture.c:656-660 | in every fractured hull, the core is made of the greatest triangles that glow and scorch allow |
| KeyValueRoundTrip.RoundTrip | key_value_parser.c:274-342 | parsing what was written for a table, into any memory, returns 0 and restores every integer field and every C string that is plain |
| KeyValueRoundTrip.RoundTripsExactly | key_value_parser.c:274-342 | it restores all fields if and only if every string ends within its size, is on one line and starts with no space |
| KeyValueRoundTrip.TakesOwnLine | key_value_parser.c:189-272 | a line under a field's key goes to that field and no other |
| KeyValueRoundTrip.LineFrame | key_value_parser.c:252-272 | a parsed line changes nothing outside one field, whose key it carries |
| KeyValueRoundTrip.NeverFails | key_value_parser.c:252-289 | with known types only, no text fails |
| KeyValueRoundTrip.FailsOnUnknown | key_value_parser.c:252-272 | a line fails if and only if the first field to take it has no known type |
| KeyValueRoundTrip.ForeignLine | key_value_parser.c:252-289 | a line under no field's key can stand anywhere in a text without effect |
| KeyValueRoundTrip.NoNulWritten | key_value_parser.c:291-342 | nothing written has a NUL in it, so that it can be parsed as one C string |
| KeyValueReload.Reload | key_value_parser.c:274-342 | writing a table and parsing the text into memory fails nowhere, and restores the fields exactly when all strings are plain |
| KeyValueRoundTrip.AlwaysPlain | key_value_parser.c:57-69 | whatever a string field held, reading back its line leaves a plain string in it |
| KeyValueParser.ParseLines | key_value_parser.c:274-289 | memory and result are those of parsing the text line by line, up to the first failure |
| KeyValueParser.ParseLineWithKey | key_value_parser.c:189-250 | memory and result for one line and one field |
| KeyValueParser.ParseString | key_value_parser.c:57-69 | the value is copied without leading spaces, cut to the field's size, ended, and the rest cleared |
| KeyValueParser.WriteLines | key_value_parser.c:291-342 | the text is one line for each field, in order; the result counts the fields of unknown type |
| KeyValueText.ScanPrint | key_value_parser.c:71-101 | reading the printed number gives the number |
| KeyValueText.ConvertPrinted | key_value_parser.c:136-171 | a word of 1, 2, 4 or 8 bytes, signed or not, printed and read back is the same word |
| KeyValueText.WordRoundTrip | key_value_parser.c:136-171 | bytes of a word put together and taken apart are the same bytes |
| EntityTree.Context.UpdateParent | entity.c:284-321 | the lists stay well formed; the child goes from its old parent's list to the front of the new one's, and nothing else moves; with no free node, or the same parent, nothing changes |
| EntityTree.Context.RemoveEntity | entity.c:263-276 | from any well-formed state, with any cycles of parents: it aborts if and only if the entity is its own parent; else an entity that has children, or no parent, goes with everything below it and the lists of the rest stay well formed; otherwise only its pool bit changes, and well-formedness is lost |
| EntityTree.RemoveFromCycle | entity.c:233-276 | two entities, each the other's parent: removing one removes both |
| EntityTree.RemoveOwnParent | entity.c:246-252 | an entity made its own parent: removing it aborts |
| EntityTree.RemoveLeaf | entity.c:263-276 | a child without children is removed, and no lists at all make the arrays well formed |
| EntityTree.Context.RemoveEntityChildren | entity.c:233-261 | the recursion does to lists and pools what the function Kill does |
| EntityTree.Context.RemoveChildFromParent | entity.c:205-231 | a child in its parent's list is found, and its node leaves the chain and is freed; if the child is not there, nothing changes |
| EntityTree.Context.AddEntity | entity.c:55-114 | the lowest free entity is taken, without parent and children, or -1 comes back if there is none |
| EntityLists.UnlinkKeeps | entity.c:205-231 | unlinking keeps every list a chain without repeats, disjoint from the others, with the child in none |
| EntityLists.PushKeeps | entity.c:309-319 | so does putting an entity in front of a list with a node of no list |
| EntityLists.ClearKeeps | entity.c:241-259 | so does giving up the children of an entity once they have none themselves |
| EntityLists.ChainIsUnique | entity.c:212-230 | the arrays determine the list |
| EntityDescent.KillRemoves | entity.c:233-261 | for an entity with no cycle below it the recursion ends, and takes exactly what is below the entity out of lists and pools, whatever is unlinked on the way |
| EntityDescent.KillListRemoves | entity.c:241-259 | its loop comes to its end, or to the entity itself if that is in its own list, having removed all on the way, though recursive calls unlink nodes from the very list it walks, and it walks through nodes already freed |
| EntityDescent.DeepRemoved | entity.c:241-259 | one pass for a child with children of its own: the books after the call and the two frees |
| EntityDescent.BelowOneChild | entity.c:241-259 | nothing is below two children of one entity |
| EntityChanges.MoveKeeps | entity.c:284-321 | re-parenting keeps lists and node pool well formed, and says where the child is in them |
| EntityRemoval.RemovalEndsIff | entity.c:233-261 | for the entity removed, from any well-formed state, the recursion ends with nothing left below it if and only if it is not its own parent, and else aborts |
| EntityRemoval.RemoveKeeps | entity.c:263-276 | removal frees each entity and each list node at or below the entity and no other; a node is freed twice if and only if its entity has children other than the entity removed and is not a child of it |
| EntityRemoval.RemoveLone | entity.c:263-276 | an entity with neither parent nor children leaves no trace |
| EntityRemoval.Dangling | entity.c:263-276 | after removing a childless entity that has a parent, no lists at all make the arrays well formed |
| EntityChanges.ForestKeptIff | entity.c:284-321 | giving an entity a parent keeps the parents a forest if and only if the parent is not at or below the entity |
| EntityChanges.AddKeeps | entity.c:55-114 | a new entity keeps the lists well formed |
| EntityTree.LowestFree | snis_alloc.c:58-109 | the lowest free index, or -1 if there is none |
| FrustumClip.ClipLine | entity.c:2211-2243 | a return of 1 means that no point of the segment is inside; a return of 0 that no point inside is left out; the points kept are exactly those inside if and only if both new ends are such points, and so they are if no cut was shallow |
| FrustumClip.CutStep | entity.c:2218-2241 | one plane's work leaves out no point inside, and keeps the ends on the segment and inside all planes so far, if not shallow |
| FrustumClip.CutIsInside | entity.c:2233-2240 | a cut leaves both ends inside its plane if and only if the ends' depths differ by no less than the tolerance |
| FrustumClip.ClippingFinds | entity.c:2143-2167 | the parameter found is where the segment meets the plane, or -1 for a shallow cut |
| FrustumClip.RejectIsRight | entity.c:2227-2231 | with both ends outside one plane no point of the original segment is inside |
| FrustumClip.LerpOfLerps | entity.c:2192-2199 | a point of a cut segment is a point of the original |
| FrustumClip.ShallowCutGoesWrong | entity.c:2143-2153 | a segment that is kept although its start is outside, and moved farther out by the shallow cut |
| MersenneTwister.FirstCalls | mtwist.c:34-82 | for every seed and every n, call n returns word 624 + n of the infinite recurrence, tempered |
| MersenneTwister.State.Next | mtwist.c:69-82 | so for any words and any arithmetic on them, from any state reached by calls |
| MersenneTwister.State.Generate | mtwist.c:56-67 | a batch of 624 words is replaced by the next one, in place |
| MersenneTwister.ReplaceStep | mtwist.c:60-66 | each word is made of the right three, though some may be new already |
| MersenneTwister.WordIsX | mtwist.c:45-66 | the C code's arithmetic gives the sequence that the paper defines |
| MersenneTwister.SeedStepFits | mtwist.c:45-50 | the 64-bit product in the seeding never overflows |
| MersenneTwister.RecurIsTwist | mtwist.c:60-65 | the sum that joins two words has no carries, and the conditional exclusive-or is the twist |
| MersenneTwister.TemperUndone | mtwist.c:74-78 | tempering can be undone |
| MersenneTwister.UntemperUndone | mtwist.c:74-78 | and reaches every word: it is one to one on 32-bit words |
| Fleets.RunIsProper | fleet.c:181-273 | after every step of a run each id is in at most one fleet, once, sizes are at most ten and fleets not founded are empty, if and only if new fleets are only led by ids that are in none (or find no room) and only founded fleets are joined |
| Fleets.StepIsSoundIff | fleet.c:181-273 | one step keeps a sound table sound if and only if it is of that kind |
| Fleets.JoinGoesWrong | fleet.c:248-273 | a run of one founding and two joins that leaves an id in two fleets |
| Fleets.FoundedIsProperIff | fleet.c:181-201 | founding a fleet keeps that if and only if the leader is in no fleet, or there is no room |
| Fleets.StepKeepsOrder | fleet.c:226-273 | two ids that stay in a fleet keep their order, whatever is done |
| Fleets.RunKeepsOrder | fleet.c:181-273 | so through a whole run of allowed steps: ids that stay in a fleet from step m to step n are in the same order then |
| Fleets.FleetTable.New | fleet.c:181-201 | from any table, the first empty fleet is used again, else a new one, else -1 |
| Fleets.FleetTable.Join | fleet.c:248-273 | from any table, -1 if the fleet is full, even for a member; else the id's position number, and the id has left the other fleets founded; a sound table stays so if and only if the fleet has been founded |
| Fleets.FleetTable.Leave | fleet.c:226-246 | from any table, the id leaves the first fleet that has it; in a sound one it is then in none, and all others are where they were |
| Fleets.FleetTable.Find | fleet.c:275-283 | the id's first place, or -1 |
| Fleets.FleetTable.MemberId | fleet.c:218-224 | the member's id as a word without sign, or all ones past the end |
| Formations.SquareTable | fleet.c:117-145 | the machine that turns at corners draws the cells of the spiral, for a table of any size |
| Formations.TableIsSpiral | fleet.c:107-145 | after (k + 1)^2 steps the cells are exactly the square of side k + 1, each once, and consecutive ones side by side |
| Formations.NumberOfCell | fleet.c:107-145 | a cell's number can be told from row and column |
| Formations.SquarePosition | fleet.c:99-149 | a ship flies at the cell of its number |
| Formations.TriangleTable.Position | fleet.c:37-92 | after any calls, the spot is that of the position, unless it is 256 and an earlier call was for more; then it is not |
| Formations.PositionGoesWrong | fleet.c:37-92 | calls for positions 257 and then 256 of which the second gets the spot of the first |
| Formations.SpotIsUnique | fleet.c:52-75 | positions and spots belong together one to one, a spot's number being that of its row's first plus its place in the row |
| Formations.TriangularIsHalfProduct | fleet.c:52-75 | the number of a row's first spot is row (row + 1) / 2 |
| Formations.PlacesDiffer | fleet.c:85-91 | so no two ships share a place |
| LiangBarsky.Segment.ClipLine | liang-barsky.c:66-95 | for all inputs: kept if and only if a parameter passes all four tests, or the segment is a point inside; the ends are at tE and tL, between which exactly the parameters lie that pass; if no coordinate moves by less than the tolerance, exactly what FairIsExact says of the closed window; and whatever it moves by, all that is kept is in the window if and only if the new end is |
| LiangBarsky.ClipT | liang-barsky.c:43-64 | the range is cut down to the parameters that pass, and 0 comes back if none does |
| LiangBarsky.FairIsExact | liang-barsky.c:66-95 | if each coordinate stands still or moves by at least the tolerance: a segment is kept if and only if some point of it is in the closed window, save that one along a border is kept only if it is a point; and of a kept one exactly the points in the window are kept |
| LiangBarsky.FairPasses | liang-barsky.c:48-61 | for such segments a parameter passes if and only if its point is in the window and the segment does not run along a border |
| LiangBarsky.BorderIsRejected | liang-barsky.c:48-49 | a segment along a side of the window, all of it in the window, that is rejected |
| LiangBarsky.FairAxis | liang-barsky.c:48-61 | the test for one coordinate means being between the bounds, strictly so if it does not move |
| LiangBarsky.TinyAxisIsRightIff | liang-barsky.c:48-49 | a coordinate that moves by less than the tolerance is judged by its start, which is right if and only if its end is in range too, or out on the same side |
| LiangBarsky.KeptInsideIff | liang-barsky.c:66-95 | of any segment, barely moving or not, all that is kept is in the window if and only if the new end is |
| LiangBarsky.TinyGoesWrong | liang-barsky.c:48-49 | such a segment of which a point outside is kept |
| Bresenham.Line | bline.c:26-73 | the points plotted are those of the line: the longer side plus one of them, each the nearest to the ideal line |
| Bresenham.LineIsConnected | bline.c:26-73 | a line starts and ends where it should, and each point touches the next |
| Bresenham.LineIsUnique | bline.c:26-73 | there is only one such line |
| Bresenham.NearestIsRounded | bline.c:45-57 | its height after k steps is the rounded quotient |
| Bresenham.ErrorStep | bline.c:45-57 | the test of the error term's sign keeps it in its range |
| Bresenham.LineFromOtherEnd | bline.c:26-73 | a line drawn from the other end has the same point for step k if and only if 2 k minor + major is no multiple of 2 major: the ideal height is not half way between two |
| Bresenham.ThereAndBack | bline.c:26-73 | such a line: from (0, 0) to (2, 1) by (1, 1), and back by (1, 0) |
| LensSelection.Select | black_hole_lens.c:85-183 | a hole is chosen if and only if it is eligible and fewer than three beat it; none twice; the farthest first |
| LensSelection.KeepBest | black_hole_lens.c:85-154 | one pass of insertion keeps the best, for any number of slots |
| LensSelection.SortByDistance | black_hole_lens.c:156-175 | the second loop puts the same holes in order of distance, and leaves ties as they were |
| LensSelection.PlacedIff | black_hole_lens.c:140-154 | being in such a list is being beaten by fewer than there are slots |
| LensSelection.RankOfPlace | black_hole_lens.c:140-154 | place p of the list belongs to the hole that exactly p others beat |
| LensSelection.InsertKeepsTop | black_hole_lens.c:145-153 | shifting and writing keeps the list the best, and drops the right one when it is full |

## Left out

- Rounding, NaN and overflow of `float` and `int`: numbers are exact. The places where this matters to a result are `hash3` and the Mersenne Twister, which are modelled in 32-bit words; signed overflow of the factors 31, 37 and 41 in the edge hash of `mesh_fracture.c` wraps.
- Running out of memory, and growing arrays by reallocation: `malloc` and `realloc` succeed. Score and node tables and entity arrays are class fields that hold sequences, so that aliasing between them is not modelled.
- The callbacks of `a_star` are functions of their arguments: they do not keep state between calls.
- AStar.Run: assumes a finite set of at most maxnodes nodes that the search cannot leave, as the assertions in the code do.
- The noise, the tearing of positions and the formula for the distances to a piece's boundary in `mesh_fracture.c`: any functions of position, and of position, seeds and weight, may stand for them.
- Copying vertices, texture coordinates and normals into the meshes of pieces, their names and their upload.
- MeshCuts.Soup.Add: the list grows without end; the doubling of its buffer and the return of -1 when that fails are not modelled.
- MeshFracture.BuildPiece: models area and offset only.
- `float` and `double` fields of `key_value_parser.c`: `%f` loses digits, so that nothing reads back exactly. The model's tables have none.
- KeyValueText.ConvertPrinted: numbers out of range are converted as glibc's `sscanf` does, to the nearest 64-bit integer and then cut down; the C standard leaves this open.
- `key_value_get_value`, `lookup_key_entry` and the printing of tables in `key_value_parser.c`.
- The cycle checker of `entity.c`, which is compiled in for debugging and looks at the new parent even if it is NULL, and `remove_all_entity`.
- The bit blocks and the highest object number of the pool in `snis_alloc.c`: a pool is a sequence of flags.
- All drawing, cameras and matrices in `entity.c`, and the other fields of an entity.
- FrustumClip.ClipLine: for a run with a shallow cut, whether a later plane brings the ends back inside is told from where they come to lie, not from the segment given.
- LiangBarsky.Segment.ClipLine: for a segment with a barely moving coordinate that is rejected, what is lost is said for one coordinate at a time.
- `mtwist_float` and `mtwist_int`: one conversion each.
- The line formation, the turn by the fleet's orientation, and `fleet_position` past the tenth ship of a square, where C would read past its table.
- Fleets.FleetTable.Join: fleet numbers from 10 on, for which C would write past its array.
- `clip_line_copy` in `liang-barsky.c`: it hands over the four coordinates in another order than `clip_line` takes them, so that no clipping law holds of it.
- The projection of holes in `black_hole_lens.c`, the coverage it reports for holes that are not chosen, and the swirl: coverage, Einstein radius and distance are given numbers.
