# Balthazar map graph, modelled in Dafny

Balthazar builds its star map on a hexagonal lattice. A `Graph` keeps three
things:

- a list of nodes: each has an id, a coord and six neighbour slots;
- a list of candidate sites (`PotentialNode`s): each records which of its six
  neighbouring coords hold a node;
- an id counter.

The map generator grows the graph in two stages:

1. It starts with a triangle of three nodes.
2. It then repeatedly picks a candidate and materializes it into a node. The
   pick depends on one of five selection modes, which differ in how strongly
   they prefer well-connected candidates.

Once the graph is grown, the generator deletes random edges.

This project models these parts of the code:

- the lattice geometry (directions, deltas, the direction arithmetic);
- every graph operation, including the generator's two loops;
- the weighted coin flips used by the selection modes;
- the older adjacency-list graph (`US3K_Graph`);
- the unit-count shorthand shown on the system panels and the percentage share
  proposed when sending units.

**How the C# structs are represented.**

- The C# `Node` and `PotentialNode` are structs whose flag and neighbour arrays
  are shared by every copy. The model therefore keeps every node record ever
  built in an arena indexed by id (`store`).
- Neighbours are named by id.
- The live node list is a sequence of ids in list order.

**How the graph code is organised.**

- `BalthazarModel` gives one specification function per operation.
- The `BalthazarGraph.Graph` class runs the source's loops over mutable fields,
  and each method is proved to produce exactly what its specification function
  describes.
- The invariant modules prove what the operations preserve.

**The main results.**

- Every graph the set-up builds is a growing lattice. That means:
  - links are symmetric and spatially consistent;
  - no two live nodes share a coord;
  - every live node has a link;
  - neighbouring live nodes are linked;
  - candidates sit on distinct free coords, and their flags are exact;
  - ids are the list positions.
- Edge loss keeps links symmetric and leaves no live node isolated.
- Materializing the picked candidate always succeeds.

Randomness (`Random.Range`) becomes explicit draws passed as parameters. The
C# 32-bit `int` is modelled explicitly where it matters (wrap-around of the
share, the `int` range of the shorthand's input).

## Model

| member | source | states |
|---|---|---|
| Hex.AddLaws | Assets/Scripts/BalthazarGraph.cs:37-39 | coord addition is commutative and associative, with Zero as identity and negation as inverse |
| Hex.Delta | Assets/Scripts/BalthazarGraph.cs:28-33 | each direction's delta has absolute values of x and y summing to 2, a non-zero x and an even x + y |
| Hex.Opposite | Assets/Scripts/BalthazarGraph.cs:533-535 | the opposite direction is d + 3 mod 6 |
| Hex.Next | Assets/Scripts/BalthazarGraph.cs:538-540 | the next direction round a hexagon is d + 1 mod 6 |
| Hex.Prev | Assets/Scripts/BalthazarGraph.cs:543-545 | the previous direction is d + 5 mod 6 |
| Hex.OutToSideways | Assets/Scripts/BalthazarGraph.cs:548-550 | the sideways direction is d + 2 mod 6 |
| Hex.OppositeInvolutive | Assets/Scripts/BalthazarGraph.cs:533-535 | Opposite is an involution without fixed points |
| Hex.NextPrevInverse | Assets/Scripts/BalthazarGraph.cs:538-545 | Next and Prev undo each other |
| Hex.OutToSidewaysTwoSteps | Assets/Scripts/BalthazarGraph.cs:538-550 | OutToSideways is two Next steps |
| Hex.DeltaOpposite | Assets/Scripts/BalthazarGraph.cs:28-33 | the opposite direction's delta is the negated delta |
| Hex.StepBack | Assets/Scripts/BalthazarGraph.cs:263-280 | a step out and a step in the opposite direction return to the start |
| Hex.NeighboursDistinct | Assets/Scripts/BalthazarGraph.cs:28-33 | the six neighbours of a coord differ from it and from each other |
| Hex.WalkKeepsParity | Assets/Scripts/BalthazarGraph.cs:28-33 | every coord reached from the origin by lattice steps has an even x + y |
| Hex.NeighborCount | Assets/Scripts/BalthazarGraph.cs:117-124 | the count is at most the number of flags, zero exactly when no flag is set, full exactly when all are |
| Hex.CountNeighbors | Assets/Scripts/BalthazarGraph.cs:203-211 | the counting loop returns the number of set flags |
| CSharpInt.Wrap32 | Assets/Scripts/FriendlyUI.cs:122 | the wrapped value is congruent to the exact one mod 2^32 and equal to it inside the int range |
| CSharpInt.TruncDiv | Assets/Scripts/FriendlyUI.cs:122 | C# `/` by a positive divisor rounds toward zero: the quotient times the divisor lies between zero and x, less than one divisor away from x |
| CSharpInt.TruncDivUnique | Assets/Scripts/FriendlyUI.cs:122 | exactly one quotient lies in that bracket, so the bracket defines C# division |
| CSharpInt.TruncDivNegative | Assets/Scripts/FriendlyUI.cs:122 | C# gives -7 / 2 = -3 and -1 / 100 = 0, not the floored -4 and -1 |
| UnitsText.DigitChar | Assets/Scripts/EnemyUI.cs:67 | a digit value prints as the character of that digit |
| UnitsText.Decimal | Assets/Scripts/EnemyUI.cs:67 | `ToString` of a non-negative value is a non-empty string of digits |
| UnitsText.ParseDecimalOfDecimal | Assets/Scripts/EnemyUI.cs:67 | the printed digits read back as the value printed |
| UnitsText.DecimalLength | Assets/Scripts/EnemyUI.cs:63-80 | a value below 10^k prints in at most k digits |
| UnitsText.Shorthand | Assets/Scripts/EnemyUI.cs:63-80 | the shorthand is empty exactly for negative counts and never longer than five characters |
| UnitsText.ShorthandApproximates | Assets/Scripts/FriendlyUI.cs:197-213 | the number the shorthand reads as is at most the count and within the case's resolution (exact below 10000, 100 below 100000, 1000 below a million, a million above) |
| UnitsText.ThousandsWithDecimal | Assets/Scripts/EnemyUI.cs:69-71 | between 10000 and 99999 the shorthand is two digits, a point, one digit and `k` |
| UnitsText.DecimalAtLeast3 | Assets/Scripts/EnemyUI.cs:72-74 | a value of at least 100 prints in at least three digits |
| SendShare.SyncVal | Assets/Scripts/FriendlyUI.cs:169 | toggle index i gives (i + 1) quarters: 25, 50, 75 or 100 |
| SendShare.Share | Assets/Scripts/FriendlyUI.cs:171 | the exact share lies between 0 and the unit count and is the floor of units times percent over 100 |
| SendShare.ShareBound | Assets/Scripts/FriendlyUI.cs:122 | units times a percent up to 100, over 100, lies in 0 .. units |
| SendShare.ShareAsWritten | Assets/Scripts/FriendlyUI.cs:122 | when the 32-bit product of units and percent stays in range, the panel's share is that product over 100 |
| SendShare.ShareAsWrittenInRange | Assets/Scripts/FriendlyUI.cs:122 | up to 21474836 units the panel's 32-bit arithmetic gives the exact share, within 0 .. units |
| SendShare.ShareAsWrittenOverflows | Assets/Scripts/FriendlyUI.cs:171 | at 21474837 units and the full toggle the panel's share is negative while the exact share is all units |
| US3KGraph.Node.constructor | Assets/Scripts/US3K_Graph.cs:13-17 | a new node has the given id and empty neighbour and cost lists |
| US3KGraph.Node.ConnectTo | Assets/Scripts/US3K_Graph.cs:27-33 | each end gains the other and the same weight at the end of its lists; a self-link appends itself twice |
| US3KGraph.Node.ConnectToUnweighted | Assets/Scripts/US3K_Graph.cs:36-42 | the same edge with weight 0 on both sides |
| US3KGraph.Graph.constructor | Assets/Scripts/US3K_Graph.cs:51-54 | the graph holds the given counter and list |
| US3KGraph.Graph.AddNodes | Assets/Scripts/US3K_Graph.cs:57-62 | exactly max(k, 0) fresh nodes with consecutive ids from the old counter are appended; lockstep lists, symmetry and ids-as-indices are preserved |
| US3KGraph.Graph.GetNode | Assets/Scripts/US3K_Graph.cs:65-67 | returns the node at the list position, whose id is that position when ids are indices |
| US3KGraph.Graph.LinkNodes | Assets/Scripts/US3K_Graph.cs:75-77 | appends the edge with its weight to both endpoints (twice to one node for a self-link), touches no other node and keeps the list, lockstep lists and symmetry |
| US3KGraph.Graph.LinkNodesUnweighted | Assets/Scripts/US3K_Graph.cs:70-72 | the same with weight 0 |
| US3KGraph.Graph.AddedCount | Assets/Scripts/US3K_Graph.cs:27-33 | one edge adds y to x's list once for each end of the edge that x and y sit on |
| US3KGraph.Graph.EdgeKeepsSymmetry | Assets/Scripts/US3K_Graph.cs:75-77 | appending both ends of one edge keeps every pair listed as often in one direction as in the other |
| US3KGraph.Graph.FreshKeepsSymmetry | Assets/Scripts/US3K_Graph.cs:57-62 | a node no list names, joining with an empty list, keeps the lists symmetric |
| WeightedDraw.Random01WeightedAsWritten | Assets/Scripts/BalthazarGraph.cs:559-562 | the flip as written gives 1 exactly when the draw is strictly above percent0 |
| WeightedDraw.Random01Weighted | Assets/Scripts/BalthazarGraph.cs:559-562 | the intended flip gives 1 exactly when the draw is at least percent0 |
| WeightedDraw.RandomWeightedAsWritten | Assets/Scripts/BalthazarGraph.cs:553-556 | the choice as written gives a exactly for draws strictly above percent0 |
| WeightedDraw.RandomWeighted | Assets/Scripts/BalthazarGraph.cs:553-556 | the intended choice gives a exactly for draws below percent0 |
| WeightedDraw.OnesAsWrittenCount | Assets/Scripts/BalthazarGraph.cs:559-562 | of the draws 0 .. k-1, the flip as written gives 1 for k - percent0 - 1 of them (none up to percent0) |
| WeightedDraw.OnesCount | Assets/Scripts/BalthazarGraph.cs:559-562 | of the draws 0 .. k-1, the intended flip gives 1 for k - percent0 of them |
| WeightedDraw.FirstsAsWrittenCount | Assets/Scripts/BalthazarGraph.cs:553-556 | of the draws 0 .. k-1, the choice as written gives a for k - percent0 - 1 of them |
| WeightedDraw.FirstsCount | Assets/Scripts/BalthazarGraph.cs:553-556 | of the draws 0 .. k-1, the intended choice gives a for min(k, percent0) of them |
| WeightedDraw.Random01WeightedAsWrittenOffByOne | Assets/Scripts/BalthazarGraph.cs:559-562 | over the full draw range the flip as written gives 1 for percent1 - 1 draws, not percent1 |
| WeightedDraw.Random01WeightedShare | Assets/Scripts/BalthazarGraph.cs:559-562 | over the full draw range the intended flip gives 1 for exactly percent1 draws |
| WeightedDraw.RandomWeightedAsWrittenSkewed | Assets/Scripts/BalthazarGraph.cs:553-556 | over the full range the choice as written gives a for percent1 - 1 draws instead of percent0 |
| WeightedDraw.RandomWeightedShare | Assets/Scripts/BalthazarGraph.cs:553-556 | over the full range the intended choice gives a for exactly percent0 draws |
| BalthazarModel.NodeAt | Assets/Scripts/BalthazarGraph.cs:375-383 | the lookup is -1 exactly when no live node is at c, and otherwise names the last live node at c |
| BalthazarModel.SiteIndex | Assets/Scripts/BalthazarGraph.cs:448-455 | the lookup is -1 exactly when no candidate is at c, and otherwise the first candidate at c |
| BalthazarModel.LinkUpTo | Assets/Scripts/BalthazarGraph.cs:477-489 | the linking loop keeps the arena's size and every record's shape |
| BalthazarModel.LinkedShape | Assets/Scripts/BalthazarGraph.cs:519-530 | linking keeps the arena's size and every record's shape |
| BalthazarModel.WithTriangle | Assets/Scripts/BalthazarGraph.cs:425-435 | the first triangle adds three records and keeps the graph well formed |
| BalthazarModel.WithNodesShape | Assets/Scripts/BalthazarGraph.cs:292-296 | adding k nodes lengthens the list by max(k, 0) and keeps the graph well formed |
| BalthazarModel.FirstGapUpTo | Assets/Scripts/BalthazarGraph.cs:483-487 | `fpn` is -1 or a direction |
| BalthazarModel.LastGapUpTo | Assets/Scripts/BalthazarGraph.cs:480-482 | `lpn` is -1 or a direction |
| BalthazarModel.Placed | Assets/Scripts/BalthazarGraph.cs:468-491 | placing the node spends exactly one id and keeps the graph well formed |
| BalthazarModel.Materialized | Assets/Scripts/BalthazarGraph.cs:468-502 | materializing spends exactly one id, keeps the graph well formed, and succeeds exactly when a candidate is at c |
| BalthazarModel.RemoveSiteShape | Assets/Scripts/BalthazarGraph.cs:470 | removing a candidate keeps every remaining candidate well shaped |
| BalthazarModel.RefreshedShape | Assets/Scripts/BalthazarGraph.cs:494-496 | re-deriving every candidate keeps the graph well formed |
| BalthazarModel.HexedShape | Assets/Scripts/BalthazarGraph.cs:386-397 | a derived candidate names only ids of the arena |
| BalthazarModel.WithSiteShape | Assets/Scripts/BalthazarGraph.cs:400-417 | adding a candidate keeps the graph well formed |
| BalthazarModel.EdgeIndex | Assets/Scripts/BalthazarGraph.cs:332-340 | the edge scan finds the first direction flagged towards n2, and -1 exactly when there is none |
| BalthazarModel.EdgeIndexFrom | Assets/Scripts/BalthazarGraph.cs:334-338 | the scan from direction k finds the first flagged link to n2 at or after k |
| BalthazarModel.IdIndex | Assets/Scripts/BalthazarGraph.cs:326 | the lookup is -1 exactly when the id is not listed, and otherwise its first position |
| BalthazarModel.DeletedNodeUpTo | Assets/Scripts/BalthazarGraph.cs:316-322 | the loop of `DeleteNode` keeps the graph well formed, the arena's size and the candidates |
| BalthazarModel.RemoveIdMembers | Assets/Scripts/BalthazarGraph.cs:325-327 | `nodes.Remove` removes one entry exactly when the id is listed and adds none |
| BalthazarModel.DeletedEdgeShape | Assets/Scripts/BalthazarGraph.cs:331-356 | deleting an edge keeps the graph well formed, the arena's size, the candidates and the counter |
| BalthazarModel.Hexed | Assets/Scripts/BalthazarGraph.cs:386-397 | the derived candidate keeps its coord and every flag already set, and each flag it newly sets names a live node one step away in that direction |
| BalthazarModel.Merged | Assets/Scripts/BalthazarGraph.cs:364-373 | the merged candidate sits at intoThis's coord, a flag is set exactly when either side sets it, and a set flag names mergeThis's neighbour where mergeThis flags it and intoThis's otherwise |
| BalthazarModel.RemoveSite | Assets/Scripts/BalthazarGraph.cs:470 | removing drops exactly one candidate when one is at c and changes nothing otherwise |
| BalthazarModel.InsertSite | Assets/Scripts/BalthazarGraph.cs:407-416 | the list grows by at most one and afterwards holds a candidate at the new coord |
| BalthazarModel.WithSite | Assets/Scripts/BalthazarGraph.cs:400-417 | adding a candidate touches neither the nodes, nor the arena, nor the counter, and leaves a candidate at the coord beyond n in dir |
| BalthazarModel.Refreshed | Assets/Scripts/BalthazarGraph.cs:494-496 | re-deriving keeps the number of candidates and the coord of each |
| BalthazarModel.WithNode | Assets/Scripts/BalthazarGraph.cs:299-303 | adding a node appends the old counter to the list, adds one record, advances the counter and keeps the candidates |
| BalthazarModel.WithNodes | Assets/Scripts/BalthazarGraph.cs:292-296 | adding k nodes lengthens the list and the arena and advances the counter by max(k, 0), keeping the candidates |
| BalthazarModel.Linked | Assets/Scripts/BalthazarGraph.cs:519-530 | after linking, n1 flags d naming n2, n2 flags the opposite direction naming n1, n2 sits one step from c1 in direction d, and the arena keeps its size and shapes |
| BalthazarModel.LinkedAt | Assets/Scripts/BalthazarGraph.cs:505-511 | linking by list positions keeps the lists and counter, puts the second node one step from the first, and makes each name the other in opposite directions |
| BalthazarModel.RemoveId | Assets/Scripts/BalthazarGraph.cs:325-327 | `nodes.Remove` shortens the list by one when the id is listed and changes nothing otherwise |
| BalthazarModel.Cleared | Assets/Scripts/BalthazarGraph.cs:347-353 | clearing a flag unsets exactly that flag and keeps the coord, the neighbour ids and every other flag |
| BalthazarModel.DeletedEdge | Assets/Scripts/BalthazarGraph.cs:331-356 | with no edge from n1 to n2 nothing changes; otherwise n2's flag back towards n1 is cleared; the candidates, the counter and the arena's size stay |
| BalthazarModel.DeletedEdgeNodes | Assets/Scripts/BalthazarGraph.cs:331-356 | deleting an edge only drops ids from the list |
| BalthazarModel.DeletedEdgeRecs | Assets/Scripts/BalthazarGraph.cs:347-353 | deleting an edge keeps every record's shape |
| BalthazarModel.MinConUpTo | Assets/Scripts/BalthazarGraph.cs:567-574 | `minCon` after scanning k candidates is at most 7 and at most each scanned count |
| BalthazarModel.MaxConUpTo | Assets/Scripts/BalthazarGraph.cs:567-574 | `maxCon` after scanning k candidates is at least 0 and at least each scanned count |
| BalthazarModel.Bounds | Assets/Scripts/BalthazarGraph.cs:565-574 | `Random` mode keeps the start values 7 and 0; every other mode's bounds enclose every candidate's count |
| BalthazarModel.Admits | Assets/Scripts/BalthazarGraph.cs:577-609 | the extreme count always enters in the modes that target it; the semi modes admit nothing further than one from the extreme, and one away enters exactly when the draw is above 60 |
| BalthazarModel.PoolUpTo | Assets/Scripts/BalthazarGraph.cs:577-609 | the pool from k candidates has at most k entries, all among them |
| BalthazarModel.Pool | Assets/Scripts/BalthazarGraph.cs:565-609 | in `Random` mode the pool is the candidate list; otherwise it is no longer than the list and holds only candidates |
| BalthazarModel.Picked | Assets/Scripts/BalthazarGraph.cs:565-611 | with no candidates there is no pick, and a pick is always the coord of a candidate |
| BalthazarGraph.Graph.constructor | Assets/Scripts/BalthazarGraph.cs:284-289 | a new graph is empty with counter 0 |
| BalthazarGraph.Graph.AddNode | Assets/Scripts/BalthazarGraph.cs:299-303 | a blank node with the next id is appended and the counter advances |
| BalthazarGraph.Graph.AddNodes | Assets/Scripts/BalthazarGraph.cs:292-296 | the loop leaves the state of k node additions |
| BalthazarGraph.Graph.AddExistingNode | Assets/Scripts/BalthazarGraph.cs:306-308 | the node is appended to the list and nothing else changes |
| BalthazarGraph.Graph.ShredNode | Assets/Scripts/BalthazarGraph.cs:325-327 | the first entry with the id leaves the list and nothing else changes |
| BalthazarGraph.Graph.DeleteEdge | Assets/Scripts/BalthazarGraph.cs:331-356 | the scan and clears leave exactly the state of the edge deletion |
| BalthazarGraph.Graph.ScanEdge | Assets/Scripts/BalthazarGraph.cs:332-340 | finds an edge exactly when n1 flags a direction naming n2, and then stops at the first such direction |
| BalthazarGraph.Graph.DeleteEdgeAt | Assets/Scripts/BalthazarGraph.cs:359-361 | the edge deletion between the nodes at two list positions |
| BalthazarGraph.Graph.DeleteNode | Assets/Scripts/BalthazarGraph.cs:316-322 | the loop leaves exactly the state of six steps of deleting n's remaining edges |
| BalthazarGraph.Graph.DeleteNodeAt | Assets/Scripts/BalthazarGraph.cs:311-313 | the node deletion of the node at a list position |
| BalthazarGraph.Graph.MergePotentialNodes | Assets/Scripts/BalthazarGraph.cs:364-373 | the loop returns the flags OR-ed, taking mergeThis's neighbours where it is flagged |
| BalthazarGraph.Graph.FindNodeAtCoord | Assets/Scripts/BalthazarGraph.cs:375-383 | the scan returns the last live node at c and reports whether one was found |
| BalthazarGraph.Graph.HexPotentialNode | Assets/Scripts/BalthazarGraph.cs:386-397 | the loop sets each flag towards a live node, naming it, and keeps the rest |
| BalthazarGraph.Graph.AddPotentialNode | Assets/Scripts/BalthazarGraph.cs:400-417 | the candidate beyond n in dir is derived and merged into every candidate at its coord, or appended |
| BalthazarGraph.Graph.MergeOrAppend | Assets/Scripts/BalthazarGraph.cs:407-416 | the list loop merges into every candidate at the coord and appends only when none is there |
| BalthazarGraph.Graph.AddPotentialNodeAt | Assets/Scripts/BalthazarGraph.cs:420-422 | the same for the node at a list position |
| BalthazarGraph.Graph.LinkNodesRef | Assets/Scripts/BalthazarGraph.cs:519-530 | flags d on n1 and Opposite(d) on n2, each naming the other, and moves n2 one step from n1's coord; nothing else changes |
| BalthazarGraph.Graph.LinkNodes | Assets/Scripts/BalthazarGraph.cs:505-511 | the link between the nodes at two list positions |
| BalthazarGraph.Graph.GenerateFirstTriangle | Assets/Scripts/BalthazarGraph.cs:425-435 | the calls leave exactly the state of the first triangle |
| BalthazarGraph.Graph.FindPotentialNode | Assets/Scripts/BalthazarGraph.cs:448-455 | returns the first candidate at c when there is one, and otherwise the default candidate with no arrays |
| BalthazarGraph.Graph.MaterializePotentialNode | Assets/Scripts/BalthazarGraph.cs:468-502 | leaves exactly the state of the materialization, and succeeds exactly when it does |
| BalthazarGraph.Graph.LinkAround | Assets/Scripts/BalthazarGraph.cs:474-489 | links every neighbour the candidate flags to the new node and notes the first and last gap; the lists and counter are untouched |
| BalthazarGraph.Graph.RefreshPotentialNodes | Assets/Scripts/BalthazarGraph.cs:494-496 | every candidate is re-derived in place; nothing else changes |
| BalthazarGraph.Graph.MaterializePotentialNodeAt | Assets/Scripts/BalthazarGraph.cs:458-460 | the materialization of the coord beyond the node at a list position |
| BalthazarGraph.Graph.PickPotentialNode | Assets/Scripts/BalthazarGraph.cs:565-611 | the bounds scan and the filter loops return exactly the picked candidate's coord; the semi modes let a candidate one away from the extreme into the pool only when its draw is above 60, as the flip is written |
| BalthazarGraph.Graph.ScanCounts | Assets/Scripts/BalthazarGraph.cs:567-574 | the fewest and the most neighbouring nodes over all candidates, from the start values 7 and 0 |
| BalthazarGraph.Graph.Filter | Assets/Scripts/BalthazarGraph.cs:577-609 | the candidates the mode admits against the scanned bounds, in list order; in the semi modes a candidate one away from the extreme enters exactly when its draw is above 60, as the flip is written |
| BalthazarInvariants.LinkUpToOthers | Assets/Scripts/BalthazarGraph.cs:477-489 | during the linking loop an older node keeps its coord and gains exactly the back-links aimed at it |
| BalthazarInvariants.LinkUpToOtherAt | Assets/Scripts/BalthazarGraph.cs:477-489 | one slot of an older node: flagged after the loop exactly when it was before or a step named the node from the opposite direction |
| BalthazarInvariants.LinkStepOther | Assets/Scripts/BalthazarGraph.cs:479 | one link step changes an older node only when it names that node, setting the opposite slot to the new id; the coord stays |
| BalthazarInvariants.LinkUpToNew | Assets/Scripts/BalthazarGraph.cs:477-489 | during the linking loop the new node gains exactly the candidate's flags and neighbours seen so far |
| BalthazarInvariants.LinkUpToNewLinks | Assets/Scripts/BalthazarGraph.cs:477-489 | the new node holds a link in exactly the flagged directions passed so far, to the candidate's neighbour there |
| BalthazarInvariants.LinkUpToNewCoord | Assets/Scripts/BalthazarGraph.cs:477-489 | the new node sits at the candidate's coord once a flagged direction was passed |
| BalthazarInvariants.LinkStepNew | Assets/Scripts/BalthazarGraph.cs:479 | one link step gives the new node the link of that direction and moves it to the candidate's coord |
| BalthazarInvariants.PlacedNew | Assets/Scripts/BalthazarGraph.cs:472-491 | the new node is the next id, appended, at c, flagged exactly like the candidate and naming its neighbours |
| BalthazarInvariants.PlacedAppends | Assets/Scripts/BalthazarGraph.cs:472-491 | placing appends the next id to the list, with its record at c |
| BalthazarInvariants.PlacedOld | Assets/Scripts/BalthazarGraph.cs:477-479 | an older node keeps its coord and gains only the back-links to the new node |
| BalthazarInvariants.PlacedCoords | Assets/Scripts/BalthazarGraph.cs:477-479 | no older node moves |
| BalthazarInvariants.PlacedOccupied | Assets/Scripts/BalthazarGraph.cs:468-491 | after placing, exactly one more coord is occupied, c |
| BalthazarInvariants.PlacedOccupiedKept | Assets/Scripts/BalthazarGraph.cs:468-491 | every coord occupied before placing, and c, is occupied after |
| BalthazarInvariants.PlacedOccupiedOnly | Assets/Scripts/BalthazarGraph.cs:468-491 | a coord occupied after placing was occupied before or is c |
| BalthazarInvariants.PlacedMutualOld | Assets/Scripts/BalthazarGraph.cs:477-479 | every link of an older live node is matched by its partner's back-link after placing |
| BalthazarInvariants.PlacedBackLink | Assets/Scripts/BalthazarGraph.cs:479 | a back-link to the new node is matched |
| BalthazarInvariants.PlacedKeptLink | Assets/Scripts/BalthazarGraph.cs:479 | a link an older node already had stays matched |
| BalthazarInvariants.NoHitOnPartner | Assets/Scripts/BalthazarGraph.cs:477-479 | the linking loop never reaches an existing link's partner in that link's own direction, as the live node would then sit on the free coord |
| BalthazarInvariants.PlacedMutualNew | Assets/Scripts/BalthazarGraph.cs:479 | every link of the new node is matched |
| BalthazarInvariants.PlacedLinkage | Assets/Scripts/BalthazarGraph.cs:468-491 | placing keeps links symmetric and spatially consistent and ids and coords distinct |
| BalthazarInvariants.PlacedNoIsolated | Assets/Scripts/BalthazarGraph.cs:468-491 | placing leaves no live node without a link |
| BalthazarInvariants.PlacedComplete | Assets/Scripts/BalthazarGraph.cs:468-491 | placing links the new node to every live node around c |
| BalthazarInvariants.SitesOnly | Assets/Scripts/BalthazarGraph.cs:494-496 | replacing the candidate list changes no node fact |
| BalthazarInvariants.HexedExact | Assets/Scripts/BalthazarGraph.cs:386-397 | deriving a candidate never clears a flag and makes every flag exact: set exactly towards live nodes, naming the node there |
| BalthazarInvariants.RemoveSiteEntries | Assets/Scripts/BalthazarGraph.cs:470 | removing the candidate at c keeps the others in order and leaves none at c |
| BalthazarInvariants.RefreshedSiteOk | Assets/Scripts/BalthazarGraph.cs:494-496 | each remaining candidate, re-derived, is free, next to a live node and exact |
| BalthazarInvariants.PlacedKeepsSite | Assets/Scripts/BalthazarGraph.cs:468-491 | a sound candidate away from c stays free after placing and its flags still point at live nodes |
| BalthazarInvariants.HexedOk | Assets/Scripts/BalthazarGraph.cs:386-397 | re-deriving a free flagged candidate whose flags point at live nodes leaves it exact, free and flagged |
| BalthazarInvariants.RefreshedCoords | Assets/Scripts/BalthazarGraph.cs:494-496 | re-deriving the candidates moves none: coords stay distinct and a coord without a candidate stays without one |
| BalthazarInvariants.SitesGrowth | Assets/Scripts/BalthazarGraph.cs:494-496 | a lattice with distinct, exact, free candidates next to live nodes is a growing lattice |
| BalthazarInvariants.RefreshedOk | Assets/Scripts/BalthazarGraph.cs:494-496 | after placing, the re-derived candidate list makes the graph a growing lattice again |
| BalthazarInvariants.MergedOk | Assets/Scripts/BalthazarGraph.cs:364-373 | merging an exact candidate into a sound one at the same coord gives a sound one |
| BalthazarInvariants.NewSiteOk | Assets/Scripts/BalthazarGraph.cs:400-405 | the candidate built towards a free coord is sound and flagged back towards n |
| BalthazarInvariants.InsertSiteEntries | Assets/Scripts/BalthazarGraph.cs:407-416 | after the list loop each entry is the merged one at the coord or unchanged, with pn appended only when none was there |
| BalthazarInvariants.InsertSiteAt | Assets/Scripts/BalthazarGraph.cs:407-416 | the first candidate at the new coord is the new one or the new one merged into the old; every other candidate is as it was |
| BalthazarInvariants.InsertSiteOk | Assets/Scripts/BalthazarGraph.cs:407-416 | merging or appending an exact candidate into exact candidates leaves every candidate exact |
| BalthazarInvariants.InsertSiteDistinct | Assets/Scripts/BalthazarGraph.cs:407-416 | the candidates' coords stay distinct |
| BalthazarInvariants.WithSiteGrowth | Assets/Scripts/BalthazarGraph.cs:400-417 | adding a candidate towards a free coord keeps a growing lattice growing |
| BalthazarInvariants.WithSiteAt | Assets/Scripts/BalthazarGraph.cs:400-417 | afterwards a candidate is at that coord flagged back towards n, and every other candidate is unchanged |
| BalthazarInvariants.FirstGapFacts | Assets/Scripts/BalthazarGraph.cs:483-487 | `fpn` is an unflagged direction just before a flagged one, and -1 exactly when every flagged direction seen has a flagged predecessor |
| BalthazarInvariants.LastGapFacts | Assets/Scripts/BalthazarGraph.cs:480-482 | `lpn` is an unflagged direction just after a flagged one, and -1 exactly when every flagged direction seen has a flagged successor |
| BalthazarInvariants.GapsExist | Assets/Scripts/BalthazarGraph.cs:477-489 | for a candidate with a neighbour, both gaps are found unless all six flags are set |
| BalthazarInvariants.FreeAfterPlacing | Assets/Scripts/BalthazarGraph.cs:498-501 | a direction the candidate did not flag still leads to a free coord after placing |
| BalthazarInvariants.InsertSiteKeeps | Assets/Scripts/BalthazarGraph.cs:407-416 | adding a candidate never removes one |
| BalthazarInvariants.NoSiteWhereOccupied | Assets/Scripts/BalthazarGraph.cs:468-502 | a growing lattice has no candidate at an occupied coord |
| BalthazarInvariants.GapStep | Assets/Scripts/BalthazarGraph.cs:498-501 | each closing `AddPotentialNode` keeps a growing lattice growing and the new node in place |
| BalthazarInvariants.MaterializedGrowth | Assets/Scripts/BalthazarGraph.cs:468-502 | with a candidate at c, materializing succeeds and keeps a growing lattice growing; the new node is the next id, at c, flagged like the candidate; no candidate stays at c; one waits beyond each gap found; every other candidate is an old one away from c or sits beyond one of those gaps, so at most two are new, both next to the new node |
| BalthazarInvariants.GapCoords | Assets/Scripts/BalthazarGraph.cs:498-501 | the coords beyond the two gaps found form a set of at most two, holding a coord exactly when it lies beyond a found gap |
| BalthazarInvariants.MaterializedSites | Assets/Scripts/BalthazarGraph.cs:468-502 | after materializing, the candidate list is at most one longer, and each candidate is an old one away from c or sits beyond a gap |
| BalthazarInvariants.RefreshedFrom | Assets/Scripts/BalthazarGraph.cs:494-496 | after placing and re-deriving, the list is one shorter and holds only old candidates away from c |
| BalthazarInvariants.GapKeepsFrom | Assets/Scripts/BalthazarGraph.cs:498-501 | a closing `AddPotentialNode` beyond a gap keeps the nodes and the arena, adds at most one candidate and only beyond a gap |
| BalthazarInvariants.InsertKeepsFrom | Assets/Scripts/BalthazarGraph.cs:407-416 | merging or appending a candidate beyond a gap adds at most one entry and keeps every entry old or beyond a gap |
| BalthazarInvariants.InsertSiteCoords | Assets/Scripts/BalthazarGraph.cs:407-416 | the list loop adds at most one entry, and each entry has the new coord or the coord of the old entry at its position |
| BalthazarInvariants.LatticeStoreGrows | Assets/Scripts/BalthazarGraph.cs:472 | spending an id on a node that never joins the list keeps a lattice |
| BalthazarInvariants.GrowthStoreGrows | Assets/Scripts/BalthazarGraph.cs:472 | the same for a growing lattice |
| BalthazarInvariants.GrowthDropSite | Assets/Scripts/BalthazarGraph.cs:470 | dropping a candidate keeps a growing lattice growing, leaves none at that coord and shortens the list by one exactly when one was there |
| BalthazarInvariants.MaterializedMissing | Assets/Scripts/BalthazarGraph.cs:448-472 | with no candidate at c, materializing fails, spends an id, adds no node, drops the candidate at (0,0) if any, and keeps a growing lattice growing |
| BalthazarTriangle.LinkStage1 | Assets/Scripts/BalthazarGraph.cs:428 | the first link puts node 1 at (1,1) linked UR of node 0 |
| BalthazarTriangle.LinkStage2 | Assets/Scripts/BalthazarGraph.cs:429 | the second link puts node 2 at (2,0) linked DR of node 1 |
| BalthazarTriangle.LinkStage3 | Assets/Scripts/BalthazarGraph.cs:430 | the third link joins node 0 to node 2 to the R |
| BalthazarTriangle.TriangleNodeAt | Assets/Scripts/BalthazarGraph.cs:375-383 | the node lookup on the triangle finds nodes 0, 1, 2 at their three coords and nothing elsewhere |
| BalthazarTriangle.HexedSite0 | Assets/Scripts/BalthazarGraph.cs:432 | the candidate up-left of node 0 is at (-1,1) flagged towards nodes 0 and 1 |
| BalthazarTriangle.HexedSite1 | Assets/Scripts/BalthazarGraph.cs:433 | the candidate right of node 1 is at (3,1) flagged towards nodes 1 and 2 |
| BalthazarTriangle.HexedSite2 | Assets/Scripts/BalthazarGraph.cs:434 | the candidate down-left of node 2 is at (1,-1) flagged towards nodes 0 and 2 |
| BalthazarTriangle.TriangleUpTo | Assets/Scripts/BalthazarGraph.cs:432-434 | the triangle with its first k candidates is well formed, and with all three is the finished triangle |
| BalthazarTriangle.SiteStep0 | Assets/Scripts/BalthazarGraph.cs:432 | the first candidate call appends the first candidate |
| BalthazarTriangle.SiteStep1 | Assets/Scripts/BalthazarGraph.cs:433 | the second appends the second |
| BalthazarTriangle.SiteStep2 | Assets/Scripts/BalthazarGraph.cs:434 | the third appends the third |
| BalthazarTriangle.ThreeNodes | Assets/Scripts/BalthazarGraph.cs:426 | `AddNodes(3)` on a fresh graph gives three blank nodes with ids 0, 1, 2 |
| BalthazarTriangle.LinkedAtStage1 | Assets/Scripts/BalthazarGraph.cs:428 | the first `LinkNodes` call gives the first link stage |
| BalthazarTriangle.LinkedAtStage2 | Assets/Scripts/BalthazarGraph.cs:429 | the second call gives the second stage |
| BalthazarTriangle.ThirdLinkStore | Assets/Scripts/BalthazarGraph.cs:430 | the third `LinkNodes` call changes only the arena of the staged graph |
| BalthazarTriangle.LinkedAtStage3 | Assets/Scripts/BalthazarGraph.cs:430 | the third call gives the finished links |
| BalthazarTriangle.TriangleValue | Assets/Scripts/BalthazarGraph.cs:425-435 | on a fresh graph the first triangle is nodes 0, 1, 2 at (0,0), (1,1), (2,0), pairwise linked, with candidates at (-1,1), (3,1), (1,-1) flagged twice each, and counter 3 |
| BalthazarTriangle.TriLink | Assets/Scripts/BalthazarGraph.cs:428-430 | a triangle link names a triangle node or none |
| BalthazarTriangle.TriSiteLink | Assets/Scripts/BalthazarGraph.cs:432-434 | a triangle candidate's flag names a triangle node or none |
| BalthazarTriangle.TriRec | Assets/Scripts/BalthazarGraph.cs:428-430 | node k's record is flagged exactly where the link rule names a node, naming it |
| BalthazarTriangle.TriSite | Assets/Scripts/BalthazarGraph.cs:432-434 | candidate k is flagged exactly where the rule names a node, naming it |
| BalthazarTriangle.Triangle | Assets/Scripts/BalthazarGraph.cs:425-435 | the triangle stated by rules is well formed |
| BalthazarTriangle.TriRecRule | Assets/Scripts/BalthazarGraph.cs:428-430 | the rule's node records are the triangle's |
| BalthazarTriangle.TriSiteRule | Assets/Scripts/BalthazarGraph.cs:432-434 | the rule's candidates are the triangle's |
| BalthazarTriangle.TriangleRule | Assets/Scripts/BalthazarGraph.cs:425-435 | the triangle stated by rules is the literal triangle |
| BalthazarTriangle.TriLinkStep | Assets/Scripts/BalthazarGraph.cs:428-430 | node k is linked in direction d exactly to the triangle node one step away |
| BalthazarTriangle.TriSiteStep | Assets/Scripts/BalthazarGraph.cs:432-434 | candidate k is flagged in direction d exactly towards the triangle node one step away |
| BalthazarTriangle.TriLinkBack | Assets/Scripts/BalthazarGraph.cs:428-430 | each triangle link is matched by the opposite one |
| BalthazarTriangle.TriangleOccupied | Assets/Scripts/BalthazarGraph.cs:425-430 | the triangle occupies exactly its three coords |
| BalthazarTriangle.TriangleMutual | Assets/Scripts/BalthazarGraph.cs:428-430 | every triangle link is mutual and one step long |
| BalthazarTriangle.TriangleComplete | Assets/Scripts/BalthazarGraph.cs:428-430 | neighbouring triangle nodes are linked |
| BalthazarTriangle.TriangleLinkage | Assets/Scripts/BalthazarGraph.cs:425-430 | the triangle's links are symmetric and its ids and coords distinct |
| BalthazarTriangle.TriangleLattice | Assets/Scripts/BalthazarGraph.cs:425-430 | the triangle is a lattice |
| BalthazarTriangle.TriangleFlag | Assets/Scripts/BalthazarGraph.cs:432-434 | each triangle candidate's flags are exact |
| BalthazarTriangle.TriangleSiteOk | Assets/Scripts/BalthazarGraph.cs:432-434 | each triangle candidate is free, next to a node and exact |
| BalthazarTriangle.TriangleGrowsRule | Assets/Scripts/BalthazarGraph.cs:425-435 | the triangle is a growing lattice |
| BalthazarTriangle.TriangleIsRule | Assets/Scripts/BalthazarGraph.cs:425-435 | the first triangle on a fresh graph is the triangle stated by rules |
| BalthazarTriangle.TriangleGrowth | Assets/Scripts/BalthazarGraph.cs:425-435 | the first triangle on a fresh graph is a growing lattice |
| BalthazarDeletion.RemoveIdAt | Assets/Scripts/BalthazarGraph.cs:326 | after `nodes.Remove` the entries before the removed one stay and the later ones move down one place |
| BalthazarDeletion.RemoveIdDistinct | Assets/Scripts/BalthazarGraph.cs:325-327 | on a list without repeats, `nodes.Remove` removes exactly that id and keeps the list without repeats |
| BalthazarDeletion.SameCoordSameNode | Assets/Scripts/BalthazarGraph.cs:375-383 | live nodes at the same coord are the same node |
| BalthazarDeletion.EdgeOfLive | Assets/Scripts/BalthazarGraph.cs:332-340 | an edge the scan finds from a live node leads to another live node that links back in the opposite direction |
| BalthazarDeletion.DeletedEdgeEffect | Assets/Scripts/BalthazarGraph.cs:331-356 | with no edge nothing changes; otherwise both flags of the edge are cleared and exactly the endpoints left without a link leave the list |
| BalthazarDeletion.DeletedEdgeStore | Assets/Scripts/BalthazarGraph.cs:347-353 | an edge of a live node joins two distinct ids, and the cut clears exactly its flag at each end |
| BalthazarDeletion.DeletedEdgeStays | Assets/Scripts/BalthazarGraph.cs:331-356 | deleting an edge moves no node and lists no node that was not listed |
| BalthazarDeletion.DeletedEdgeLinkage | Assets/Scripts/BalthazarGraph.cs:331-356 | deleting an edge keeps links symmetric and leaves no live node isolated |
| BalthazarDeletion.DeletedEdgeCoords | Assets/Scripts/BalthazarGraph.cs:347-355 | deleting an edge keeps live coords distinct |
| BalthazarDeletion.DeletedEdgeNoIsolated | Assets/Scripts/BalthazarGraph.cs:349-355 | every node still listed after the edge deletion has a link |
| BalthazarDeletion.DeletedEdgeFlag | Assets/Scripts/BalthazarGraph.cs:347-353 | the edge deletion moves no node, and a flag stays set exactly when it was set and is not one of the two cleared |
| BalthazarDeletion.DeletedEdgeMutual | Assets/Scripts/BalthazarGraph.cs:347-353 | every link of a surviving node is still matched |
| BalthazarDeletion.DeletedNodeStep | Assets/Scripts/BalthazarGraph.cs:317-320 | a step of the `DeleteNode` loop on a set flag deletes exactly that edge and keeps the loop's facts |
| BalthazarDeletion.DeletingNodeStart | Assets/Scripts/BalthazarGraph.cs:316-322 | the loop's facts hold before the first step |
| BalthazarDeletion.DeletingNodeSkip | Assets/Scripts/BalthazarGraph.cs:317-320 | a step on a cleared flag keeps the loop's facts |
| BalthazarDeletion.DeletedNodeNext | Assets/Scripts/BalthazarGraph.cs:317-320 | each step of the `DeleteNode` loop, whether its flag is set or not, keeps the loop's facts |
| BalthazarDeletion.DeletedNodeSteps | Assets/Scripts/BalthazarGraph.cs:316-322 | every prefix of the loop keeps the lattice linked, clears n's flags seen so far and keeps n listed exactly while it has a link |
| BalthazarDeletion.DeletedNodeGone | Assets/Scripts/BalthazarGraph.cs:316-322 | deleting a live node clears all its flags, removes it from the list, keeps links symmetric, leaves no node isolated and keeps the candidates |
| BalthazarSelection.ConBounds | Assets/Scripts/BalthazarGraph.cs:569-574 | `minCon` and `maxCon` bound the counts of every candidate scanned |
| BalthazarSelection.MaxAttained | Assets/Scripts/BalthazarGraph.cs:572 | once a candidate is scanned, `maxCon` is the count of a scanned candidate |
| BalthazarSelection.MinAttained | Assets/Scripts/BalthazarGraph.cs:571 | once a candidate is scanned, `minCon` is the count of a scanned candidate |
| BalthazarSelection.PoolUpToSound | Assets/Scripts/BalthazarGraph.cs:577-609 | every pool entry is a candidate the mode's filter admits with its own draw |
| BalthazarSelection.PoolUpToComplete | Assets/Scripts/BalthazarGraph.cs:577-609 | every candidate the filter admits is in the pool |
| BalthazarSelection.PoolEmpty | Assets/Scripts/BalthazarGraph.cs:565-609 | the pool is empty exactly when there are no candidates, whatever the draws |
| BalthazarSelection.AdmittedExtreme | Assets/Scripts/BalthazarGraph.cs:577-609 | a candidate the filter admits has the most neighbours in Structural mode, the fewest in Chaotic mode, within one of that in the semi modes |
| BalthazarSelection.PickedSite | Assets/Scripts/BalthazarGraph.cs:565-611 | the pick is none exactly when there are no candidates, and otherwise a candidate's coord with the most links (Structural), the fewest (Chaotic), or within one of them (the semi modes) |
| BalthazarSetup.Grown | Assets/Scripts/MapGenerator.cs:87-89 | the set-up rounds keep the graph well formed |
| BalthazarSetup.RoundKeeps | Assets/Scripts/MapGenerator.cs:88 | one round on a growing lattice picks a candidate, materializes it successfully, and spends one id, keeping ids equal to list positions |
| BalthazarSetup.MaterializedIds | Assets/Scripts/BalthazarGraph.cs:468-502 | materializing a candidate of a graph whose ids are list positions appends the next id, so they stay list positions |
| BalthazarSetup.GrowthSixFlags | Assets/Scripts/BalthazarGraph.cs:565-611 | every candidate of a growing lattice carries six flags, as the selection scan reads |
| BalthazarSetup.GrownKeeps | Assets/Scripts/MapGenerator.cs:87-89 | any number of rounds keeps a growing lattice with ids as list positions and spends at most one id per round |
| BalthazarSetup.TriangleIds | Assets/Scripts/BalthazarGraph.cs:425-435 | the triangle's ids are its list positions |
| BalthazarSetup.SetupGrowth | Assets/Scripts/MapGenerator.cs:79-89 | every graph the set-up builds is a growing lattice with ids 0 .. nodeCount-1 as its list, and between 3 and 3 plus the number of rounds nodes |
| BalthazarSetup.EdgesLost | Assets/Scripts/MapGenerator.cs:94-98 | the edge-loss rounds keep the graph well formed, the candidates and the arena's size |
| BalthazarSetup.EdgesLostKeeps | Assets/Scripts/MapGenerator.cs:92-99 | however many edges are lost, links stay symmetric and no live node is left isolated |

## Left out

- Unity's random generator (`Random.InitState`, `Random.Range`): each draw is an explicit parameter, and the set-up rounds require the ranges `Random.Range` would return. Seeding and the generator's sequence are not modelled.
- The float edge weights (`neighborCosts`) of the Balthazar graph are dropped. The source only ever stores 0 or clears them, so no operation's outcome depends on them. The weight overloads of `ConnectTo` and `LinkNodes` are therefore not modelled separately. The US3K graph keeps its weights as opaque `real` values.
- Debug printing (`DebugPrintGraph` and its helpers, `ClearLog`, US3K `PrintGraph`) and the error log in `DeleteEdge` and `FindPotentialNode`: console output only.
- Materialization at a coord with no candidate: the source throws a null reference after removing the candidate at (0,0) and spending an id. `BalthazarModel.Materialized` returns `false` with that state. What a caller does after the exception is not modelled.
- BalthazarModel.Picked: `Random.Range(0, 0)` on an empty pool returns 0 and the index then throws. The model returns `None` instead. The pick index must be a valid pool index whenever the pool is not empty, as `Random.Range` guarantees.
- BalthazarSetup.Grown and BalthazarSetup.EdgesLost: the loops stop at the first round whose draws `Random.Range` could not return (an empty pool, an index outside the list). The source would throw there instead.
- The loop counts of `MG_SetupNodes` (preset sizes) and `MG_LoseEdges` (a float coefficient) are not computed. Each is taken as the length of the round sequence.
- The id-as-index overloads (`DeleteNode(int)`, `DeleteEdge(int, int)`, `AddPotentialNode(int, …)`, `MaterializePotentialNode(int, …)`, `LinkNodes(int, int, …)`) are modelled by list position. `BalthazarSetup.SetupGrowth` proves that position and id agree for every graph the set-up builds. After `ShredNode` they no longer agree, and the model follows the list position as the source does.
- `FindPotentialNode(int, dir)` and `FindPotentialNode(Node, dir)`: these only compute the coord a step away and then call `FindPotentialNode(c)`, which is modelled.
- `MaterializePotentialNode(Node, dir)`: the same delegation as the id overload.
- Scene building in the map generator (`MG_ConvertToWorldMap`, `MG_Connect`, line renderers) and the editor script's buttons.
- `MG_LoseNodes`, `MG_AssignStarterTeams` and `MG_Debug_CC` are not implemented in the source, so nothing about them is modelled.
- UI, input, camera, tweening, star systems, armies, player data and resource loading: everything in `EnemyUI` and `FriendlyUI` except `Shorthand` and the share, and every other script.
- The US3K `Node(int, List, List)` constructor, which only stores its arguments. In the US3K model a node's neighbour list holds node objects, so the value copies the C# struct makes are not distinguished from the node itself.
- US3KGraph.Graph.GetNode: requires its list position to be in range; out of range, the C# indexer `nodes[nodeID]` throws `ArgumentOutOfRangeException`, which is not modelled.
- US3KGraph.Graph.LinkNodes: requires its list positions to be in range; out of range, the C# indexer `nodes[nodeID]` (through `GetNode`) throws `ArgumentOutOfRangeException`, which is not modelled.
- US3KGraph.Graph.LinkNodesUnweighted: requires its list positions to be in range; out of range, the C# indexer `nodes[nodeID]` (through `GetNode`) throws `ArgumentOutOfRangeException`, which is not modelled.
- BalthazarGraph.Graph.DeleteEdgeAt: requires its list positions to be in range; out of range, the C# indexer `nodes[n1_ID]` throws `ArgumentOutOfRangeException`, which is not modelled.
- BalthazarGraph.Graph.DeleteNodeAt: requires its list position to be in range; out of range, the C# indexer `nodes[nodeID]` throws `ArgumentOutOfRangeException`, which is not modelled.
- BalthazarGraph.Graph.AddPotentialNodeAt: requires its list position to be in range; out of range, the C# indexer `nodes[nodeID]` throws `ArgumentOutOfRangeException`, which is not modelled.
- BalthazarGraph.Graph.LinkNodes: requires its list positions to be in range; out of range, the C# indexer `nodes[n1id]` throws `ArgumentOutOfRangeException`, which is not modelled.
- BalthazarGraph.Graph.MaterializePotentialNodeAt: requires its list position to be in range; out of range, the C# indexer `nodes[nodeID]` throws `ArgumentOutOfRangeException`, which is not modelled.
- US3KGraph.Graph.constructor: the C# constructor stores the caller's `List<Node>` itself; the model copies it into a sequence, so later changes made through the caller's reference are not seen.
- BalthazarModel.Admits, BalthazarModel.Pool and BalthazarModel.Picked accept any draw; the range 0 .. 99 that `Random.Range(0, 100)` returns is stated only in `BalthazarSetup.Drawable`, for the set-up rounds.

## Findings

| source | as written | input that shows it | evidently intended | confidence | as-written member | corrected member |
|---|---|---|---|---|---|---|
| Assets/Scripts/BalthazarGraph.cs:559-562 | `Random01Weighted` returns 1 when the draw is strictly greater than `percent0`, so of the `percent0 + percent1` draws only `percent1 - 1` give 1 | `Random01Weighted(60, 40)`: the draw 60 gives 0, and 39 of 100 draws give 1 | 1 for exactly `percent1` of the draws (draw >= percent0) | not executed | WeightedDraw.Random01WeightedAsWrittenOffByOne | WeightedDraw.Random01WeightedShare |
| Assets/Scripts/BalthazarGraph.cs:553-556 | `RandomWeighted` returns `a` for draws strictly above `percent0`, that is for `percent1 - 1` draws | `RandomWeighted(a, b, 70, 30)`: `a` for 29 of 100 draws | `a` for exactly `percent0` of the draws (draw < percent0) | not executed | WeightedDraw.RandomWeightedAsWrittenSkewed | WeightedDraw.RandomWeightedShare |
| Assets/Scripts/FriendlyUI.cs:122 | `system.units * syncVal / 100` multiplies in 32-bit `int` before dividing, so the product wraps | 21474837 units with the 100% toggle gives a negative share | the share `units * syncVal / 100` computed without wrap-around, in 0 .. units | not executed | SendShare.ShareAsWrittenOverflows | SendShare.Share |

`BalthazarModel.Admits` calls the flip as written (`WeightedDraw.Random01WeightedAsWritten`), so the modelled pools are the source's.
