# RTS_demo grid pathfinder, modelled in Dafny

This project models the pathfinding core of the RTS_demo Unity project: the
A* search that `NavigationSystem` runs for every unit that has a move order,
and the small pieces around it that build its inputs.

- **`Navigation`** (`navigation.dfy`) models `NavigationSystem` and its
  `FindPathJob`. The search runs on a fixed 100 x 100 grid with 8-directional
  moves, straight cost 10 and diagonal cost 14. Every cell is walkable.
  - The node array, the open list and the closed list are a Dafny `array`
    and two sequences of linear indices.
  - Each round picks the first open node of least fCost, closes it and relaxes
    its eight neighbours.
  - The path is read back by following `previousNodeIndex` links into a buffer
    ordered from the goal to the start, and the path-follow cursor is set to
    its last entry, or to -1.
  - The quirks of the code are kept as they are:
    - a non-start node starts with fCost = int.MaxValue, not gCost + hCost;
    - `walkable` is always true;
    - a request whose start equals its end gets "no path", index -1;
    - ties go to the first open entry, in the order `RemoveAtSwapBack` leaves;
    - the row stride of the index is the grid's x size.
  - The main results:
    - the search invariant (`SearchState`): no duplicate indices in either
      list, closed nodes never reopened, costs and back-pointers consistent,
      and the loop bounded by the number of cells;
    - completeness on the all-walkable grid: the open list never runs dry
      before the end node is chosen;
    - the returned path runs from the end cell to the start cell, is an
      8-adjacent walk inside the grid, repeats no cell and costs exactly the
      end node's gCost, which is never below the heuristic.
- **`Grid`** (`grid.dfy`) models `CoordinateGrid<T>`: a length x width
  `array2` filled by a factory, indexed get and set, and the floor mapping
  between world positions and cells. World coordinates use exact reals.
- **`Nodes`** (`nodes.dfy`) models the `GridNode` record, its constructor and
  its `ToString` text `"x,z"`. A parser for that text is the partner for a
  round-trip proof.
- **`MoveOrders`** (`move_orders.dfy`) models `UnitMoveOrderSystem`. It covers
  the `ValidateGridPosition` clamp and the request, cursor and empty buffer
  that a right click gives to every selected unit.
- **`Components`** (`components.dfy`) holds the value types: `int2`,
  `Vector3`, `NavigationData`, `Path`, `PathFollow`, and the components of a
  unit entity.

## Model

| member | source | states |
|---|---|---|
| Navigation.CalculateHCost | RTS/Assets/Scripts/Navigation/Systems/NavigationSystem.cs:196-202 | The heuristic is never negative. It is 0 exactly when the two cells are equal. |
| Navigation.HCostSymmetric | RTS/Assets/Scripts/Navigation/Systems/NavigationSystem.cs:196-202 | The heuristic is symmetric in its two cells. |
| Navigation.HCostIsOctile | RTS/Assets/Scripts/Navigation/Systems/NavigationSystem.cs:196-202 | The heuristic is the octile distance 10·max(dx,dz) + 4·min(dx,dz). |
| Navigation.HCostSplit | RTS/Assets/Scripts/Navigation/Systems/NavigationSystem.cs:196-202 | The heuristic is 4·(dx+dz) + 6·max(dx,dz), the form the triangle inequality is proved on. |
| Navigation.HCostTriangle | RTS/Assets/Scripts/Navigation/Systems/NavigationSystem.cs:196-202 | The heuristic obeys the triangle inequality. |
| Navigation.HCostAdmissible | RTS/Assets/Scripts/Navigation/Systems/NavigationSystem.cs:196-202 | No 8-adjacent walk costs less than the heuristic between its two ends. |
| Navigation.StepCost | RTS/Assets/Scripts/Navigation/Systems/NavigationSystem.cs:76-84 | Each of the eight offsets reaches an adjacent cell. Its step cost is 10 for the four orthogonal offsets and 14 for the four diagonal ones. |
| Navigation.AdjacentIsOffset | RTS/Assets/Scripts/Navigation/Systems/NavigationSystem.cs:76-84 | Every 8-adjacent cell is one of the eight offsets away. |
| Navigation.AdjacentCost | RTS/Assets/Scripts/Navigation/Systems/NavigationSystem.cs:149 | The cost between adjacent cells is between 10 and 14. |
| Navigation.IndexBijection | RTS/Assets/Scripts/Navigation/Systems/NavigationSystem.cs:191-194 | With stride x size, an in-grid cell gets an index in [0, x·y), and division and remainder by the stride recover the cell. |
| Navigation.CalculateIndex | RTS/Assets/Scripts/Navigation/Systems/NavigationSystem.cs:191-194 | x + z·stride. IndexBijection and CellOfIndexInGrid show it is a bijection from the in-grid cells onto [0, x·y). |
| Navigation.IsPositionInsideGrid | RTS/Assets/Scripts/Navigation/Systems/NavigationSystem.cs:245-252 | Both coordinates are at least 0 and below the grid size. PlacedAt shows an index that passes it addresses the node of that cell. |
| Navigation.CalculateFCost | RTS/Assets/Scripts/Navigation/Systems/NavigationSystem.cs:204-207 | The sum of its two arguments. InitialNodeFacts shows initialisation gives int.MaxValue + 0 = int.MaxValue, and Lowered gives gCost + hCost. |
| Navigation.CellOfIndexInGrid | RTS/Assets/Scripts/Navigation/Systems/NavigationSystem.cs:191-194 | Every index in [0, x·y) is the index of exactly one in-grid cell. |
| Navigation.PlacedAt | RTS/Assets/Scripts/Navigation/Systems/NavigationSystem.cs:126-140 | A neighbour that passes IsPositionInsideGrid has an index inside the node array, and the node stored there sits on that cell. |
| Navigation.RemoveAtSwapBack | RTS/Assets/Scripts/Navigation/Systems/NavigationSystem.cs:114 | One entry of the list is removed, as a multiset. The last entry moves into the freed slot and every other slot keeps its entry. |
| Navigation.SwapBackMultiset | RTS/Assets/Scripts/Navigation/Systems/NavigationSystem.cs:114 | Moving the last entry into slot i and dropping the last slot removes exactly one copy of the entry at i. |
| Navigation.RemoveAtSwapBackDistinct | RTS/Assets/Scripts/Navigation/Systems/NavigationSystem.cs:114 | On a list without duplicates, the result has no duplicates and holds exactly the old entries minus the removed one. |
| Navigation.FirstIndex | RTS/Assets/Scripts/Navigation/Systems/NavigationSystem.cs:110-117 | The slot the removal loop stops at: an occurrence of the value with no occurrence before it. |
| Navigation.RemoveFromOpenList | RTS/Assets/Scripts/Navigation/Systems/NavigationSystem.cs:110-117 | If the current node is on the open list, its first occurrence (FirstIndex) is removed by RemoveAtSwapBack: the last entry moves into that slot, so one copy goes as a multiset. Otherwise the list is unchanged. A duplicate-free list stays duplicate-free and loses exactly that node. |
| Navigation.IndexRange | RTS/Assets/Scripts/Navigation/Systems/NavigationSystem.cs:54 | The set of node indices {0..n-1} has n elements. |
| Navigation.DistinctBound | RTS/Assets/Scripts/Navigation/Systems/NavigationSystem.cs:98-164 | A duplicate-free list of node indices has at most 100·100 entries. This bounds the closed list and with it the number of rounds. |
| Navigation.GetLowestCostFNodeIndex | RTS/Assets/Scripts/Navigation/Systems/NavigationSystem.cs:231-243 | The result is the stored index of the open entry with least fCost. Every earlier entry costs strictly more, so ties go to the first entry in list order. |
| Navigation.FirstLowestUnique | RTS/Assets/Scripts/Navigation/Systems/NavigationSystem.cs:231-243 | The tie-break is deterministic: there is only one first minimum. |
| Navigation.InitialiseNodes | RTS/Assets/Scripts/Navigation/Systems/NavigationSystem.cs:54-74 | A fresh array of 100·100 nodes. Index i holds the initial node of the cell whose index is i. |
| Navigation.InitialNode | RTS/Assets/Scripts/Navigation/Systems/NavigationSystem.cs:60-71 | The node initialisation writes for cell (x, z). InitialNodeFacts states what it holds. |
| Navigation.InitialNodeFacts | RTS/Assets/Scripts/Navigation/Systems/NavigationSystem.cs:60-72 | After initialisation a node sits on its own cell, carries its own index and the heuristic to the end, is walkable and has no back-pointer. Its gCost and fCost are both int.MaxValue, because fCost is computed from gCost and the default fCost 0. |
| Navigation.InitialState | RTS/Assets/Scripts/Navigation/Systems/NavigationSystem.cs:86-96 | Once the start node has gCost 0 and fCost = hCost and is the only open entry, the search invariant holds and every node is walkable. |
| Navigation.CloseKeepsState | RTS/Assets/Scripts/Navigation/Systems/NavigationSystem.cs:109-119 | Moving the chosen node from the open list to the closed list keeps the invariant, with its eight neighbours still to look at. Its gCost is at most 14 times the number of closed nodes. |
| Navigation.SettleKeepsState | RTS/Assets/Scripts/Navigation/Systems/NavigationSystem.cs:126-145 | A neighbour that is skipped leaves nodes and lists unchanged and moves on to the next offset. |
| Navigation.NoGainSettled | RTS/Assets/Scripts/Navigation/Systems/NavigationSystem.cs:149-150 | A neighbour whose gCost is already at most the tentative cost, which is below int.MaxValue, is reached, so it counts as settled. |
| Navigation.NoGainKeepsState | RTS/Assets/Scripts/Navigation/Systems/NavigationSystem.cs:149-150 | When the route through the current node is not cheaper, nothing changes, the invariant holds one offset further, and the (empty) change is Relaxed. |
| Navigation.SettledGrows | RTS/Assets/Scripts/Navigation/Systems/NavigationSystem.cs:121-163 | A settled neighbour stays settled while nodes keep their cells and walkability and reached nodes stay reached. |
| Navigation.RelaxKeepsCosts | RTS/Assets/Scripts/Navigation/Systems/NavigationSystem.cs:150-160 | Giving a non-closed node a back-pointer and consistent costs, and adding it to the open list unless it is there, keeps "reached exactly when open or closed" and the cost bounds. Reached nodes stay reached. |
| Navigation.RelaxKeepsLinks | RTS/Assets/Scripts/Navigation/Systems/NavigationSystem.cs:152-155 | Rewriting a node that is not closed, so that no back-pointer leads to it, keeps every back-pointer linked. |
| Navigation.RelaxKeepsSettled | RTS/Assets/Scripts/Navigation/Systems/NavigationSystem.cs:150-160 | The update keeps every closed node's neighbours settled, and the current node's are settled one offset further. |
| Navigation.RelaxKeepsState | RTS/Assets/Scripts/Navigation/Systems/NavigationSystem.cs:149-160 | Lowering a neighbour's gCost through the current node keeps the invariant. The back-pointer goes to the current node, fCost becomes gCost + hCost, and the neighbour is added to the open list only if it is not already there. The change is Relaxed. |
| Navigation.UpdateIsRelaxed | RTS/Assets/Scripts/Navigation/Systems/NavigationSystem.cs:149-160 | Writing one non-closed node with a lower gCost, the same cell and walkability and a back-pointer to an adjacent current node, and adding it to the open list unless there, is an update of the kind Relaxed allows. |
| Navigation.Visit | RTS/Assets/Scripts/Navigation/Systems/NavigationSystem.cs:123-162 | The reference definition of looking at the k-th neighbour on values; it keeps the node count. VisitSkips, VisitLowers and VisitKeepsState characterise it. |
| Navigation.Lowered | RTS/Assets/Scripts/Navigation/Systems/NavigationSystem.cs:152-154 | The rewritten neighbour keeps its index, cell, walkability and hCost; its back-pointer is the current node, its gCost the new cost and its fCost that cost plus hCost. |
| Navigation.VisitSkips | RTS/Assets/Scripts/Navigation/Systems/NavigationSystem.cs:126-150 | An off-grid, closed or unwalkable neighbour, or one whose gCost is at most the tentative cost, leaves array and open list unchanged. |
| Navigation.VisitLowers | RTS/Assets/Scripts/Navigation/Systems/NavigationSystem.cs:149-160 | An in-grid, non-closed, walkable neighbour reached more cheaply is lowered through the current node and joins the open list unless it is there. |
| Navigation.VisitKeepsState | RTS/Assets/Scripts/Navigation/Systems/NavigationSystem.cs:123-162 | Visit keeps the invariant one offset further, its change is Relaxed, and the current node itself is left as it is. |
| Navigation.ExpandedBy | RTS/Assets/Scripts/Navigation/Systems/NavigationSystem.cs:121-163 | The reference definition of the first k neighbours visited in offset order; it keeps the node count. |
| Navigation.ExpandKeepsState | RTS/Assets/Scripts/Navigation/Systems/NavigationSystem.cs:121-163 | After the first k offsets the invariant holds with k offsets done, the change is Relaxed and the current node is unchanged, by induction on k. |
| Navigation.RelaxNeighbour | RTS/Assets/Scripts/Navigation/Systems/NavigationSystem.cs:152-159 | The array after the call is the old array with only the neighbour's slot rewritten: back-pointer to the current node, gCost the tentative cost, fCost = gCost + hCost, every other field kept (Lowered). The open list gains the neighbour's index exactly when it was not on it. |
| Navigation.RelaxedTransitive | RTS/Assets/Scripts/Navigation/Systems/NavigationSystem.cs:121-163 | The effects of visiting several neighbours compose. |
| Navigation.VisitNeighbour | RTS/Assets/Scripts/Navigation/Systems/NavigationSystem.cs:123-162 | The new array and open list are exactly Visit of the old ones: off-grid, closed and unwalkable neighbours and ones not reached more cheaply leave both unchanged; otherwise the neighbour is lowered through the current node and added to the open list unless there. |
| Navigation.ExpandNeighbours | RTS/Assets/Scripts/Navigation/Systems/NavigationSystem.cs:121-163 | The new array and open list are exactly ExpandedBy of the old ones over all eight offsets in order. Afterwards the invariant holds with every neighbour of every closed node settled, and the change is Relaxed. |
| Navigation.StepToward | RTS/Assets/Scripts/Navigation/Systems/NavigationSystem.cs:76-84 | From any cell, one of the eight offsets moves strictly closer to another cell without leaving the box the two cells span. |
| Navigation.ClosedSpreads | RTS/Assets/Scripts/Navigation/Systems/NavigationSystem.cs:98-164 | With nothing open on the all-walkable grid, once one cell is closed every cell is closed. |
| Navigation.OpenListNeverRunsDry | RTS/Assets/Scripts/Navigation/Systems/NavigationSystem.cs:98-164 | While the end node is not closed, the open list is not empty. So the loop can only end at the break of line 106. |
| Navigation.SearchStateDescending | RTS/Assets/Scripts/Navigation/Systems/NavigationSystem.cs:149-155 | Under the invariant every back-pointer leads to an adjacent node whose gCost is lower by the step cost between them. |
| Navigation.BackIndices | RTS/Assets/Scripts/Navigation/Systems/NavigationSystem.cs:220-226 | Following back-pointers from a node gives a finite chain of in-range indices. It starts at that node, links each entry to the next and ends at a node without a back-pointer. |
| Navigation.LinkedInChainCons | RTS/Assets/Scripts/Navigation/Systems/NavigationSystem.cs:220-226 | Putting a node in front of the chain of its predecessor keeps every link. |
| Navigation.PathOfCells | RTS/Assets/Scripts/Navigation/Systems/NavigationSystem.cs:218-224 | The j-th path entry is the cell of the j-th node of the chain. |
| Navigation.BackChainStep | RTS/Assets/Scripts/Navigation/Systems/NavigationSystem.cs:218-226 | The chain of a node is its own cell followed by the chain of its predecessor. A node without a back-pointer has a chain of one cell. |
| Navigation.ChainStart | RTS/Assets/Scripts/Navigation/Systems/NavigationSystem.cs:218 | Writing the end cell first and then the rest of its chain gives the whole chain. |
| Navigation.ChainStep | RTS/Assets/Scripts/Navigation/Systems/NavigationSystem.cs:220-226 | One round of the loop appends the predecessor's cell, and what is still to come is the rest of the predecessor's chain. The predecessor's gCost is lower and not negative, which bounds the loop. |
| Navigation.ChainDone | RTS/Assets/Scripts/Navigation/Systems/NavigationSystem.cs:220-228 | When the loop stops at a node without back-pointer, the buffer is the old entries followed by the whole chain. |
| Navigation.CalculatePath | RTS/Assets/Scripts/Navigation/Systems/NavigationSystem.cs:209-228 | With no back-pointer on the end node the buffer is unchanged. Otherwise the old entries are kept and the end cell and the cells of its whole back-pointer chain are appended. |
| Navigation.BackIndicesEndAtStart | RTS/Assets/Scripts/Navigation/Systems/NavigationSystem.cs:98-164 | Under the invariant the chain from a reached node passes only reached nodes and ends at the start node. |
| Navigation.BackIndicesDescend | RTS/Assets/Scripts/Navigation/Systems/NavigationSystem.cs:149-155 | gCost falls strictly along the chain. |
| Navigation.BackChainCost | RTS/Assets/Scripts/Navigation/Systems/NavigationSystem.cs:149-155 | The walk along the chain costs the gCost of its first node minus that of its last. |
| Navigation.ChainCostRoot | RTS/Assets/Scripts/Navigation/Systems/NavigationSystem.cs:211-214 | A node without a back-pointer has a one-cell chain that costs nothing. |
| Navigation.ChainCostStep | RTS/Assets/Scripts/Navigation/Systems/NavigationSystem.cs:220-226 | If the predecessor's chain costs the gCost dropped along it, so does the node's: the first step costs exactly the gCost the node adds. |
| Navigation.BackChainWalk | RTS/Assets/Scripts/Navigation/Systems/NavigationSystem.cs:209-228 | Consecutive cells of the chain are 8-adjacent. |
| Navigation.LinkAdjacent | RTS/Assets/Scripts/Navigation/Systems/NavigationSystem.cs:149-155 | A node and the node its back-pointer names lie in 8-adjacent cells. |
| Navigation.BackChainCells | RTS/Assets/Scripts/Navigation/Systems/NavigationSystem.cs:209-228 | Every cell of the chain lies inside the grid, and no cell repeats. |
| Navigation.BackChainEnds | RTS/Assets/Scripts/Navigation/Systems/NavigationSystem.cs:209-228 | A chain ending at the start node begins at the node's cell and ends at the start cell. It costs the node's gCost and has two or more cells exactly when the node is not the start. |
| Navigation.BackChainIsPath | RTS/Assets/Scripts/Navigation/Systems/NavigationSystem.cs:209-228 | The chain from a node that leads to the start runs from that node's cell to the start cell. It is an 8-adjacent walk inside the grid with no repeated cell, it costs exactly the node's gCost, and it has two or more cells exactly when the node is not the start. |
| Navigation.PathResultAdmissible | RTS/Assets/Scripts/Navigation/Systems/NavigationSystem.cs:166-181 | A published path never costs less than the heuristic between its ends. |
| Navigation.Search | RTS/Assets/Scripts/Navigation/Systems/NavigationSystem.cs:93-164 | Every round closes the node GetLowestCostFNodeIndex selects, the first open entry of least fCost, as CloseAndExpand requires. The loop terminates: each round adds a new index to a duplicate-free closed list of at most 100·100 entries. It ends with the invariant intact and the end node as the first open entry of least fCost. |
| Navigation.CloseAndExpand | RTS/Assets/Scripts/Navigation/Systems/NavigationSystem.cs:109-163 | One round, for the node the selection of line 101 chose: the first open entry of least fCost. The closed list grows by exactly that node; the open list is that node's first occurrence removed by RemoveAtSwapBack and then ExpandedBy its eight neighbours, and the array is ExpandedBy's. The invariant and walkability hold afterwards, and the change is Relaxed. |
| Navigation.SearchFinished | RTS/Assets/Scripts/Navigation/Systems/NavigationSystem.cs:98-164 | When the loop ends, costs fall along back-pointers. The end node is the start node or its chain leads to the start node. |
| Navigation.FinishedOutcome | RTS/Assets/Scripts/Navigation/Systems/NavigationSystem.cs:166-181 | The end node has no back-pointer exactly when start equals end. Otherwise its chain is a path from the end cell to the start cell. |
| Navigation.WritePath | RTS/Assets/Scripts/Navigation/Systems/NavigationSystem.cs:166-181 | The buffer is cleared. If the end node has no back-pointer, the buffer stays empty and the cursor is -1. Otherwise the buffer is exactly the end node's back-pointer chain (BackChain) and the cursor points at its last entry. Either way the result is a PathResult. |
| Navigation.Execute | RTS/Assets/Scripts/Navigation/Systems/NavigationSystem.cs:50-188 | For any two in-grid cells: start = end gives an empty buffer and cursor -1. Otherwise the buffer is the end node's back-pointer chain in the final node array, in which costs fall along back-pointers. It holds two or more cells, from the end cell first to the start cell last. It is an 8-adjacent walk inside the grid with no repeated cell, it costs exactly the end node's final gCost, and the cursor is on its last entry. |
| Navigation.OnUpdate | RTS/Assets/Scripts/Navigation/Systems/NavigationSystem.cs:18-34 | Each entity with a request and a path buffer gets one search: its buffer and cursor are as Execute says and its request is removed. Every other entity is untouched, and no request is left to serve. |
| Nodes.NewGridNode | RTS/Assets/Scripts/GridNode.cs:20-31 | The constructor keeps x and z. The node is walkable and has no predecessor (-1). Index and all three costs are 0; the index is not derived from the cell. |
| Nodes.DigitChar | RTS/Assets/Scripts/GridNode.cs:37 | A digit value 0-9 becomes the character with that value. |
| Nodes.NatToDecimal | RTS/Assets/Scripts/GridNode.cs:37 | A natural number renders as a non-empty string of digits with no leading zero. |
| Nodes.IntToDecimal | RTS/Assets/Scripts/GridNode.cs:37 | The text of an integer holds no comma, so the separator in "x,z" is unambiguous. |
| Nodes.FirstIndexOf | RTS/Assets/Scripts/GridNode.cs:37 | The position of the first occurrence of a character, or the length when it does not occur. |
| Nodes.DecimalRoundTrip | RTS/Assets/Scripts/GridNode.cs:37 | The digits of n read back as n. |
| Nodes.NegativeRoundTrip | RTS/Assets/Scripts/GridNode.cs:37 | A minus sign followed by the digits of n reads back as −n. |
| Nodes.NonNegativeRoundTrip | RTS/Assets/Scripts/GridNode.cs:37 | The digits of n read back as n through the integer parser. |
| Nodes.IntRoundTrip | RTS/Assets/Scripts/GridNode.cs:37 | The text of any integer, negative ones included, parses back to that integer. |
| Nodes.ToStringRoundTrip | RTS/Assets/Scripts/GridNode.cs:35-38 | ToString gives "x,z", and reading that text back gives the node's cell (x, z). |
| Nodes.ToStringIdentifiesCell | RTS/Assets/Scripts/GridNode.cs:35-38 | Two nodes have the same text exactly when they sit on the same cell. |
| Nodes.ToString | RTS/Assets/Scripts/GridNode.cs:35-38 | The text "x,z". ToStringRoundTrip shows it reads back as the node's cell. |
| Grid.CoordinateGrid.constructor | RTS/Assets/Scripts/CoordinateGrid.cs:18-35 | Records length, width, cell size and origin, and sets Height to the origin's y. Every cell (x, z) inside the grid holds createGridNote(grid, x, z). |
| Grid.CoordinateGrid.GetCellCoordinate | RTS/Assets/Scripts/CoordinateGrid.cs:60-75 | With a positive cell size, x is the n with n·CellSize ≤ (pos − origin).x < (n+1)·CellSize, that is the floor, and likewise for z. There is no clamping. |
| Grid.CoordinateGrid.CellOfWorldPosition | RTS/Assets/Scripts/CoordinateGrid.cs:55-71 | The world position of cell corner (x, z), at any height, maps back to (x, z). |
| Grid.CoordinateGrid.CellIgnoresHeight | RTS/Assets/Scripts/CoordinateGrid.cs:60-75 | The y component of a world position plays no part in its cell. |
| Grid.CoordinateGrid.GetWorldPosition | RTS/Assets/Scripts/CoordinateGrid.cs:55-58 | The corner of cell (x, z) at height y: (x, y, z) scaled by the cell size plus the origin. CellOfWorldPosition shows GetCellCoordinate maps it back to (x, z). |
| Grid.CoordinateGrid.GetGridNode | RTS/Assets/Scripts/CoordinateGrid.cs:89-92 | The payload stored at in-grid cell (x, z). SetValue shows it returns what was written there last. |
| Grid.CoordinateGrid.GetGridNodeAtWorld | RTS/Assets/Scripts/CoordinateGrid.cs:94-99 | Reading at a world position reads the payload of the in-grid cell whose square contains that position. |
| Grid.CoordinateGrid.GetGridNodeAtCorner | RTS/Assets/Scripts/CoordinateGrid.cs:89-99 | Reading at the world position of a cell's corner reads that cell. |
| Grid.CoordinateGrid.SetValue | RTS/Assets/Scripts/CoordinateGrid.cs:77-80 | After the write, GetGridNode(x, z) returns the value and every other cell keeps its payload. The cell must be inside the grid. |
| Grid.CoordinateGrid.SetValueAtWorld | RTS/Assets/Scripts/CoordinateGrid.cs:82-87 | Writing at a world position writes the cell GetCellCoordinate names: reading back at that position gives the value, and every other cell is unchanged. |
| MoveOrders.Clamp | RTS/Assets/Scripts/Navigation/Systems/UnitMoveOrderSystem.cs:63-64 | `math.clamp`: within [a, b] when a ≤ b, the input itself when it is inside, a below the range, b above it. |
| MoveOrders.ClampIdempotent | RTS/Assets/Scripts/Navigation/Systems/UnitMoveOrderSystem.cs:63-64 | Clamping twice is clamping once. |
| MoveOrders.ValidateGridPosition | RTS/Assets/Scripts/Navigation/Systems/UnitMoveOrderSystem.cs:61-65 | x is clamped into [0, Length−1] and z into [0, Width−1], each against its own bound. A coordinate already inside is unchanged. One below the range, or on an empty dimension, becomes 0. |
| MoveOrders.ValidateIdempotent | RTS/Assets/Scripts/Navigation/Systems/UnitMoveOrderSystem.cs:61-65 | A validated cell validates to itself. |
| MoveOrders.OrderCell | RTS/Assets/Scripts/Navigation/Systems/UnitMoveOrderSystem.cs:30-43 | The cell of an offset world position, after the clamp, lies inside a non-empty grid. |
| MoveOrders.OrderCellRoundsXOnly | RTS/Assets/Scripts/Navigation/Systems/UnitMoveOrderSystem.cs:30-32 | The half-cell offset rounds x to the nearest cell corner. z is not shifted and is floored as in a plain GetCellCoordinate. |
| MoveOrders.HalfCellOffset | RTS/Assets/Scripts/Navigation/Systems/UnitMoveOrderSystem.cs:30 | (1, 1, 0) times half the cell size. OrderCellRoundsXOnly shows it shifts x by half a cell and z not at all. |
| MoveOrders.Ordered | RTS/Assets/Scripts/Navigation/Systems/UnitMoveOrderSystem.cs:41-56 | A selected unit gets a request from its own clamped cell to the clicked cell, a cursor of -1 and an empty path buffer. Its selection and position are kept. |
| MoveOrders.IssueMoveOrders | RTS/Assets/Scripts/Navigation/Systems/UnitMoveOrderSystem.cs:20-59 | Without a right click, or when the ray hits nothing, no entity changes. Otherwise every selected unit is ordered towards the same clamped target and every other unit is left as it was. |
| MoveOrders.OrdersAreRoutable | RTS/Assets/Scripts/Navigation/Systems/UnitMoveOrderSystem.cs:45-56 | On a non-empty grid of at most 100 x 100 cells, an ordered unit is one NavigationSystem visits and meets what its search needs: both cells inside the 100 x 100 search grid, and a cursor to write. |

## Left out

- Single-precision floats: world positions, the cell size and `GetCellCoordinate` use exact reals. Float rounding at cell borders is not modelled.
- 32-bit integers: costs are unbounded `int`s, and `int.MaxValue` is a constant. The search invariant bounds every reached gCost by 14 · 10000, and the only sum with `int.MaxValue` adds 0. So no computation of the search leaves the 32-bit range, and wrap-around is not modelled.
- Execute: the quality of the path is not proved. The model proves that the path is a walk from the end cell to the start cell, inside the grid, with no repeated cell, whose cost is the end node's gCost and at least the heuristic. It does not prove that the path is a shortest one.
- Execute: the model keeps the walkability test of lines 141-145, but the proofs about a finished search assume every node is walkable. That is what the initialisation at line 69 produces. Obstacles are not modelled.
- The `Debug.Log` at line 173 of NavigationSystem.cs is not modelled. The branch around it is.
- Unity jobs and memory: Burst compilation, `Run`, `NativeArray`/`NativeList` allocation and `Dispose` are replaced by a Dafny array and sequences.
- Entity command buffers: `PostUpdateCommands.RemoveComponent` and the `ecb` additions in UnitMoveOrderSystem are deferred to the end of the frame in Unity. The model applies them at once, to a sequence of entity values.
- MoveOrders.Ordered: `AddBuffer<Path>` on an entity that already has a buffer is modelled as an empty buffer.
- Navigation.OnUpdate: an entity without a `PathFollow` component would make the job's write fail. The model requires the component, as every entity ordered by UnitMoveOrderSystem has one (`OrdersAreRoutable`).
- Input: the mouse button, the camera ray and the raycast hit are inputs of `IssueMoveOrders`. `Test.Instance.grid` is a parameter.
- Grid.CoordinateGrid.constructor: a negative length or width is excluded by a precondition. In C#, `new TGridNode[length, width]` at line 27 of CoordinateGrid.cs throws for it; the model has no such error path.
- Navigation.Execute: both cells must lie inside the 100 x 100 grid. In NavigationSystem.cs an out-of-grid cell whose index x + 100·z still falls in [0, 10000) does not throw (lines 86-88 and 191-194): a request to (150, 0) gets index 150, the node of cell (50, 1). The model does not cover such requests. The clamp in UnitMoveOrderSystem.cs (lines 63-64) means no order issued there has one (`OrdersAreRoutable`).
- Grid.CoordinateGrid.GetCellCoordinate: a cell size of 0, a division by zero in the float code, is excluded by a precondition.
- Grid display: `RenumberCell`, `Debug.DrawLine` and `Debug.Log` in CoordinateGrid.cs draw the grid for debugging and have no effect on its contents. The `displayGrid` flag is accepted and ignored.
- The private `grid` field of `GridNode` is written by the constructor and never read. The datatype leaves it out.
- The commented-out `FindPath` from line 255 of NavigationSystem.cs is dead code.
- The declaration of the `PathFollow` component is not part of this model. It is mirrored from its uses as a record with one `pathIndex` field.
- The `SelectionStateData` tag is modelled as a `selected` flag on each entity.
