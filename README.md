# Algorithms course components, modelled in Dafny

This project models the core of a C++ collection of algorithms-course components and proves
properties of the model. There are four groups.

- **Sliding puzzle and A\* solver** (`board.dfy`, module `Puzzle`; `astar.dfy`, module `AStar`).
  - A `Board` is a value: a dimension N and N·N tiles, where 0 is the blank.
  - Its queries `hamming`, `manhattan`, `is_goal`, `neighbours` and `twin` are methods. `hamming`, `manhattan` and `twin` keep the source's loops, and `neighbours` keeps its loop that finds the blank. Each query is proved equal to a specification function, and the puzzle's facts are proved about those functions.
  - The `Solver` is a class. Its fields are the two frontiers, the two game trees, `solvable` and `number_of_moves`.
  - Each round of `a_star` pops a node of least f-value from both frontiers, tests the original search's node for the goal first, and otherwise expands both nodes.
  - `solution` walks the parent links back from the goal.
- **Sorting** (`sorting.dfy`, module `Sorting`). Binary search, insertion sort, shell sort, merge and merge sort work in place on an `array<int>` within `[lo, hi]`. Each sort is proved sorted, a permutation, and unchanged outside the range.
- **Weighted quick-union and percolation** (`union_find.dfy`, module `QuickUnion`; `percolation.dfy`, module `PercolationGrid`).
  - `UnionFind` keeps its `root` and `size` arrays. A ghost labelling `rep` (the root of each element) and a ghost `height` describe the forest.
  - `get_root` halves paths, and `connect` links by size. The effect of `connect` is stated as the merge of two classes.
  - `Percolation` holds an N×N open/blocked grid plus a virtual top and a virtual bottom site in such a `UnionFind`.
- **Containers** (`resizing_arrays.dfy`, module `ResizingArrays`; `linked_lists.dfy`, module `LinkedLists`).
  - The resizing-array stack and queue double when full and halve at a quarter.
  - The linked stack, queue and deque are built from nodes on the heap.
  - Each is a class with a ghost `Contents` sequence and a `Valid()` invariant.
  - Each header class and its differently named `.cpp` twins share one Dafny class. Those in `ResizingArrays.cpp`, `Stacks.cpp`, `Queues.cpp` and `LinkedLists.cpp` differ only in names, and in whether emptiness is decided by a counter or by `head == nullptr`.

`wrappers.dfy` holds `Option`, `Result` and the two exception kinds (`invalid_argument`, `logic_error`). A thrown exception is modelled as a `Failure` result. `grid_arith.dfy` holds division facts for row/column arithmetic.

## Model

| member | source | states |
|---|---|---|
| Puzzle.MakeBoard | Algorithms/AStar.h:13-16 | a board is made only from N·N distinct values 0..N²−1 with N in [2, 128]; it keeps exactly that N and those tiles |
| Puzzle.ValuePresent | Algorithms/AStar.h:13-16 | in such a tile sequence every value 0..N²−1 occurs, so a board has a blank |
| Puzzle.Blank | Algorithms/AStar.cpp:76-83 | the blank's position holds 0 and is the only position that does |
| Puzzle.FindBlank | Algorithms/AStar.cpp:76-83 | the scan for the first 0 returns the blank's position |
| Puzzle.Hamming | Algorithms/AStar.cpp:35-45 | the counting loop returns the number of non-blank tiles i with a tile other than i + 1 |
| Puzzle.HammingBounds | Algorithms/AStar.cpp:35-45 | 0 ≤ hamming ≤ N² − 1, because the blank is never counted |
| Puzzle.MisplacedBelow | Algorithms/AStar.cpp:38-42 | the count over the first k positions is at most k, and at most k − 1 once the blank is among them |
| Puzzle.NoneMisplaced | Algorithms/AStar.cpp:38-42 | the count over the first k positions is 0 iff each of them holds the blank or i + 1 |
| Puzzle.RowColDivMod | Algorithms/AStar.cpp:54-55 | the row and column of position i are i / N and i % N |
| Puzzle.Manhattan | Algorithms/AStar.cpp:47-60 | the loop returns the sum, over non-blank tiles, of the row and column distances between position i and the tile's goal position tile − 1 |
| Puzzle.TileDistanceFacts | Algorithms/AStar.cpp:51-56 | a misplaced non-blank tile is at distance at least 1; the blank and a placed tile are at distance 0 |
| Puzzle.DistanceDominates | Algorithms/AStar.cpp:47-60 | over any prefix, misplaced count ≤ distance sum, and one is 0 iff the other is |
| Puzzle.ManhattanDominatesHamming | Algorithms/AStar.cpp:35-60 | hamming ≤ manhattan, and manhattan is 0 iff hamming is 0 |
| Puzzle.GoalIsSolvedBoard | Algorithms/AStar.cpp:62-65 | hamming is 0 iff the tiles are 1, 2, …, N² − 1 followed by the blank |
| Puzzle.IsGoal | Algorithms/AStar.cpp:62-65 | is_goal holds iff hamming is 0, iff the board is the solved board |
| Puzzle.SampleBoardIsNotGoal | UnitTest/UnitTest.cpp:12-17 | the 4×4 board 1..9, 0, 11..15, 10 is not a goal |
| Puzzle.Equals | Algorithms/AStar.cpp:67-70 | two boards are equal iff they have the same N and the same tiles, which is what comparing their renderings decides |
| Puzzle.SwapTiles | Algorithms/AStar.cpp:89-90 | a swap exchanges the two positions and leaves every other position alone |
| Puzzle.SwapPermutation | Algorithms/AStar.cpp:88-115 | a swap of two positions keeps the tiles a permutation of 0..N²−1 |
| Puzzle.SwapTwice | Algorithms/AStar.cpp:133 | swapping the same two positions twice restores the tiles, and the order of the two positions does not matter |
| Puzzle.Neighbours | Algorithms/AStar.cpp:72-118 | the boards returned are the slides of the blank up, down, left and right, in that order, each only when it stays on the grid |
| Puzzle.BlankAround | Algorithms/AStar.cpp:84-85 | the blank's row and column lie in [1, N], and the neighbour list is the list of guarded slides at that cell |
| Puzzle.AroundAdjacent | Algorithms/AStar.cpp:88-115 | each of the four guarded target positions is orthogonally adjacent to the blank |
| Puzzle.AdjacentAround | Algorithms/AStar.cpp:88-115 | each position orthogonally adjacent to the blank is one of the four guarded targets |
| Puzzle.SlidesAtCell | Algorithms/AStar.cpp:88-115 | every board in the guarded list slides the blank to one of the guarded targets |
| Puzzle.SlideInSlidesAt | Algorithms/AStar.cpp:88-115 | a slide to any guarded target is in the guarded list |
| Puzzle.NeighbourCount | Algorithms/AStar.cpp:88-115 | there are 2, 3 or 4 neighbours |
| Puzzle.SlideFacts | Algorithms/AStar.cpp:89-92 | sliding the blank to an adjacent cell gives a valid board whose blank is there, and the slide back returns to the board |
| Puzzle.NeighbourIsSlide | Algorithms/AStar.cpp:88-115 | every neighbour is the board with the blank swapped with one adjacent tile |
| Puzzle.NeighbourSlide | Algorithms/AStar.cpp:88-115 | every neighbour is a valid board one slide away |
| Puzzle.NeighboursAreSlides | Algorithms/AStar.cpp:88-115 | all neighbours are valid boards one slide away |
| Puzzle.NeighboursValid | Algorithms/AStar.cpp:88-115 | every neighbour's tiles are again a permutation |
| Puzzle.NeighboursReversible | Algorithms/AStar.cpp:88-115 | the board is among each of its neighbours' neighbours |
| Puzzle.SlidesDiffer | Algorithms/AStar.cpp:88-115 | slides of the blank to two different cells give different boards |
| Puzzle.SlidesAtDistinct | Algorithms/AStar.cpp:88-115 | the guarded slides are pairwise different |
| Puzzle.NeighboursDistinct | Algorithms/AStar.cpp:88-115 | no board appears twice among the neighbours |
| Puzzle.SlidesAreNeighbours | Algorithms/AStar.cpp:88-115 | every board one slide away is a neighbour |
| Puzzle.FirstTile | Algorithms/AStar.cpp:124-128 | the forward scan stops at the first non-blank position, which is 0 or 1 |
| Puzzle.LastTile | Algorithms/AStar.cpp:125-131 | the backward scan stops at the last non-blank position, which is N² − 1 or N² − 2 |
| Puzzle.Twin | Algorithms/AStar.cpp:120-137 | twin returns the board with the first and last non-blank tiles swapped |
| Puzzle.TwinIsTransposition | Algorithms/AStar.cpp:120-137 | the twin is a valid board that differs from the board in exactly two non-blank positions and keeps the blank in place |
| Puzzle.TwinInvolution | Algorithms/AStar.cpp:120-137 | twin(twin(b)) == b |
| AStar.LessIsStrictWeakOrder | Algorithms/AStar.h:54-56 | operator< on moves + manhattan is irreflexive, asymmetric and transitive, and two nodes are incomparable iff their f-values are equal; incomparability is transitive |
| AStar.MinimalExists | Algorithms/AStar.cpp:157 | a nonempty frontier has a node that no node of it is less than |
| AStar.WithoutRemovesOne | Algorithms/AStar.cpp:157 | removing the popped node takes out exactly one copy of it and nothing else |
| AStar.PopMin | Algorithms/AStar.cpp:157-158 | pop_min returns a node of the frontier of least f-value, and the rest is the frontier less that one node |
| AStar.LinkedExtends | Algorithms/AStar.cpp:171 | appending to a game tree keeps every node's link into it |
| AStar.ArenaAppend | Algorithms/AStar.cpp:171 | appending a node that links into the game tree keeps every node linked to an earlier one |
| AStar.FrontierAppend | Algorithms/AStar.cpp:171 | appending to the game tree keeps the frontier's nodes linked into it |
| AStar.ChildrenSnoc | Algorithms/AStar.cpp:175-181 | expanding one more neighbour appends its node, unless it is the predecessor's board |
| AStar.ChildrenSound | Algorithms/AStar.cpp:175-181 | every pushed node holds a neighbour other than the predecessor's board, points at the expanded node, and carries the next move count and its board's Manhattan distance |
| AStar.ChildrenComplete | Algorithms/AStar.cpp:175-181 | every neighbour other than the predecessor's board gets a node |
| AStar.ChildrenCount | Algorithms/AStar.cpp:175-181 | for distinct neighbours, exactly one node fewer is pushed when the predecessor's board is among them |
| AStar.ChildLinked | Algorithms/AStar.cpp:179 | a node one slide from the expanded node, one move deeper and not back on its predecessor links into the grown tree |
| AStar.ChildrenLinkedToLast | Algorithms/AStar.cpp:174-181 | every node pushed for the last node of the tree links into the tree |
| AStar.ChildrenLinked | Algorithms/AStar.cpp:174-181 | in a game tree whose nodes all link back, every pushed node links into it |
| AStar.ChildrenExist | Algorithms/AStar.cpp:174-181 | expanding a node pushes at least one child, so a frontier never runs dry |
| AStar.ChildrenPrefix | Algorithms/AStar.cpp:175-181 | the nodes for the first i + 1 neighbours are those for the first i followed by the i-th neighbour's |
| AStar.PushBoard | Algorithms/AStar.cpp:176-180 | a neighbour equal to the predecessor's board is skipped; any other is pushed as a node one move deeper |
| AStar.PushBoards | Algorithms/AStar.cpp:175-181 | the loop over the neighbours appends exactly the child nodes, in order |
| AStar.PushChildren | Algorithms/AStar.cpp:174-181 | the frontier after an expansion is the old frontier followed by the expanded node's children |
| AStar.Expand | Algorithms/AStar.cpp:171-181 | after an expansion the game tree still links back and the new frontier is nonempty and links into it |
| AStar.Popped | Algorithms/AStar.cpp:157-158 | both popped nodes hold valid boards |
| AStar.KeepSearching | Algorithms/AStar.cpp:171-193 | a round without a goal keeps both searches' invariants |
| AStar.SolveOriginal | Algorithms/AStar.cpp:160-165 | a goal popped from the original frontier makes the puzzle solvable in that node's moves and ends the tree with the goal node |
| AStar.SolveTwin | Algorithms/AStar.cpp:166-169 | a goal popped from the twin's frontier leaves the original game tree empty and the puzzle unsolvable, and that goal node, linked into the twin's game tree, is kept as the witness |
| AStar.Trace | Algorithms/AStar.cpp:212-217 | following parent links from the last node gives moves + 1 boards, from the root to that node, each one slide from the next and never sliding straight back |
| AStar.Solver.constructor | Algorithms/AStar.cpp:144-152 | the frontiers start with the initial board and its twin at 0 moves; the solver invariant then holds |
| AStar.Solver.Search | Algorithms/AStar.cpp:154-195 | the a_star loop keeps the solver invariant |
| AStar.Solver.Step | Algorithms/AStar.cpp:156-193 | one round pops a least node from each frontier; the search ends iff one of the two popped boards is a goal; the original's goal is tested first and records the moves; the round ends with the twin solved iff only the twin's node is a goal, which clears the game tree and records that node as the witness; otherwise both nodes join their trees and their children join their frontiers |
| AStar.Solver.Advance | Algorithms/AStar.cpp:171-193 | each popped node joins its game tree and its children join its frontier |
| AStar.Solver.MinMoves | Algorithms/AStar.cpp:197-200 | −1 iff unsolvable, otherwise the goal node's move count; −1 at the end of the search means the twin's search reached a goal |
| AStar.Solver.IsSolvable | Algorithms/AStar.cpp:202-205 | true iff min_moves is not −1, and then the game tree ends with a goal |
| AStar.Solver.Solution | Algorithms/AStar.cpp:207-221 | empty unless solvable; otherwise min_moves + 1 boards from the initial board to a goal board, each one slide from the next |
| Sorting.RangePermutation | Algorithms/Sorting.h:35-47 | permuting a range and leaving the rest alone permutes the whole array |
| Sorting.SortedSlice | Algorithms/Sorting.h:35-47 | a range is sorted in the array iff its slice is sorted |
| Sorting.Swap | Algorithms/Sorting.h:41 | std::swap exchanges two cells and permutes the array |
| Sorting.BinarySearch | Algorithms/Sorting.h:15-33 | on a sorted range, the result is −1 iff val is absent from c[lo..hi], and otherwise an index in [lo, hi] holding val |
| Sorting.InsertingSwap | Algorithms/Sorting.h:40-41 | swapping an item one step left keeps the inner loop's invariant |
| Sorting.InsertingDone | Algorithms/Sorting.h:40-43 | when the item is not smaller than its left neighbour, c[lo..i] is sorted |
| Sorting.Insert | Algorithms/Sorting.h:39-45 | the inner loop extends the sorted prefix by one item, permuting only [lo, hi] |
| Sorting.InsertionSort | Algorithms/Sorting.h:35-47 | c[lo..hi] ends sorted and a permutation of its old contents; nothing outside [lo, hi] changes |
| Sorting.GapUp | Algorithms/Sorting.h:52-55 | the gaps grow as 1, 4, 13, … |
| Sorting.GapDown | Algorithms/Sorting.h:65 | dividing a gap by 3 gives the previous gap, and the last gap is 1 |
| Sorting.OutsideTrans | Algorithms/Sorting.h:57-66 | two passes that keep the outside of [lo, hi] keep it together |
| Sorting.GapStep | Algorithms/Sorting.h:59-63 | one compare-and-swap at gap 1 keeps the insertion invariant |
| Sorting.GapInsert | Algorithms/Sorting.h:59-63 | the inner loop permutes [lo, hi] and, at gap 1, extends the sorted prefix |
| Sorting.GapPass | Algorithms/Sorting.h:58-64 | one pass permutes [lo, hi] and, at gap 1, sorts it |
| Sorting.ShellSort | Algorithms/Sorting.h:49-67 | c[lo..hi] ends sorted and a permutation of its old contents; nothing outside [lo, hi] changes |
| Sorting.MergePermutes | Algorithms/Sorting.h:98-108 | the merged sequence is a permutation of the two parts together |
| Sorting.MergeItems | Algorithms/Sorting.h:98-108 | an item is in the merge iff it is in one of the parts |
| Sorting.SortedCons | Algorithms/Sorting.h:98-108 | an item at most every item of a sorted sequence can go in front of it |
| Sorting.MergeSorted | Algorithms/Sorting.h:98-108 | merging two sorted parts gives a sorted sequence of their combined length |
| Sorting.MergeFrom | Algorithms/Sorting.h:98-108 | what is left to write from cursors left and right has the remaining parts' length |
| Sorting.MergeUnfold | Algorithms/Sorting.h:99-107 | the merge of the remaining parts starts with the item the loop body writes |
| Sorting.MergeFromSlices | Algorithms/Sorting.h:98-108 | what the cursor loop writes is the merge of aux[left..mid] and aux[right..hi] |
| Sorting.MergedRange | Algorithms/Sorting.h:84-111 | writing the merge of the two sorted halves into [lo, hi] leaves it sorted and the array permuted |
| Sorting.MergedSorted | Algorithms/Sorting.h:110 | the merged range is sorted |
| Sorting.MergedPermutes | Algorithms/Sorting.h:84-111 | the merged array is a permutation of the old one |
| Sorting.MergeOfParts | Algorithms/Sorting.h:84-111 | the merge of the two halves of a range is a permutation of the range |
| Sorting.CopyRange | Algorithms/Sorting.h:92-94 | aux[lo..hi] becomes a copy of c[lo..hi] |
| Sorting.MergeTake | Algorithms/Sorting.h:99-107 | each step writes the next item of the merge, taking from the right on ties, and advances one cursor |
| Sorting.MergeLoopStep | Algorithms/Sorting.h:98-108 | one write keeps the merge loop's invariant |
| Sorting.MergeBack | Algorithms/Sorting.h:95-108 | the loop writes into c[lo..hi] the merge of aux's two halves and nothing else |
| Sorting.SliceParts | Algorithms/Sorting.h:92-94 | a copied range agrees on both halves |
| Sorting.Merge | Algorithms/Sorting.h:84-111 | with both halves sorted, c[lo..hi] becomes their merge, which is sorted and a permutation; nothing outside [lo, hi] changes |
| Sorting.Halves | Algorithms/Sorting.h:121-123 | sorting the right half keeps the sorted left half and the permutation |
| Sorting.SortedJoin | Algorithms/Sorting.h:125 | two sorted halves with c[mid] ≤ c[mid + 1] form a sorted range, so the merge is skipped |
| Sorting.MergeSort | Algorithms/Sorting.h:113-127 | c[lo..hi] ends sorted and a permutation of its old contents; nothing outside [lo, hi] changes |
| QuickUnion.Singletons | Algorithms/UnionFind.cpp:14-17 | root[i] = i and size[i] = 1 form a forest of one-element trees |
| QuickUnion.RelabelJoins | Algorithms/UnionFind.cpp:57-64 | linking either root under the other merges exactly the two classes |
| QuickUnion.JoinedSelf | Algorithms/UnionFind.cpp:53-55 | connecting two elements of one class changes no class |
| QuickUnion.RelabelMembers | Algorithms/UnionFind.cpp:57-64 | the merged class is the union of the two, its size is the sum of their sizes, and other classes are untouched |
| QuickUnion.Halve | Algorithms/UnionFind.cpp:31-34 | setting an element's parent to its grandparent keeps the forest and every element's root |
| QuickUnion.LinkKeepsForest | Algorithms/UnionFind.cpp:57-64 | hanging one root under another keeps a forest, with heights adjusted |
| QuickUnion.LinkShape | Algorithms/UnionFind.cpp:57-64 | after the link every parent chain still ends at the element's new root |
| QuickUnion.LinkSizes | Algorithms/UnionFind.cpp:57-64 | after the link each root's size counts its tree's elements |
| QuickUnion.JoinedThen | Algorithms/UnionFind.cpp:46-65 | a connect after a merge merges one more class into the same group |
| QuickUnion.UnionFind.constructor | Algorithms/UnionFind.cpp:6-18 | n singleton classes: two elements are connected iff they are equal |
| QuickUnion.NewUnionFind | Algorithms/UnionFind.cpp:6-9 | n ≤ 0 is an invalid argument; otherwise n singleton classes |
| QuickUnion.UnionFind.GetRoot | Algorithms/UnionFind.cpp:25-36 | an index outside [0, N − 1] is an invalid argument; otherwise the result is i's root, and path halving changes no element's root |
| QuickUnion.UnionFind.IsConnected | Algorithms/UnionFind.cpp:38-44 | an argument outside [0, N − 1] is an invalid argument; otherwise true iff a and b have the same root |
| QuickUnion.UnionFind.Connect | Algorithms/UnionFind.cpp:46-65 | an argument outside [0, N − 1] is an invalid argument; otherwise the classes of a and b merge and no others change; connected elements change no size |
| QuickUnion.UnionFind.Link | Algorithms/UnionFind.cpp:57-64 | hanging one root under the other relabels the hung class |
| QuickUnion.Hang | Algorithms/UnionFind.cpp:59-60 | root[child] becomes top and size[top] grows by size[child], with every other cell unchanged |
| PercolationGrid.SiteInRange | Algorithms/Percolation.cpp:43 | (row − 1)·N + col − 1 lies in [0, N²) for row and col in [1, N] |
| PercolationGrid.SiteBijection | Algorithms/Percolation.cpp:42-43 | each index in [0, N²) is the site of exactly one (row, col) |
| PercolationGrid.SiteRowShift | Algorithms/Percolation.cpp:57-62 | the sites above and below are N before and after |
| PercolationGrid.NeighbourSites | Algorithms/Percolation.cpp:48-63 | the four guarded neighbours are the sites at index i ± 1 and i ± N |
| PercolationGrid.OpenNeighbourCases | Algorithms/Percolation.cpp:48-63 | the four guarded tests find exactly the open orthogonal neighbours |
| PercolationGrid.JoinedCompose | Algorithms/Percolation.cpp:48-63 | two connects through a shared site merge the union of their classes |
| PercolationGrid.LinkedNone | Algorithms/Percolation.cpp:9 | a fresh union-find of N² + 2 sites has no links yet |
| PercolationGrid.LinkTop | Algorithms/Percolation.cpp:25 | connecting one more top-row site adds it to the virtual top's class |
| PercolationGrid.LinkBottom | Algorithms/Percolation.cpp:27 | connecting one more bottom-row site adds it to the virtual bottom's class |
| PercolationGrid.RowLinks | Algorithms/Percolation.cpp:23-28 | after the loop's links the top row sits with the virtual top, the bottom row with the virtual bottom, and every other site on its own |
| PercolationGrid.FreshGridLinks | Algorithms/Percolation.cpp:23-28 | a new grid's top row is full, its bottom row joins the virtual bottom, the two virtual sites are connected iff N = 1, and inner sites are alone |
| PercolationGrid.GuardedSkipsSite | Algorithms/Percolation.cpp:45-63 | marking the site open changes none of its neighbours' open tests |
| PercolationGrid.OpenOneMore | Algorithms/Percolation.cpp:44-46 | opening a blocked site adds exactly that site to the open sites |
| PercolationGrid.Percolation.constructor | Algorithms/Percolation.cpp:7-28 | every real site starts blocked with count 0, and the top and bottom rows are linked to the virtual sites |
| PercolationGrid.NewPercolation | Algorithms/Percolation.cpp:7-13 | n ≤ 0 is an invalid argument; otherwise a new grid of dimension n |
| PercolationGrid.Percolation.IsOpen | Algorithms/Percolation.cpp:66-73 | row or col outside [1, N] is an invalid argument; otherwise true iff the site is open |
| PercolationGrid.Percolation.NumberOfOpenSites | Algorithms/Percolation.cpp:84-86 | the count equals the number of open real sites |
| PercolationGrid.Percolation.Open | Algorithms/Percolation.cpp:35-64 | row or col outside [1, N] is an invalid argument; an open site is left as it is; a blocked site is opened, counted once, and merged with its open neighbours' classes and no others |
| PercolationGrid.Percolation.OpenClosed | Algorithms/Percolation.cpp:43-63 | a blocked site is marked open, the count rises by 1, and its class merges with its open neighbours' classes |
| PercolationGrid.Percolation.IsFull | Algorithms/Percolation.cpp:75-82 | row or col outside [1, N] is an invalid argument; otherwise true iff the site is connected to the virtual top |
| PercolationGrid.Percolation.Percolates | Algorithms/Percolation.cpp:88-90 | true iff the virtual top is connected to the virtual bottom |
| PercolationGrid.LinkBorders | Algorithms/Percolation.cpp:23-28 | the loop links all N top-row sites to the virtual top and all N bottom-row sites to the virtual bottom |
| PercolationGrid.LinkToTop | Algorithms/Percolation.cpp:25 | one top-row link extends the linked top prefix by one site |
| PercolationGrid.LinkToBottom | Algorithms/Percolation.cpp:27 | one bottom-row link extends the linked bottom prefix by one site |
| PercolationGrid.ConnectOpenNeighbours | Algorithms/Percolation.cpp:48-63 | the four guarded connects merge the site's class with those of its open neighbours |
| PercolationGrid.GuardedRegroup | Algorithms/Percolation.cpp:48-63 | the left/right and up/down connects together cover exactly the guarded neighbours |
| PercolationGrid.JoinedRegroup | Algorithms/Percolation.cpp:48-63 | the classes merged by the two pairs of connects are those of the site and its guarded neighbours |
| PercolationGrid.ConnectQuad | Algorithms/Percolation.cpp:48-63 | four guarded connects merge the classes of the site and of each neighbour whose test holds |
| PercolationGrid.ConnectPair | Algorithms/Percolation.cpp:48-55 | two guarded connects merge the classes of the site and of each neighbour whose test holds |
| PercolationGrid.ConnectIf | Algorithms/Percolation.cpp:49-51 | a guarded connect merges the site's class with the neighbour's when the test holds and changes nothing otherwise |
| PercolationGrid.RepsAddIf | Algorithms/Percolation.cpp:49-51 | the classes one guarded connect touches are the site's and, when the test holds, the neighbour's |
| ResizingArrays.Pow2Double | Algorithms/ResizingArrays.h:54-56 | doubling keeps the capacity a power of two |
| ResizingArrays.Pow2Half | Algorithms/ResizingArrays.h:66-68 | halving a capacity of at least 2 keeps it a power of two |
| ResizingArrays.Wrap | Algorithms/ResizingArrays.h:154 | (head + i) % capacity wraps at most once |
| ResizingArrays.RingDistinct | Algorithms/ResizingArrays.h:113-115 | the first capacity slots from head are pairwise distinct |
| ResizingArrays.RingStep | Algorithms/ResizingArrays.h:135 | advancing a slot by one modulo capacity reaches the next slot from head |
| ResizingArrays.RingShift | Algorithms/ResizingArrays.h:168 | after head advances, slot i from the new head is slot i + 1 from the old one |
| ResizingArrays.RingFull | Algorithms/ResizingArrays.h:134-139 | capacity steps from head come back to head, so a full queue has head == tail |
| ResizingArrays.Reverse | Algorithms/ResizingArrays.h:32-44 | the reversed sequence holds item n − 1 − i at position i |
| ResizingArrays.Stack.constructor | Algorithms/ResizingArrays.h:13-16 | an empty stack with capacity 1; the same in Algorithms/Stacks.h:33-36 |
| ResizingArrays.Stack.Resize | Algorithms/ResizingArrays.h:19-30 | the new array has the new capacity and keeps items 0..n − 1; the same in Algorithms/ResizingArrays.cpp:16-29 and Algorithms/Stacks.cpp:50-62 |
| ResizingArrays.Stack.Push | Algorithms/ResizingArrays.h:53-58 | the item goes on top; the capacity doubles exactly when the stack was full; the capacity stays a power of two; the same in Algorithms/ResizingArrays.cpp:31-39 and Algorithms/Stacks.cpp:64-71 |
| ResizingArrays.Stack.Pop | Algorithms/ResizingArrays.h:61-70 | an empty stack is a logic error; otherwise the last pushed item comes off, after halving when n == capacity / 4; the same in Algorithms/ResizingArrays.cpp:41-53 and Algorithms/Stacks.cpp:73-84 |
| ResizingArrays.Stack.IsEmpty | Algorithms/ResizingArrays.h:73-75 | true iff the stack holds no items; the same in Algorithms/Stacks.cpp:86-89 |
| ResizingArrays.Stack.Size | Algorithms/ResizingArrays.h:78-80 | the number of items; the same in Algorithms/Stacks.cpp:91-94 |
| ResizingArrays.Stack.MaxSize | Algorithms/ResizingArrays.h:83-85 | the capacity: a power of two holding all items and at most four times their number; the same in Algorithms/Stacks.cpp:96-99 |
| ResizingArrays.Stack.Items | Algorithms/ResizingArrays.h:88-95 | iteration visits the items from the top down to the bottom; the same in Algorithms/ResizingArrays.cpp:72-82 |
| ResizingArrays.Queue.constructor | Algorithms/ResizingArrays.h:103-108 | an empty queue with capacity 1 |
| ResizingArrays.Queue.Resize | Algorithms/ResizingArrays.h:111-124 | the items are copied in queue order to slots 0..n − 1, with head = 0 and tail = n; the same in Algorithms/ResizingArrays.cpp:92-107 and Algorithms/Queues.cpp:61-75 |
| ResizingArrays.Queue.Unwrapped | Algorithms/ResizingArrays.h:121-123 | after a resize, item i sits in slot (head + i) % capacity and tail is slot n from head |
| ResizingArrays.Queue.Enqueue | Algorithms/ResizingArrays.h:149-156 | the item joins the back; the capacity doubles exactly when the queue was full; the same in Algorithms/ResizingArrays.cpp:109-119 and Algorithms/Queues.cpp:77-86 |
| ResizingArrays.Queue.Dequeue | Algorithms/ResizingArrays.h:159-171 | an empty queue is a logic error; otherwise the oldest item comes off, after halving when n == capacity / 4; the same in Algorithms/ResizingArrays.cpp:121-136 and Algorithms/Queues.cpp:88-102 |
| ResizingArrays.Queue.IsEmpty | Algorithms/ResizingArrays.h:174-176 | true iff the queue holds no items; the same in Algorithms/Queues.cpp:104-107 |
| ResizingArrays.Queue.Size | Algorithms/ResizingArrays.h:179-181 | the number of items; the same in Algorithms/Queues.cpp:109-112 |
| ResizingArrays.Queue.MaxSize | Algorithms/ResizingArrays.h:184-186 | the capacity: a power of two holding all items and at most four times their number; the same in Algorithms/Queues.cpp:114-117 |
| ResizingArrays.Queue.Items | Algorithms/ResizingArrays.h:189-196 | as written, iteration from head to tail visits all items in order unless the queue is full, and then visits none |
| ResizingArrays.Queue.ItemsInOrder | Algorithms/ResizingArrays.h:126-140 | n steps from head visit every item once, front to back |
| ResizingArrays.OneItemQueue | Algorithms/ResizingArrays.h:134-139 | after one enqueue the queue holds one item but the iteration visits none |
| LinkedLists.ChainDistinct | Algorithms/LinkedLists.h:65-72 | the nodes of a stack or queue are pairwise distinct |
| LinkedLists.DChainDistinct | Algorithms/LinkedLists.h:307-341 | the nodes of a deque are pairwise distinct |
| LinkedLists.LastDistinct | Algorithms/LinkedLists.h:180-195 | the tail node is different from every other node |
| LinkedLists.ConsSlice | Algorithms/LinkedLists.h:19-30 | putting item i in front of items i + 1.. gives items i.. |
| LinkedLists.Stack.constructor | Algorithms/LinkedLists.h:15-17 | an empty stack |
| LinkedLists.Stack.Copy | Algorithms/LinkedLists.h:19-30 | the copy holds the same items from top to bottom |
| LinkedLists.Stack.Assign | Algorithms/LinkedLists.h:32-53 | the stack takes the other's items in the same order, and the other is unchanged, including on self-assignment |
| LinkedLists.Stack.Clear | Algorithms/LinkedLists.h:32-53 | popping every node leaves an empty stack |
| LinkedLists.Stack.PushReversed | Algorithms/LinkedLists.h:19-30 | pushing a buffer from its last item down puts the buffer on top in its own order |
| LinkedLists.Stack.Push | Algorithms/LinkedLists.h:65-72 | the item goes on top and the count grows by one; the same in Algorithms/LinkedLists.cpp:17-23 and Algorithms/Stacks.cpp:17-23 |
| LinkedLists.Stack.Pop | Algorithms/LinkedLists.h:74-87 | an empty stack is a logic error; otherwise the most recent item comes off; the same in Algorithms/LinkedLists.cpp:25-36 and Algorithms/Stacks.cpp:25-36 |
| LinkedLists.Stack.IsEmpty | Algorithms/LinkedLists.h:89-92 | true iff the stack holds no items, iff head is null; the same in Algorithms/LinkedLists.cpp:38-41 and Algorithms/Stacks.cpp:38-41 |
| LinkedLists.Stack.Size | Algorithms/LinkedLists.h:95-98 | the count equals the number of items and of nodes reachable from head |
| LinkedLists.Stack.Items | Algorithms/LinkedLists.h:101-110 | iteration visits the items from top to bottom |
| LinkedLists.Queue.constructor | Algorithms/LinkedLists.h:143-145 | an empty queue |
| LinkedLists.Queue.Copy | Algorithms/LinkedLists.h:147-152 | the copy holds the same items from front to back |
| LinkedLists.Queue.Assign | Algorithms/LinkedLists.h:154-168 | the queue takes the other's items in the same order, and the other is unchanged, including on self-assignment |
| LinkedLists.Queue.Clear | Algorithms/LinkedLists.h:154-168 | popping every node leaves an empty queue with a null tail |
| LinkedLists.Queue.PushAll | Algorithms/LinkedLists.h:147-152 | pushing a sequence appends it in order |
| LinkedLists.Queue.Push | Algorithms/LinkedLists.h:180-195 | the item joins the back in a new tail node; the same in Algorithms/LinkedLists.cpp:54-67 and Algorithms/Queues.cpp:17-30 |
| LinkedLists.Queue.Pop | Algorithms/LinkedLists.h:197-214 | an empty queue is a logic error; otherwise the front item comes off, and tail becomes null when the queue empties, which the count test at Algorithms/LinkedLists.h:216-219 decides; the same in Algorithms/LinkedLists.cpp:69-84 and Algorithms/Queues.cpp:32-47 |
| LinkedLists.Queue.IsEmpty | Algorithms/LinkedLists.cpp:86-89 | true iff head is null, iff the queue holds no items; the same in Algorithms/Queues.cpp:49-52 |
| LinkedLists.Queue.Size | Algorithms/LinkedLists.h:222-225 | the count equals the number of items and of nodes reachable from head |
| LinkedLists.Queue.Items | Algorithms/LinkedLists.h:228-237 | iteration visits the items from front to back |
| LinkedLists.Deque.constructor | Algorithms/LinkedLists.h:271-273 | an empty deque |
| LinkedLists.Deque.Copy | Algorithms/LinkedLists.h:275-280 | the copy holds the same items from front to back |
| LinkedLists.Deque.Assign | Algorithms/LinkedLists.h:282-295 | the deque takes the other's items in the same order, and the other is unchanged |
| LinkedLists.Deque.Clear | Algorithms/LinkedLists.h:282-295 | popping every node leaves an empty deque |
| LinkedLists.Deque.PushAll | Algorithms/LinkedLists.h:275-280 | pushing a sequence at the back of an empty deque gives that sequence |
| LinkedLists.Deque.PushBack | Algorithms/LinkedLists.h:307-323 | the item joins the back in a new tail node, linked both ways |
| LinkedLists.Deque.PushFront | Algorithms/LinkedLists.h:325-341 | the item joins the front in a new head node, linked both ways |
| LinkedLists.Deque.PopBack | Algorithms/LinkedLists.h:343-363 | an empty deque is a logic error; otherwise the back item comes off, and both ends become null when the deque empties |
| LinkedLists.Deque.PopFront | Algorithms/LinkedLists.h:365-385 | an empty deque is a logic error; otherwise the front item comes off, and both ends become null when the deque empties |
| LinkedLists.Deque.IsEmpty | Algorithms/LinkedLists.h:387-390 | true iff the deque holds no items, iff head is null |
| LinkedLists.Deque.Size | Algorithms/LinkedLists.h:393-396 | the count equals the number of items and of nodes reachable from head |
| LinkedLists.Deque.Items | Algorithms/LinkedLists.h:399-408 | iteration visits the items from front to back |
| LinkedLists.Numbered | Algorithms/Algorithms.cpp:30-32 | the k-th of the n strings is the prefix followed by digit k |
| LinkedLists.ScenarioItems | Algorithms/Algorithms.cpp:29-38 | after enqueueing "0".."4", dequeueing two and enqueueing "2nd 0".."2nd 2", the queue holds "2", "3", "4", "2nd 0", "2nd 1", "2nd 2" |
| LinkedLists.DrainScenario | Algorithms/Algorithms.cpp:29-46 | the iteration and the drain both yield "2", "3", "4", "2nd 0", "2nd 1", "2nd 2" |
| LinkedLists.Drain | Algorithms/Algorithms.cpp:44-46 | dequeueing until empty yields the items front to back and leaves the queue empty |

## Left out

- `PercolationStats` is not part of this model: it is a Monte-Carlo driver with clock-seeded randomness, floating-point statistics and console output.
- `Sorting::shuffle` is not part of this model: it is a clock-seeded random permutation.
- `Board::string_representation` is not modelled as text. `equals` compares the dimension and the tiles, which is exactly what the two renderings compare.
- The `sqrt` in the `Board` constructor: N is given with the tiles (`|tiles| == N·N`).
- `Sorting::MinPriorityQueue` is defined in no file of the repository. Each frontier is a sequence of nodes whose pop returns a node of least f-value and removes one copy of it. Ties between nodes of equal f-value may be broken either way, so the model does not fix which of them is popped.
- The `prev` pointers into `game_tree` are modelled as indices into an append-only sequence. In the C++ they point into a `std::vector` that may reallocate while it grows; the model does not capture that pointer validity.
- AStar.Solver.constructor: `a_star` is an unbounded `while (true)` loop; the model runs it for at most `fuel` rounds. So a solver may stop still searching, with `is_solvable` false and `min_moves` −1. The parity argument that exactly one of the two searches reaches a goal is not modelled.
- AStar.Solver.Search: for the same reason it promises only that the solver invariant is kept, not that a goal is reached.
- The header `Algorithms/AStar.h` declares a single `pq`, and neither `pq2`, `game_tree`, `solvable` nor `number_of_moves`; the model follows `Algorithms/AStar.cpp`. The initial values `solvable = false` and `number_of_moves = -1` are assumed, which matches `min_moves` reporting −1 for an unsolvable board.
- `twin`: the code swaps the first and the last non-blank tiles, not two neighbouring tiles, and the model follows the code.
- C++ `int` width is not modelled: integers are unbounded, so an overflow of `capacity * 2`, of `n * n + 2` or of a move count is not captured.
- Destructors, `new`/`delete[]` and memory ownership are left out; Dafny's heap stands in for them.
- C++ iterator objects (`begin`, `end`, `operator++`) are modelled as methods that return the sequence the iteration visits.
- The copy constructors' and `operator=`'s temporary arrays are modelled as sequences.
- LinkedLists.Deque.Assign: requires the other deque to be the same object or to share no node with this one. The C++ has no such condition, but two distinct well-formed deques never share nodes.
- QuickUnion.UnionFind.constructor: requires n > 0. The throw for n ≤ 0 is modelled by `QuickUnion.NewUnionFind`.
- PercolationGrid.Percolation.constructor: requires n > 0. The throw for n ≤ 0 is modelled by `PercolationGrid.NewPercolation`. The C++ constructor builds its `UnionFind` of n·n + 2 sites before it tests n. That count is at least 2 for every n, so the `UnionFind` constructor does not throw there. The `invalid_argument` comes from the test of n in Algorithms/Percolation.cpp:11-13.
- Sorting: the `assert`s of `Algorithms/Sorting.h` are compiled out. Their preconditions (sorted input to `binary_search` and to `merge`) are `requires` clauses of the model.
- Sorting: the containers are modelled as `array<int>`, not as any container with random access over any ordered type.

## Findings

| source | as written | input that shows it | evidently intended | confidence | as-written member | corrected member |
|---|---|---|---|---|---|---|
| Algorithms/ResizingArrays.h:189-196 | the queue's iteration runs from slot `head` to slot `tail`, but a full queue has `head == tail`, so `begin()` equals `end()` and nothing is visited | a new `Queue<int>`, then `enqueue(7)`: the capacity is 1, so the queue is full with head == tail == 0 and the loop over it visits no item although `size()` is 1 | visit all `size()` items from the front to the back | not executed | ResizingArrays.Queue.Items | ResizingArrays.Queue.ItemsInOrder |
