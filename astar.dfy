/** The A* solver for the sliding puzzle. Two searches run in lockstep, one
    from the initial board and one from its twin, and the first search to pop
    a goal board decides. The solver relies on the parity fact that exactly
    one of the two boards is solvable; this module does not prove that fact,
    and proves only what each search records. */
module AStar {
  import opened Wrappers
  import opened Puzzle

  /** A search node. prev is the index of the parent node in the same
      search's game tree, where the C++ node holds a pointer to it. */
  datatype Node = Node(board: Board, prev: Option<nat>, moves: nat, manhattan: nat)

  /** The f-value A* orders its frontier by: moves so far plus heuristic. */
  function Priority(x: Node): nat {
    x.moves + x.manhattan
  }

  /** Node::operator<. */
  predicate Less(a: Node, b: Node) {
    Priority(a) < Priority(b)
  }

  /** operator< is a strict weak order whose incomparable nodes are exactly
      those with equal f-value. */
  lemma LessIsStrictWeakOrder(a: Node, b: Node, c: Node)
    ensures !Less(a, a)
    ensures Less(a, b) ==> !Less(b, a)
    ensures Less(a, b) && Less(b, c) ==> Less(a, c)
    ensures !Less(a, b) && !Less(b, a) <==> Priority(a) == Priority(b)
    ensures !Less(a, b) && !Less(b, a) && !Less(b, c) && !Less(c, b) ==> !Less(a, c) && !Less(c, a)
  {
  }

  // ---------------------------------------------------------------------
  // The frontier: the nodes held by a MinPriorityQueue, in no particular order

  /** Every nonempty frontier holds a node that no other node precedes. */
  lemma {:induction false} MinimalExists(pq: seq<Node>)
    requires |pq| > 0
    ensures exists m :: 0 <= m < |pq| && forall j :: 0 <= j < |pq| ==> !Less(pq[j], pq[m])
  {
    if |pq| > 1 {
      var front := pq[..|pq| - 1];
      MinimalExists(front);
      var m :| 0 <= m < |front| && forall j :: 0 <= j < |front| ==> !Less(front[j], front[m]);
      if Less(pq[|pq| - 1], pq[m]) {
        assert forall j :: 0 <= j < |pq| ==> !Less(pq[j], pq[|pq| - 1]);
      } else {
        assert forall j :: 0 <= j < |pq| ==> !Less(pq[j], pq[m]);
      }
    } else {
      assert forall j :: 0 <= j < |pq| ==> !Less(pq[j], pq[0]);
    }
  }

  /** The frontier after one occurrence of x leaves it. */
  function Without(pq: seq<Node>, x: Node): seq<Node>
  {
    if pq == [] then []
    else if pq[0] == x then pq[1..]
    else [pq[0]] + Without(pq[1..], x)
  }

  /** Removing a node takes exactly one copy of it off the frontier and
      leaves every other node on it. */
  lemma {:induction false} WithoutRemovesOne(pq: seq<Node>, x: Node)
    ensures multiset(Without(pq, x)) == multiset(pq) - multiset{x}
    ensures forall y :: y in Without(pq, x) ==> y in pq
  {
    if pq != [] {
      assert pq == [pq[0]] + pq[1..];
      if pq[0] != x {
        WithoutRemovesOne(pq[1..], x);
      }
    }
  }

  /** MinPriorityQueue::pop_min, known only by its contract: some node of
      least f-value is removed and returned. */
  method PopMin(pq: seq<Node>) returns (top: Node, rest: seq<Node>)
    requires |pq| > 0
    ensures top in pq && forall x :: x in pq ==> !Less(x, top)
    ensures rest == Without(pq, top)
  {
    MinimalExists(pq);
    var m :| 0 <= m < |pq| && forall j :: 0 <= j < |pq| ==> !Less(pq[j], pq[m]);
    top := pq[m];
    rest := Without(pq, top);
  }

  // ---------------------------------------------------------------------
  // Game trees

  function Last(tree: seq<Node>): Node
    requires |tree| > 0
  {
    tree[|tree| - 1]
  }

  /** x is a node one search may create when its game tree is `tree`: a
      valid board with its Manhattan distance; a root holds the search's
      starting board after 0 moves; any other node holds one slide of its
      parent (whose index is below `bound`), one move more than the parent,
      and never the parent's own parent board. */
  ghost predicate Linked(tree: seq<Node>, bound: nat, x: Node, root: Board) {
    && x.board.Valid()
    && x.manhattan == ManhattanOf(x.board)
    && match x.prev
       case None => x.board == root && x.moves == 0
       case Some(i) =>
         && i < bound && i < |tree|
         && tree[i].board.Valid()
         && x.moves == tree[i].moves + 1
         && IsSlide(tree[i].board, x.board)
         && match tree[i].prev
            case None => true
            case Some(g) => g < |tree| && x.board != tree[g].board
  }

  /** Every node of the tree links to an earlier node of the tree. */
  ghost predicate Arena(tree: seq<Node>, root: Board) {
    forall k {:trigger Linked(tree, k, tree[k], root)} :: 0 <= k < |tree| ==> Linked(tree, k, tree[k], root)
  }

  /** Every node on the frontier links into the tree. */
  ghost predicate Frontier(tree: seq<Node>, pq: seq<Node>, root: Board) {
    forall x {:trigger Linked(tree, |tree|, x, root)} :: x in pq ==> Linked(tree, |tree|, x, root)
  }

  lemma LinkedExtends(tree: seq<Node>, ext: seq<Node>, bound: nat, bound': nat, x: Node, root: Board)
    requires Linked(tree, bound, x, root) && bound <= bound'
    ensures Linked(tree + ext, bound', x, root)
  {
    if x.prev.Some? {
      var i := x.prev.value;
      assert (tree + ext)[i] == tree[i];
      if tree[i].prev.Some? {
        assert (tree + ext)[tree[i].prev.value] == tree[tree[i].prev.value];
      }
    }
  }

  /** Appending a node that links into the tree keeps an arena an arena. */
  lemma ArenaAppend(tree: seq<Node>, x: Node, root: Board)
    requires Arena(tree, root) && Linked(tree, |tree|, x, root)
    ensures Arena(tree + [x], root)
  {
    forall k | 0 <= k < |tree| + 1
      ensures Linked(tree + [x], k, (tree + [x])[k], root)
    {
      if k < |tree| {
        LinkedExtends(tree, [x], k, k, tree[k], root);
      } else {
        LinkedExtends(tree, [x], k, k, x, root);
      }
    }
  }

  lemma FrontierAppend(tree: seq<Node>, x: Node, pq: seq<Node>, root: Board)
    requires Frontier(tree, pq, root)
    ensures Frontier(tree + [x], pq, root)
  {
    forall y | y in pq
      ensures Linked(tree + [x], |tree| + 1, y, root)
    {
      LinkedExtends(tree, [x], |tree|, |tree| + 1, y, root);
    }
  }

  // ---------------------------------------------------------------------
  // Expanding a node

  /** The board a_star will not push as a child of the tree's last node: the
      board of that node's parent. */
  function Grandparent(tree: seq<Node>): Option<Board>
    requires |tree| > 0
  {
    var parent := Last(tree);
    if parent.prev.Some? && parent.prev.value < |tree| then Some(tree[parent.prev.value].board) else None
  }

  /** The nodes a_star pushes, in order, when it expands the node at index
      `parent` whose neighbours are `boards`: one node per board except the
      excluded one (the parent's own parent board), `moves` moves deep. */
  function Children(boards: seq<Board>, parent: nat, moves: nat, exclude: Option<Board>): seq<Node>
  {
    if boards == [] then []
    else
      var c := boards[|boards| - 1];
      Children(boards[..|boards| - 1], parent, moves, exclude) +
      (if exclude == Some(c) then [] else [Node(c, Some(parent), moves, ManhattanOf(c))])
  }

  lemma ChildrenSnoc(boards: seq<Board>, c: Board, parent: nat, moves: nat, exclude: Option<Board>)
    ensures Children(boards + [c], parent, moves, exclude) == Children(boards, parent, moves, exclude) +
      (if exclude == Some(c) then [] else [Node(c, Some(parent), moves, ManhattanOf(c))])
  {
    assert (boards + [c])[..|boards|] == boards;
  }

  /** Every child holds one of the boards other than the excluded one, links
      to the parent, and carries its board's Manhattan distance. */
  lemma {:induction false} ChildrenSound(boards: seq<Board>, parent: nat, moves: nat, exclude: Option<Board>)
    ensures forall x :: x in Children(boards, parent, moves, exclude) ==>
      && x.board in boards && exclude != Some(x.board)
      && x.prev == Some(parent) && x.moves == moves
      && x.manhattan == ManhattanOf(x.board)
  {
    if boards != [] {
      var front := boards[..|boards| - 1];
      ChildrenSound(front, parent, moves, exclude);
      forall x | x in Children(front, parent, moves, exclude)
        ensures x.board in boards
      {
        assert x.board in front;
      }
    }
  }

  /** Every board other than the excluded one gets a child. */
  lemma {:induction false} ChildrenComplete(boards: seq<Board>, parent: nat, moves: nat, exclude: Option<Board>)
    ensures forall c :: c in boards && exclude != Some(c) ==>
      exists x :: x in Children(boards, parent, moves, exclude) && x.board == c
  {
    if boards != [] {
      var front, c := boards[..|boards| - 1], boards[|boards| - 1];
      assert boards == front + [c];
      ChildrenComplete(front, parent, moves, exclude);
      var cs := Children(boards, parent, moves, exclude);
      forall d | d in boards && exclude != Some(d)
        ensures exists x :: x in cs && x.board == d
      {
        if d in front {
          var x :| x in Children(front, parent, moves, exclude) && x.board == d;
          assert x in cs;
        } else {
          assert cs[|cs| - 1].board == d;
        }
      }
    }
  }

  /** For distinct boards exactly the excluded board, if present, is dropped. */
  lemma {:induction false} ChildrenCount(boards: seq<Board>, parent: nat, moves: nat, exclude: Option<Board>)
    requires forall i, j :: 0 <= i < j < |boards| ==> boards[i] != boards[j]
    ensures |Children(boards, parent, moves, exclude)| ==
      |boards| - (if exclude.Some? && exclude.value in boards then 1 else 0)
  {
    if boards != [] {
      var front, c := boards[..|boards| - 1], boards[|boards| - 1];
      assert boards == front + [c];
      forall i, j | 0 <= i < j < |front|
        ensures front[i] != front[j]
      {
        assert front[i] == boards[i] && front[j] == boards[j];
      }
      ChildrenCount(front, parent, moves, exclude);
      if exclude == Some(c) {
        forall i | 0 <= i < |front|
          ensures front[i] != c
        {
          assert front[i] == boards[i];
        }
      }
    }
  }

  function ChildrenOf(tree: seq<Node>, boards: seq<Board>): seq<Node>
    requires |tree| > 0
  {
    Children(boards, |tree| - 1, Last(tree).moves + 1, Grandparent(tree))
  }

  /** A node one slide away from the last node of an arena, one move deeper,
      and not holding the grandparent board, links into the arena. */
  lemma ChildLinked(tree: seq<Node>, root: Board, x: Node)
    requires |tree| > 0 && Linked(tree, |tree| - 1, Last(tree), root)
    requires x.board.Valid() && x.manhattan == ManhattanOf(x.board)
    requires x.prev == Some(|tree| - 1) && x.moves == Last(tree).moves + 1
    requires IsSlide(Last(tree).board, x.board) && Grandparent(tree) != Some(x.board)
    ensures Linked(tree, |tree|, x, root)
  {
  }

  /** Every child pushed for the last node of an arena links into it. */
  lemma ChildrenLinked(tree: seq<Node>, root: Board)
    requires |tree| > 0 && Arena(tree, root) && Last(tree).board.Valid()
    ensures forall x :: x in ChildrenOf(tree, NeighbourList(Last(tree).board)) ==> Linked(tree, |tree|, x, root)
  {
    var k := |tree| - 1;
    assert Linked(tree, k, tree[k], root);
    ChildrenLinkedToLast(tree, root);
  }

  /** Every child pushed for the last node links into the tree when that
      node does. */
  lemma ChildrenLinkedToLast(tree: seq<Node>, root: Board)
    requires |tree| > 0 && Linked(tree, |tree| - 1, Last(tree), root)
    ensures forall x :: x in ChildrenOf(tree, NeighbourList(Last(tree).board)) ==> Linked(tree, |tree|, x, root)
  {
    var boards := NeighbourList(Last(tree).board);
    ChildrenSound(boards, |tree| - 1, Last(tree).moves + 1, Grandparent(tree));
    forall x | x in ChildrenOf(tree, boards)
      ensures Linked(tree, |tree|, x, root)
    {
      NeighbourSlide(Last(tree).board, x.board);
      ChildLinked(tree, root, x);
    }
  }

  /** A node always has a child to push: it has at least two distinct
      neighbours and at most one of them is its grandparent board. */
  lemma ChildrenExist(tree: seq<Node>)
    requires |tree| > 0 && Last(tree).board.Valid()
    ensures |ChildrenOf(tree, NeighbourList(Last(tree).board))| >= 1
  {
    var b := Last(tree).board;
    NeighbourCount(b);
    NeighboursDistinct(b);
    ChildrenCount(NeighbourList(b), |tree| - 1, Last(tree).moves + 1, Grandparent(tree));
  }

  /** Pushing the children of one more neighbour board extends the children
      of the boards before it by that board's child, unless it is the
      grandparent board. */
  lemma ChildrenPrefix(tree: seq<Node>, boards: seq<Board>, i: nat)
    requires |tree| > 0 && i < |boards|
    ensures ChildrenOf(tree, boards[..i + 1]) == ChildrenOf(tree, boards[..i]) +
      (if Grandparent(tree) == Some(boards[i]) then []
       else [Node(boards[i], Some(|tree| - 1), Last(tree).moves + 1, ManhattanOf(boards[i]))])
  {
    assert boards[..i + 1] == boards[..i] + [boards[i]];
    ChildrenSnoc(boards[..i], boards[i], |tree| - 1, Last(tree).moves + 1, Grandparent(tree));
  }

  /** The loop of a_star that pushes the children of the node it has just
      appended to a game tree (the C++ code repeats it for each search). */
  method PushChildren(tree: seq<Node>, pq: seq<Node>) returns (pq': seq<Node>)
    requires |tree| > 0 && Last(tree).board.Valid()
    requires Last(tree).prev.Some? ==> Last(tree).prev.value < |tree|
    ensures pq' == pq + ChildrenOf(tree, NeighbourList(Last(tree).board))
  {
    var boards := Neighbours(tree[|tree| - 1].board);
    NeighboursValid(tree[|tree| - 1].board);
    pq' := PushBoards(tree, boards, pq);
  }

  /** One turn of that loop: the neighbour board is skipped when it is the
      grandparent board and pushed as a child node otherwise. */
  method PushBoard(tree: seq<Node>, board: Board, pq: seq<Node>) returns (pq': seq<Node>)
    requires |tree| > 0 && board.Valid()
    requires Last(tree).prev.Some? ==> Last(tree).prev.value < |tree|
    ensures Grandparent(tree) == Some(board) ==> pq' == pq
    ensures Grandparent(tree) != Some(board) ==>
      pq' == pq + [Node(board, Some(|tree| - 1), Last(tree).moves + 1, ManhattanOf(board))]
  {
    var current := tree[|tree| - 1];
    if current.prev.Some? && Equals(board, tree[current.prev.value].board) {
      return pq;
    }
    var h := Manhattan(board);
    pq' := pq + [Node(board, Some(|tree| - 1), current.moves + 1, h)];
  }

  /** The for loop over the neighbour boards: every board except the
      grandparent board becomes a child node on the frontier. */
  method PushBoards(tree: seq<Node>, boards: seq<Board>, pq: seq<Node>) returns (pq': seq<Node>)
    requires |tree| > 0
    requires Last(tree).prev.Some? ==> Last(tree).prev.value < |tree|
    requires forall k :: 0 <= k < |boards| ==> boards[k].Valid()
    ensures pq' == pq + ChildrenOf(tree, boards)
  {
    pq' := pq;
    var i := 0;
    while i < |boards|
      invariant 0 <= i <= |boards|
      invariant pq' == pq + ChildrenOf(tree, boards[..i])
    {
      ChildrenPrefix(tree, boards, i);
      pq' := PushBoard(tree, boards[i], pq');
      i := i + 1;
    }
    assert boards[..|boards|] == boards;
  }

  /** Expanding a frontier node keeps the search's invariant: once the node
      joins the game tree, the tree is still an arena, and the other frontier
      nodes followed by the node's children form a nonempty frontier of it. */
  lemma Expand(tree: seq<Node>, pq: seq<Node>, node: Node, rest: seq<Node>, root: Board)
    requires Arena(tree, root) && Frontier(tree, pq, root)
    requires node in pq && forall x :: x in rest ==> x in pq
    ensures Arena(tree + [node], root) && node.board.Valid()
    ensures node.prev.Some? ==> node.prev.value < |tree|
    ensures var pq' := rest + ChildrenOf(tree + [node], NeighbourList(node.board));
      |pq'| > 0 && Frontier(tree + [node], pq', root)
  {
    assert Linked(tree, |tree|, node, root);
    ArenaAppend(tree, node, root);
    var t := tree + [node];
    forall x | x in rest
      ensures Linked(t, |t|, x, root)
    {
      assert Linked(tree, |tree|, x, root);
      LinkedExtends(tree, [node], |tree|, |t|, x, root);
    }
    ChildrenLinked(t, root);
    ChildrenExist(t);
  }

  // ---------------------------------------------------------------------
  // The solver

  datatype Outcome = Searching | SolvedOriginal | SolvedTwin

  /** The solver's invariant, over the values of its fields: both game trees
      are arenas rooted at the initial board and at its twin; while the
      search goes on both frontiers are nonempty frontiers of their trees;
      a solved original search ends its tree with a goal node whose move
      count is the recorded number of moves; a solved twin search leaves the
      original tree empty and the number of moves -1, and has popped a goal
      node of the twin's search (the ghost witness twinGoal). */
  ghost predicate SolverInv(initial: Board, tree: seq<Node>, tree2: seq<Node>, pq: seq<Node>,
    pq2: seq<Node>, solvable: bool, numberOfMoves: int, twinGoal: Option<Node>, outcome: Outcome)
  {
    && initial.Valid()
    && Arena(tree, initial)
    && Arena(tree2, TwinOf(initial))
    && (solvable <==> outcome == SolvedOriginal)
    && (outcome != SolvedOriginal ==> numberOfMoves == -1)
    && (outcome == Searching ==>
          && |pq| > 0 && |pq2| > 0
          && Frontier(tree, pq, initial)
          && Frontier(tree2, pq2, TwinOf(initial)))
    && (outcome == SolvedOriginal ==>
          && |tree| > 0
          && HammingOf(Last(tree).board) == 0
          && numberOfMoves == Last(tree).moves)
    && (outcome == SolvedTwin ==> tree == [] && TwinGoalReached(initial, tree2, twinGoal))
  }

  /** g is a goal node of the twin's search: a goal board reached from the
      twin of the initial board by slides, linked into the twin's game tree. */
  ghost predicate TwinGoalReached(initial: Board, tree2: seq<Node>, g: Option<Node>) {
    && initial.Valid()
    && g.Some?
    && HammingOf(g.value.board) == 0
    && Linked(tree2, |tree2|, g.value, TwinOf(initial))
  }

  /** The nodes a round pops hold valid boards. */
  lemma Popped(initial: Board, tree: seq<Node>, tree2: seq<Node>, pq: seq<Node>, pq2: seq<Node>,
    solvable: bool, numberOfMoves: int, twinGoal: Option<Node>, node: Node, node2: Node)
    requires SolverInv(initial, tree, tree2, pq, pq2, solvable, numberOfMoves, twinGoal, Searching)
    requires node in pq && node2 in pq2
    ensures node.board.Valid() && node2.board.Valid()
  {
    assert Linked(tree, |tree|, node, initial);
    assert Linked(tree2, |tree2|, node2, TwinOf(initial));
  }

  /** A round that pops no goal keeps the search going: each popped node
      joins its tree, and the rest of its frontier followed by the node's
      children is the new frontier. */
  lemma KeepSearching(initial: Board, tree: seq<Node>, tree2: seq<Node>, pq: seq<Node>, pq2: seq<Node>,
    solvable: bool, numberOfMoves: int, twinGoal: Option<Node>, node: Node, node2: Node)
    requires SolverInv(initial, tree, tree2, pq, pq2, solvable, numberOfMoves, twinGoal, Searching)
    requires node in pq && node2 in pq2
    ensures node.board.Valid() && node2.board.Valid()
    ensures node.prev.Some? ==> node.prev.value < |tree|
    ensures node2.prev.Some? ==> node2.prev.value < |tree2|
    ensures SolverInv(initial, tree + [node], tree2 + [node2],
      Without(pq, node) + ChildrenOf(tree + [node], NeighbourList(node.board)),
      Without(pq2, node2) + ChildrenOf(tree2 + [node2], NeighbourList(node2.board)),
      solvable, numberOfMoves, twinGoal, Searching)
  {
    WithoutRemovesOne(pq, node);
    WithoutRemovesOne(pq2, node2);
    Expand(tree, pq, node, Without(pq, node), initial);
    Expand(tree2, pq2, node2, Without(pq2, node2), TwinOf(initial));
  }

  /** Popping a goal from the original frontier solves the puzzle in that
      node's number of moves. */
  lemma SolveOriginal(initial: Board, tree: seq<Node>, tree2: seq<Node>, pq: seq<Node>, pq2: seq<Node>,
    solvable: bool, numberOfMoves: int, twinGoal: Option<Node>, node: Node, rest: seq<Node>, rest2: seq<Node>)
    requires SolverInv(initial, tree, tree2, pq, pq2, solvable, numberOfMoves, twinGoal, Searching)
    requires node in pq && HammingOf(node.board) == 0
    ensures SolverInv(initial, tree + [node], tree2, rest, rest2, true, node.moves, twinGoal, SolvedOriginal)
  {
    assert Linked(tree, |tree|, node, initial);
    ArenaAppend(tree, node, initial);
  }

  /** Popping a goal from the twin frontier first declares the initial board
      unsolvable; the popped node is the witness that the twin reaches a goal. */
  lemma SolveTwin(initial: Board, tree: seq<Node>, tree2: seq<Node>, pq: seq<Node>, pq2: seq<Node>,
    solvable: bool, numberOfMoves: int, twinGoal: Option<Node>, node2: Node, rest: seq<Node>, rest2: seq<Node>)
    requires SolverInv(initial, tree, tree2, pq, pq2, solvable, numberOfMoves, twinGoal, Searching)
    requires node2 in pq2 && HammingOf(node2.board) == 0
    ensures SolverInv(initial, [], tree2, rest, rest2, solvable, numberOfMoves, Some(node2), SolvedTwin)
  {
    assert Linked(tree2, |tree2|, node2, TwinOf(initial));
  }

  /** The loop of Solver::solution: starting from the last node of an arena,
      follow the parent links back to the root, putting each board in front
      of the ones already collected. The boards run from the root board to
      the last node's board, one slide apart, one per move, and never slide
      straight back. */
  method Trace(tree: seq<Node>, ghost root: Board) returns (boards: seq<Board>)
    requires |tree| > 0 && Arena(tree, root)
    ensures |boards| == Last(tree).moves + 1
    ensures boards[0] == root && boards[|boards| - 1] == Last(tree).board
    ensures forall j :: 0 <= j < |boards| - 1 ==> boards[j].Valid() && IsSlide(boards[j], boards[j + 1])
    ensures forall j :: 0 <= j < |boards| - 2 ==> boards[j + 2] != boards[j]
  {
    var node := tree[|tree| - 1];
    ghost var k := |tree| - 1;
    ghost var child := k;
    boards := [node.board];
    while node.prev.Some?
      invariant 0 <= k < |tree| && node == tree[k]
      invariant node.moves <= Last(tree).moves
      invariant |boards| == Last(tree).moves - node.moves + 1
      invariant boards[0] == node.board && boards[|boards| - 1] == Last(tree).board
      invariant forall j :: 0 <= j < |boards| - 1 ==> boards[j].Valid() && IsSlide(boards[j], boards[j + 1])
      invariant forall j :: 0 <= j < |boards| - 2 ==> boards[j + 2] != boards[j]
      invariant |boards| >= 2 ==>
        k < child < |tree| && tree[child].prev == Some(k) && boards[1] == tree[child].board
      decreases k
    {
      assert Linked(tree, k, node, root);
      if |boards| >= 2 {
        assert Linked(tree, child, tree[child], root);
      }
      var parent := node.prev.value;
      child := k;
      k := parent;
      node := tree[parent];
      boards := [node.board] + boards;
    }
    assert Linked(tree, k, node, root);
  }

  class Solver {
    var pq: seq<Node>
    var pq2: seq<Node>
    var gameTree: seq<Node>
    var gameTree2: seq<Node>
    var solvable: bool
    var numberOfMoves: int
    /** The board the solver was built from. */
    ghost var initial: Board
    /** Where a_star stands: still searching, or stopped by a goal popped
        from the original or from the twin search. */
    ghost var outcome: Outcome
    /** The goal node popped from the twin's frontier, once there is one. */
    ghost var twinGoal: Option<Node>

    ghost predicate Valid()
      reads this
    {
      SolverInv(initial, gameTree, gameTree2, pq, pq2, solvable, numberOfMoves, twinGoal, outcome)
    }

    /** Solver::Solver: seed each frontier with its root node and run a_star,
        here for at most `fuel` rounds. */
    constructor (initial: Board, fuel: nat)
      requires initial.Valid()
      ensures Valid() && this.initial == initial
    {
      var h := Manhattan(initial);
      var twin := Twin(initial);
      TwinIsTransposition(initial);
      var h2 := Manhattan(twin);
      pq := [Node(initial, None, 0, h)];
      pq2 := [Node(twin, None, 0, h2)];
      gameTree, gameTree2 := [], [];
      solvable, numberOfMoves := false, -1;
      this.initial := initial;
      outcome, twinGoal := Searching, None;
      new;
      Search(fuel);
    }

    /** Solver::a_star, cut off after `fuel` rounds. */
    method Search(fuel: nat)
      requires Valid() && outcome == Searching
      modifies this
      ensures Valid() && initial == old(initial)
    {
      var rounds := 0;
      while rounds < fuel
        invariant Valid() && initial == old(initial) && outcome == Searching
        decreases fuel - rounds
      {
        var done, node, node2 := Step();
        if done {
          break;
        }
        rounds := rounds + 1;
      }
    }

    /** One round of a_star's loop. Both frontiers pop a node of least
        f-value; the original's goal test comes first and records the
        solution; a goal in the twin search clears the game tree instead;
        otherwise each popped node joins its game tree and its children
        join its frontier. */
    method Step() returns (done: bool, node: Node, node2: Node)
      requires Valid() && outcome == Searching
      modifies this
      ensures Valid() && initial == old(initial)
      ensures done <==> outcome != Searching
      ensures done <==> HammingOf(node.board) == 0 || HammingOf(node2.board) == 0
      ensures node in old(pq) && forall x :: x in old(pq) ==> !Less(x, node)
      ensures node2 in old(pq2) && forall x :: x in old(pq2) ==> !Less(x, node2)
      ensures node.board.Valid() && node2.board.Valid()
      ensures HammingOf(node.board) == 0 ==>
        && outcome == SolvedOriginal
        && gameTree == old(gameTree) + [node]
        && numberOfMoves == node.moves
      ensures HammingOf(node.board) != 0 && HammingOf(node2.board) == 0 ==>
        outcome == SolvedTwin && gameTree == [] && twinGoal == Some(node2)
      ensures outcome == SolvedTwin ==> HammingOf(node.board) != 0 && HammingOf(node2.board) == 0
      ensures !done ==>
        && gameTree == old(gameTree) + [node]
        && gameTree2 == old(gameTree2) + [node2]
        && pq == Without(old(pq), node) + ChildrenOf(gameTree, NeighbourList(node.board))
        && pq2 == Without(old(pq2), node2) + ChildrenOf(gameTree2, NeighbourList(node2.board))
    {
      var rest, rest2;
      node, rest := PopMin(pq);
      node2, rest2 := PopMin(pq2);
      Popped(initial, gameTree, gameTree2, pq, pq2, solvable, numberOfMoves, twinGoal, node, node2);

      var goal := IsGoal(node.board);
      if goal {
        SolveOriginal(initial, gameTree, gameTree2, pq, pq2, solvable, numberOfMoves, twinGoal, node, rest, rest2);
        solvable, numberOfMoves := true, node.moves;
        gameTree, pq, pq2 := gameTree + [node], rest, rest2;
        outcome := SolvedOriginal;
        return true, node, node2;
      }
      var goal2 := IsGoal(node2.board);
      if goal2 {
        SolveTwin(initial, gameTree, gameTree2, pq, pq2, solvable, numberOfMoves, twinGoal, node2, rest, rest2);
        gameTree, pq, pq2 := [], rest, rest2;
        twinGoal := Some(node2);
        outcome := SolvedTwin;
        return true, node, node2;
      }

      Advance(node, node2);
      done := false;
    }

    /** The end of a round of a_star that popped no goal: each popped node
        joins its game tree, and its children join its frontier. */
    method Advance(node: Node, node2: Node)
      requires Valid() && outcome == Searching && node in pq && node2 in pq2
      modifies this
      ensures Valid() && initial == old(initial) && outcome == Searching
      ensures node.board.Valid() && node2.board.Valid()
      ensures gameTree == old(gameTree) + [node] && gameTree2 == old(gameTree2) + [node2]
      ensures pq == Without(old(pq), node) + ChildrenOf(gameTree, NeighbourList(node.board))
      ensures pq2 == Without(old(pq2), node2) + ChildrenOf(gameTree2, NeighbourList(node2.board))
    {
      KeepSearching(initial, gameTree, gameTree2, pq, pq2, solvable, numberOfMoves, twinGoal, node, node2);
      var tree, tree2 := gameTree + [node], gameTree2 + [node2];
      var q := PushChildren(tree, Without(pq, node));
      var q2 := PushChildren(tree2, Without(pq2, node2));
      gameTree, gameTree2, pq, pq2 := tree, tree2, q, q2;
    }

    /** Solver::min_moves: the goal node's move count, or -1. */
    function MinMoves(): (r: int)
      reads this
      requires Valid()
      ensures r == -1 <==> !solvable
      ensures solvable ==> r == Last(gameTree).moves
      ensures r == -1 && outcome != Searching ==> TwinGoalReached(initial, gameTree2, twinGoal)
    {
      numberOfMoves
    }

    /** Solver::is_solvable: true only once the original search popped a goal. */
    function IsSolvable(): (r: bool)
      reads this
      requires Valid()
      ensures r ==> |gameTree| > 0 && HammingOf(Last(gameTree).board) == 0
      ensures r <==> MinMoves() >= 0
    {
      solvable
    }

    /** Solver::solution: the boards from the initial board to the goal,
        walking the parent links back from the goal node. */
    method Solution() returns (boards: seq<Board>)
      requires Valid()
      ensures !solvable ==> boards == []
      ensures solvable ==>
        && |boards| == numberOfMoves + 1
        && boards[0] == initial
        && HammingOf(boards[|boards| - 1]) == 0
        && (forall k :: 0 <= k < |boards| - 1 ==> boards[k].Valid() && IsSlide(boards[k], boards[k + 1]))
        && (forall k :: 0 <= k < |boards| - 2 ==> boards[k + 2] != boards[k])
    {
      boards := [];
      if IsSolvable() {
        boards := Trace(gameTree, initial);
      }
    }
  }
}
