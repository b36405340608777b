/** An N×N percolation system on top of weighted quick-union. Site (row,
    col), counted from 1, is element (row - 1)·N + col - 1 of the union-find
    structure; elements N² and N² + 1 are a virtual top and a virtual bottom
    site. The system percolates when the two virtual sites are connected. */
module PercolationGrid {
  import opened Wrappers
  import opened GridArith
  import opened QuickUnion

  // ---------------------------------------------------------------------
  // Sites and their indices

  /** row and col both lie in [1, N]. */
  predicate InGrid(n: int, row: int, col: int) {
    1 <= row <= n && 1 <= col <= n
  }

  /** The index of site (row, col). */
  function Site(n: int, row: int, col: int): int {
    (row - 1) * n + col - 1
  }

  lemma SiteInRange(n: int, row: int, col: int)
    requires InGrid(n, row, col)
    ensures 0 <= Site(n, row, col) < n * n
  {
    assert n * n - Site(n, row, col) == (n - row) * n + (n - col + 1);
    if n - row >= 1 { MulAtLeast(n - row, n); }
    if row - 1 >= 1 { MulAtLeast(row - 1, n); }
  }

  /** The site index is a bijection from the grid onto [0, N²): every index
      in range comes from exactly one site. */
  lemma SiteBijection(n: int, p: int)
    requires n > 0 && 0 <= p < n * n
    ensures InGrid(n, p / n + 1, p % n + 1) && Site(n, p / n + 1, p % n + 1) == p
    ensures forall row, col :: InGrid(n, row, col) && Site(n, row, col) == p ==>
      row == p / n + 1 && col == p % n + 1
  {
    RowBound(n, p);
    forall row, col | InGrid(n, row, col) && Site(n, row, col) == p
      ensures row == p / n + 1 && col == p % n + 1
    {
      DivModUnique(p, n, row - 1, col - 1);
    }
  }

  /** Moving one row up or down moves the index by N. */
  lemma SiteRowShift(n: int, row: int, col: int)
    ensures Site(n, row - 1, col) == Site(n, row, col) - n
    ensures Site(n, row + 1, col) == Site(n, row, col) + n
  {
    assert (row - 2) * n == (row - 1) * n - n;
    assert row * n == (row - 1) * n + n;
  }

  /** The site and each of its neighbours on the grid are real sites. */
  lemma NeighbourSites(n: int, row: int, col: int)
    requires InGrid(n, row, col)
    ensures var i := Site(n, row, col);
      && 0 <= i < n * n
      && (col > 1 ==> 0 <= i - 1) && (col < n ==> i + 1 < n * n)
      && (row > 1 ==> 0 <= i - n) && (row < n ==> i + n < n * n)
  {
    SiteInRange(n, row, col);
    SiteRowShift(n, row, col);
    if row > 1 { SiteInRange(n, row - 1, col); }
    if row < n { SiteInRange(n, row + 1, col); }
  }

  /** Whether the two sites are orthogonal neighbours. */
  predicate Adjacent(row: int, col: int, row': int, col': int) {
    || (row' == row && (col' == col - 1 || col' == col + 1))
    || (col' == col && (row' == row - 1 || row' == row + 1))
  }

  /** Index k exists in open and is open. */
  predicate OpenAt(open: seq<bool>, k: int) {
    0 <= k < |open| && open[k]
  }

  /** The indices of the open neighbours of (row, col) on the grid. */
  ghost function OpenNeighbours(n: int, row: int, col: int, open: seq<bool>): set<int> {
    set row', col' | 1 <= row' <= n && 1 <= col' <= n && Adjacent(row, col, row', col')
                     && OpenAt(open, Site(n, row', col'))
      :: Site(n, row', col')
  }

  /** What open's four guarded tests, left, right, up and down, select. */
  ghost function GuardedNeighbours(n: int, row: int, col: int, open: seq<bool>): set<int> {
    var i := Site(n, row, col);
    (if col > 1 && OpenAt(open, i - 1) then {i - 1} else {}) +
    (if col < n && OpenAt(open, i + 1) then {i + 1} else {}) +
    (if row > 1 && OpenAt(open, i - n) then {i - n} else {}) +
    (if row < n && OpenAt(open, i + n) then {i + n} else {})
  }

  /** The four guarded tests find exactly the open neighbours on the grid. */
  lemma OpenNeighbourCases(n: int, row: int, col: int, open: seq<bool>)
    requires InGrid(n, row, col)
    ensures OpenNeighbours(n, row, col, open) == GuardedNeighbours(n, row, col, open)
  {
    var i := Site(n, row, col);
    SiteRowShift(n, row, col);
    var N, G := OpenNeighbours(n, row, col, open), GuardedNeighbours(n, row, col, open);
    forall p | p in N
      ensures p in G
    {
      var row', col' :| 1 <= row' <= n && 1 <= col' <= n && Adjacent(row, col, row', col')
                        && OpenAt(open, Site(n, row', col')) && p == Site(n, row', col');
    }
    forall p | p in G
      ensures p in N
    {
      if col > 1 && p == i - 1 && OpenAt(open, i - 1) {
        assert Adjacent(row, col, row, col - 1);
      } else if col < n && p == i + 1 && OpenAt(open, i + 1) {
        assert Adjacent(row, col, row, col + 1);
      } else if row > 1 && p == i - n && OpenAt(open, i - n) {
        assert Adjacent(row, col, row - 1, col);
      } else {
        assert Adjacent(row, col, row + 1, col);
      }
    }
  }

  // ---------------------------------------------------------------------
  // Partitions of the sites

  /** The classes, under rep, of the elements of S. */
  ghost function Reps(rep: seq<int>, S: set<int>): set<int> {
    set x | x in S && 0 <= x < |rep| :: rep[x]
  }

  /** Merging the classes of A, and then, among the merged classes, those
      of B, where A and B share a site, merges the classes of A + B. */
  lemma JoinedCompose(r0: seq<int>, r1: seq<int>, r2: seq<int>, A: set<int>, B: set<int>, i: int)
    requires 0 <= i < |r0| && i in A && i in B
    requires Joined(r1, r0, Reps(r0, A)) && Joined(r2, r1, Reps(r1, B))
    ensures Joined(r2, r0, Reps(r0, A + B))
  {
    var RA, RAB := Reps(r0, A), Reps(r0, A + B);
    assert r0[i] in RA;
    forall x | 0 <= x < |r0|
      ensures r1[x] in Reps(r1, B) <==> r0[x] in RAB
    {
      assert SameClass(r1, x, i) <==> SameClass(r0, x, i) || (r0[x] in RA && r0[i] in RA);
      if r1[x] in Reps(r1, B) {
        var b :| b in B && 0 <= b < |r1| && r1[b] == r1[x];
        assert SameClass(r1, x, b) <==> SameClass(r0, x, b) || (r0[x] in RA && r0[b] in RA);
      }
      if r0[x] in RAB {
        var b :| b in A + B && 0 <= b < |r0| && r0[b] == r0[x];
        if b in A {
          assert r0[x] in RA;
        } else {
          assert SameClass(r1, x, b) <==> SameClass(r0, x, b) || (r0[x] in RA && r0[b] in RA);
        }
      }
    }
    forall x, y | 0 <= x < |r0| && 0 <= y < |r0|
      ensures SameClass(r2, x, y) <==> SameClass(r0, x, y) || (r0[x] in RAB && r0[y] in RAB)
    {
      assert SameClass(r1, x, y) <==> SameClass(r0, x, y) || (r0[x] in RA && r0[y] in RA);
      assert SameClass(r2, x, y) <==> SameClass(r1, x, y) || (r1[x] in Reps(r1, B) && r1[y] in Reps(r1, B));
    }
  }

  // The partitions the constructor's loop builds, over m = N² real sites
  // and the virtual sites m and m + 1.

  /** Among the first t sites of the top row and the virtual top site. */
  predicate TopLinked(m: int, t: int, x: int) {
    0 <= x < t || x == m
  }

  /** Among the last b sites of the bottom row and the virtual bottom site. */
  predicate BottomLinked(m: int, b: int, x: int) {
    m - b <= x < m || x == m + 1
  }

  /** Whether x and y share a class after the first t top-row sites were
      connected to the virtual top and the last b bottom-row sites to the
      virtual bottom: two groups, which are one group when they share a site
      (only when N = 1), and every other site alone. */
  predicate Grouped(m: int, t: int, b: int, x: int, y: int) {
    || x == y
    || (TopLinked(m, t, x) && TopLinked(m, t, y))
    || (BottomLinked(m, b, x) && BottomLinked(m, b, y))
    || (m - b < t && (TopLinked(m, t, x) || BottomLinked(m, b, x))
                  && (TopLinked(m, t, y) || BottomLinked(m, b, y)))
  }

  /** rep is the partition described by Grouped. */
  ghost predicate Linked(rep: seq<int>, m: int, t: int, b: int) {
    |rep| == m + 2 &&
    forall x, y {:trigger SameClass(rep, x, y)} :: 0 <= x < |rep| && 0 <= y < |rep| ==>
      (SameClass(rep, x, y) <==> Grouped(m, t, b, x, y))
  }

  /** Before any link every element is alone. */
  lemma LinkedNone(rep: seq<int>, m: int)
    requires m >= 0 && |rep| == m + 2
    requires forall x, y :: 0 <= x < |rep| && 0 <= y < |rep| ==> (SameClass(rep, x, y) <==> x == y)
    ensures Linked(rep, m, 0, 0)
  {
  }

  /** Connecting top-row site t to the virtual top. */
  lemma LinkTop(r0: seq<int>, r1: seq<int>, m: int, t: int, b: int)
    requires 0 <= t < m && 0 <= b <= m && Linked(r0, m, t, b)
    requires Joined(r1, r0, {r0[t], r0[m]})
    ensures Linked(r1, m, t + 1, b)
  {
    forall x, y | 0 <= x < |r0| && 0 <= y < |r0|
      ensures SameClass(r1, x, y) <==> Grouped(m, t + 1, b, x, y)
    {
      assert SameClass(r0, x, t) <==> Grouped(m, t, b, x, t);
      assert SameClass(r0, x, m) <==> Grouped(m, t, b, x, m);
      assert SameClass(r0, y, t) <==> Grouped(m, t, b, y, t);
      assert SameClass(r0, y, m) <==> Grouped(m, t, b, y, m);
      assert SameClass(r0, x, y) <==> Grouped(m, t, b, x, y);
    }
  }

  /** Connecting bottom-row site s = m - 1 - b to the virtual bottom. */
  lemma LinkBottom(r0: seq<int>, r1: seq<int>, m: int, t: int, b: int, s: int)
    requires 0 <= t <= m && 0 <= b < m && s == m - 1 - b && Linked(r0, m, t, b)
    requires Joined(r1, r0, {r0[s], r0[m + 1]})
    ensures Linked(r1, m, t, b + 1)
  {
    forall x, y | 0 <= x < |r0| && 0 <= y < |r0|
      ensures SameClass(r1, x, y) <==> Grouped(m, t, b + 1, x, y)
    {
      assert SameClass(r0, x, s) <==> Grouped(m, t, b, x, s);
      assert SameClass(r0, x, m + 1) <==> Grouped(m, t, b, x, m + 1);
      assert SameClass(r0, y, s) <==> Grouped(m, t, b, y, s);
      assert SameClass(r0, y, m + 1) <==> Grouped(m, t, b, y, m + 1);
      assert SameClass(r0, x, y) <==> Grouped(m, t, b, x, y);
    }
  }

  /** The rows linked by the constructor, stated over site numbers: with
      the top and bottom rows of width w linked, [0, w) is with the virtual
      top, [m - w, m) with the virtual bottom v = m + 1, and the rest is
      alone. */
  lemma RowLinks(rep: seq<int>, m: int, w: int, v: int)
    requires 0 < w <= m && v == m + 1 && Linked(rep, m, w, w)
    ensures forall x :: 0 <= x < w ==> SameClass(rep, x, m)
    ensures forall x :: m - w <= x < m ==> SameClass(rep, x, v)
    ensures SameClass(rep, m, v) <==> m < 2 * w
    ensures forall x, y :: w <= x < m - w && 0 <= y < m + 2 ==> (SameClass(rep, x, y) <==> x == y)
  {
    assert Grouped(m, w, w, m, m + 1) <==> m < 2 * w;
  }

  /** What the constructor's links mean: every top-row site is connected to
      the virtual top and every bottom-row site to the virtual bottom, every
      other site is alone, and the virtual sites are connected exactly when
      N = 1. */
  lemma FreshGridLinks(rep: seq<int>, n: int)
    requires n > 0 && Linked(rep, n * n, n, n)
    ensures forall col :: 1 <= col <= n ==> SameClass(rep, Site(n, 1, col), n * n)
    ensures forall col :: 1 <= col <= n ==> SameClass(rep, Site(n, n, col), n * n + 1)
    ensures SameClass(rep, n * n, n * n + 1) <==> n == 1
    ensures forall x, y :: n <= x < n * n - n && 0 <= y < n * n + 2 ==> (SameClass(rep, x, y) <==> x == y)
  {
    var m := n * n;
    assert n <= m by {
      MulAtLeast(n, n);
    }
    RowLinks(rep, m, n, m + 1);
    forall col | 1 <= col <= n
      ensures Site(n, 1, col) == col - 1 && Site(n, n, col) == m - n + col - 1
    {
    }
    if n > 1 {
      assert 2 * n <= m by {
        assert m == n + (n - 1) * n;
        MulAtLeast(n - 1, n);
      }
    }
  }

  /** The guarded tests of open never look at the site itself, so opening
      it first does not change what they find. */
  lemma GuardedSkipsSite(n: int, row: int, col: int, open: seq<bool>)
    requires InGrid(n, row, col) && 0 <= Site(n, row, col) < |open|
    ensures GuardedNeighbours(n, row, col, open[Site(n, row, col) := true]) == GuardedNeighbours(n, row, col, open)
  {
    SiteRowShift(n, row, col);
  }

  /** The open sites among the real sites [0, m). */
  ghost function OpenSites(open: seq<bool>, m: int): set<int> {
    set k | 0 <= k < m && k < |open| && open[k]
  }

  /** Opening a blocked real site adds exactly one open site. */
  lemma OpenOneMore(open: seq<bool>, m: int, i: int)
    requires 0 <= i < m <= |open| && !open[i]
    ensures OpenSites(open[i := true], m) == OpenSites(open, m) + {i}
    ensures |OpenSites(open[i := true], m)| == |OpenSites(open, m)| + 1
  {
    assert OpenSites(open[i := true], m) == OpenSites(open, m) + {i};
  }

  // ---------------------------------------------------------------------
  // The percolation object

  class Percolation {
    const n: int
    const grid: UnionFind
    const openStatus: array<bool>
    var openSitesCount: int

    ghost predicate Valid()
      reads this, grid, grid.root, grid.size, openStatus
    {
      && n > 0
      && grid.Valid() && grid.n == n * n + 2
      && openStatus.Length == n * n + 2
      && openStatus[n * n] && openStatus[n * n + 1]
      && openSitesCount == |OpenSites(openStatus[..], n * n)|
    }

    /** Percolation(n) for positive n: every real site blocked, the two
        virtual sites open, the top row linked to the virtual top and the
        bottom row to the virtual bottom. */
    constructor (n: int)
      requires n > 0
      ensures Valid() && this.n == n
      ensures fresh(grid) && fresh(grid.root) && fresh(grid.size) && fresh(openStatus)
      ensures openSitesCount == 0
      ensures forall k :: 0 <= k < n * n ==> !openStatus[k]
      ensures Linked(grid.rep, n * n, n, n)
    {
      this.n := n;
      var m := n * n;
      assert m >= n by {
        MulAtLeast(n, n);
      }
      var open := new bool[m + 2];
      for i := 0 to m
        invariant forall k :: 0 <= k < i ==> !open[k]
      {
        open[i] := false;
      }
      open[m] := true;
      open[m + 1] := true;
      assert OpenSites(open[..], m) == {};
      var g := new UnionFind(m + 2);
      forall x, y | 0 <= x < m + 2 && 0 <= y < m + 2
        ensures SameClass(g.rep, x, y) <==> x == y
      {
        assert g.Connected(x, y) <==> x == y;
      }
      LinkedNone(g.rep, m);
      LinkBorders(g, n);
      grid, openStatus, openSitesCount := g, open, 0;
    }

    /** isOpen: whether site (row, col) is open; sites off the grid are
        rejected. */
    function IsOpen(row: int, col: int): (r: Result<bool>)
      requires Valid()
      reads this, grid, grid.root, grid.size, openStatus
      ensures r.Failure? <==> !InGrid(n, row, col)
      ensures r.Failure? ==> r.error == InvalidArgument
      ensures r.Success? ==> (r.value <==> Site(n, row, col) in OpenSites(openStatus[..], n * n))
    {
      if row < 1 || row > n || col < 1 || col > n then
        Failure(InvalidArgument)
      else
        SiteInRange(n, row, col);
        Success(openStatus[Site(n, row, col)])
    }

    /** numberOfOpenSites: the number of open real sites. */
    function NumberOfOpenSites(): (r: int)
      requires Valid()
      reads this, grid, grid.root, grid.size, openStatus
      ensures r == |OpenSites(openStatus[..], n * n)|
    {
      openSitesCount
    }

    /** open: opens site (row, col) and merges its class with those of its
        open neighbours; an open site is left as it is, and a site off the
        grid is rejected. */
    method Open(row: int, col: int) returns (r: Result<()>)
      requires Valid()
      modifies this, openStatus, grid, grid.root, grid.size
      ensures Valid()
      ensures r.Failure? <==> !InGrid(n, row, col)
      ensures r.Failure? ==> r.error == InvalidArgument && unchanged(this, openStatus, grid, grid.root, grid.size)
      ensures r.Success? ==> 0 <= Site(n, row, col) < openStatus.Length
      ensures r.Success? && OpenAt(old(openStatus[..]), Site(n, row, col)) ==>
        unchanged(this, openStatus, grid, grid.root, grid.size)
      ensures r.Success? && !OpenAt(old(openStatus[..]), Site(n, row, col)) ==>
        && openStatus[..] == old(openStatus[..])[Site(n, row, col) := true]
        && openSitesCount == old(openSitesCount) + 1
        && Joined(grid.rep, old(grid.rep),
             Reps(old(grid.rep), {Site(n, row, col)} + OpenNeighbours(n, row, col, old(openStatus[..]))))
    {
      if row < 1 || row > n || col < 1 || col > n {
        return Failure(InvalidArgument);
      }
      SiteInRange(n, row, col);
      if IsOpen(row, col).value {
        return Success(());
      }
      OpenClosed(row, col);
      return Success(());
    }

    /** The part of open that opens a blocked site on the grid. */
    method OpenClosed(row: int, col: int)
      requires Valid() && InGrid(n, row, col) && 0 <= Site(n, row, col) < n * n
      requires !OpenAt(openStatus[..], Site(n, row, col))
      modifies this, openStatus, grid, grid.root, grid.size
      ensures Valid()
      ensures openStatus[..] == old(openStatus[..])[Site(n, row, col) := true]
      ensures openSitesCount == old(openSitesCount) + 1
      ensures Joined(grid.rep, old(grid.rep),
        Reps(old(grid.rep), {Site(n, row, col)} + OpenNeighbours(n, row, col, old(openStatus[..]))))
    {
      var i := Site(n, row, col);
      ghost var open0 := openStatus[..];
      OpenOneMore(open0, n * n, i);
      openStatus[i] := true;
      openSitesCount := openSitesCount + 1;
      OpenNeighbourCases(n, row, col, open0);
      assert openStatus[..] == open0[i := true];
      GuardedSkipsSite(n, row, col, open0);
      ConnectOpenNeighbours(grid, n, row, col, openStatus[..]);
    }

    /** isFull: whether site (row, col) is connected to the virtual top;
        sites off the grid are rejected. */
    method IsFull(row: int, col: int) returns (r: Result<bool>)
      requires Valid()
      modifies grid.root
      ensures Valid() && grid.rep == old(grid.rep)
      ensures r.Failure? <==> !InGrid(n, row, col)
      ensures r.Failure? ==> r.error == InvalidArgument
      ensures r.Success? ==> (r.value <==> grid.Connected(Site(n, row, col), n * n))
    {
      if row < 1 || row > n || col < 1 || col > n {
        return Failure(InvalidArgument);
      }
      SiteInRange(n, row, col);
      var c := grid.IsConnected(Site(n, row, col), n * n);
      return Success(c.value);
    }

    /** percolates: whether the virtual top and bottom are connected. */
    method Percolates() returns (r: bool)
      requires Valid()
      modifies grid.root
      ensures Valid() && grid.rep == old(grid.rep)
      ensures r <==> grid.Connected(n * n, n * n + 1)
    {
      var c := grid.IsConnected(n * n, n * n + 1);
      return c.value;
    }
  }

  /** The constructor's loop: each first-row site i is connected to the
      virtual top and each last-row site N² - 1 - i to the virtual bottom. */
  method LinkBorders(grid: UnionFind, n: int)
    requires n > 0 && grid.Valid() && grid.n == n * n + 2 && Linked(grid.rep, n * n, 0, 0)
    modifies grid, grid.root, grid.size
    ensures grid.Valid() && Linked(grid.rep, n * n, n, n)
  {
    var m := n * n;
    assert m >= n by {
      MulAtLeast(n, n);
    }
    for i := 0 to n
      invariant grid.Valid() && grid.n == m + 2 && Linked(grid.rep, m, i, i)
    {
      LinkToTop(grid, m, i, i);
      LinkToBottom(grid, m, i + 1, i);
    }
  }

  /** grid.connect(t, N²): top-row site t joins the group of the virtual
      top. */
  method LinkToTop(grid: UnionFind, m: int, t: int, b: int)
    requires grid.Valid() && grid.n == m + 2 && 0 <= t < m && 0 <= b <= m && Linked(grid.rep, m, t, b)
    modifies grid, grid.root, grid.size
    ensures grid.Valid() && Linked(grid.rep, m, t + 1, b)
  {
    ghost var r0 := grid.rep;
    var ok := grid.Connect(t, m);
    assert ok.Success?;
    LinkTop(r0, grid.rep, m, t, b);
  }

  /** grid.connect(N² - 1 - b, N² + 1): bottom-row site N² - 1 - b joins the
      group of the virtual bottom. */
  method LinkToBottom(grid: UnionFind, m: int, t: int, b: int)
    requires grid.Valid() && grid.n == m + 2 && 0 <= t <= m && 0 <= b < m && Linked(grid.rep, m, t, b)
    modifies grid, grid.root, grid.size
    ensures grid.Valid() && Linked(grid.rep, m, t, b + 1)
  {
    ghost var r0 := grid.rep;
    var s := m - 1 - b;
    var ok := grid.Connect(s, m + 1);
    assert ok.Success?;
    LinkBottom(r0, grid.rep, m, t, b, s);
  }

  /** The second half of open: the site (row, col) is connected to each of
      its neighbours that the guarded tests of open find open. */
  method ConnectOpenNeighbours(grid: UnionFind, n: int, row: int, col: int, open: seq<bool>)
    requires grid.Valid() && grid.n == n * n + 2 && InGrid(n, row, col)
    modifies grid, grid.root, grid.size
    ensures grid.Valid()
    ensures Joined(grid.rep, old(grid.rep),
      Reps(old(grid.rep), {Site(n, row, col)} + GuardedNeighbours(n, row, col, open)))
  {
    var i := Site(n, row, col);
    NeighbourSites(n, row, col);
    var west, east, north, south := i - 1, i + 1, i - n, i + n;
    var left, right := col > 1 && OpenAt(open, west), col < n && OpenAt(open, east);
    var up, down := row > 1 && OpenAt(open, north), row < n && OpenAt(open, south);
    ghost var r0 := grid.rep;
    ConnectQuad(grid, i, left, west, right, east, up, north, down, south);
    JoinedRegroup(grid.rep, r0, n, row, col, open, i, left, right, up, down, west, east, north, south);
  }

  /** S with site k added when the test holds. */
  function AddIf(S: set<int>, test: bool, k: int): set<int> {
    if test then S + {k} else S
  }

  /** Site i with the sites k1 and k2 whose tests hold. */
  function Pair(i: int, test1: bool, k1: int, test2: bool, k2: int): set<int> {
    AddIf({i}, test1, k1) + AddIf({i}, test2, k2)
  }

  /** The two pairs of guarded tests together make up the guarded neighbours. */
  lemma GuardedRegroup(n: int, row: int, col: int, open: seq<bool>, i: int,
                       left: bool, right: bool, up: bool, down: bool)
    requires i == Site(n, row, col)
    requires left == (col > 1 && OpenAt(open, i - 1)) && right == (col < n && OpenAt(open, i + 1))
    requires up == (row > 1 && OpenAt(open, i - n)) && down == (row < n && OpenAt(open, i + n))
    ensures Pair(i, left, i - 1, right, i + 1) + Pair(i, up, i - n, down, i + n)
      == {i} + GuardedNeighbours(n, row, col, open)
  {
  }

  /** The classes merged by the four guarded connects are those of the site
      and its guarded neighbours. */
  lemma JoinedRegroup(r1: seq<int>, r0: seq<int>, n: int, row: int, col: int, open: seq<bool>, i: int,
                      left: bool, right: bool, up: bool, down: bool, west: int, east: int, north: int, south: int)
    requires i == Site(n, row, col) && west == i - 1 && east == i + 1 && north == i - n && south == i + n
    requires left == (col > 1 && OpenAt(open, i - 1)) && right == (col < n && OpenAt(open, i + 1))
    requires up == (row > 1 && OpenAt(open, i - n)) && down == (row < n && OpenAt(open, i + n))
    requires Joined(r1, r0, Reps(r0, Pair(i, left, west, right, east) + Pair(i, up, north, down, south)))
    ensures Joined(r1, r0, Reps(r0, {Site(n, row, col)} + GuardedNeighbours(n, row, col, open)))
  {
    GuardedRegroup(n, row, col, open, i, left, right, up, down);
  }

  /** The four guarded connects of open, as two pairs. */
  method ConnectQuad(grid: UnionFind, i: int, test1: bool, k1: int, test2: bool, k2: int,
                     test3: bool, k3: int, test4: bool, k4: int)
    requires grid.Valid() && 0 <= i < grid.n
    requires (test1 ==> 0 <= k1 < grid.n) && (test2 ==> 0 <= k2 < grid.n)
    requires (test3 ==> 0 <= k3 < grid.n) && (test4 ==> 0 <= k4 < grid.n)
    modifies grid, grid.root, grid.size
    ensures grid.Valid()
    ensures Joined(grid.rep, old(grid.rep),
      Reps(old(grid.rep), Pair(i, test1, k1, test2, k2) + Pair(i, test3, k3, test4, k4)))
  {
    ghost var r0 := grid.rep;
    ConnectPair(grid, i, test1, k1, test2, k2);
    ghost var r1 := grid.rep;
    ConnectPair(grid, i, test3, k3, test4, k4);
    JoinedCompose(r0, r1, grid.rep, Pair(i, test1, k1, test2, k2), Pair(i, test3, k3, test4, k4), i);
  }

  /** Two guarded connects of open, left and right or up and down. */
  method ConnectPair(grid: UnionFind, i: int, test1: bool, k1: int, test2: bool, k2: int)
    requires grid.Valid() && 0 <= i < grid.n
    requires (test1 ==> 0 <= k1 < grid.n) && (test2 ==> 0 <= k2 < grid.n)
    modifies grid, grid.root, grid.size
    ensures grid.Valid()
    ensures Joined(grid.rep, old(grid.rep), Reps(old(grid.rep), Pair(i, test1, k1, test2, k2)))
  {
    ghost var r0 := grid.rep;
    ConnectIf(grid, test1, i, k1);
    ghost var r1 := grid.rep;
    ConnectIf(grid, test2, i, k2);
    JoinedCompose(r0, r1, grid.rep, AddIf({i}, test1, k1), AddIf({i}, test2, k2), i);
  }

  /** One guarded connect of open: when the test holds, site i is connected
      to its neighbour k. */
  method ConnectIf(grid: UnionFind, test: bool, i: int, k: int)
    requires grid.Valid() && 0 <= i < grid.n && (test ==> 0 <= k < grid.n)
    modifies grid, grid.root, grid.size
    ensures grid.Valid()
    ensures Joined(grid.rep, old(grid.rep), Reps(old(grid.rep), AddIf({i}, test, k)))
  {
    ghost var r0 := grid.rep;
    RepsAddIf(r0, i, test, k);
    if test {
      var ok := grid.Connect(i, k);
      assert ok.Success?;
    } else {
      JoinedSelf(r0, r0[i]);
    }
  }

  /** The classes one guarded connect merges: that of i and, when the test
      holds, that of k. */
  lemma RepsAddIf(r0: seq<int>, i: int, test: bool, k: int)
    requires 0 <= i < |r0| && (test ==> 0 <= k < |r0|)
    ensures Reps(r0, AddIf({i}, test, k)) == if test then {r0[i], r0[k]} else {r0[i], r0[i]}
  {
    if test {
      assert Reps(r0, {i} + {k}) == {r0[i], r0[k]};
    } else {
      assert Reps(r0, {i}) == {r0[i], r0[i]};
    }
  }

  /** The constructor's throw for a non-positive N, as an error result. */
  method NewPercolation(n: int) returns (r: Result<Percolation>)
    ensures r.Failure? <==> n <= 0
    ensures r.Failure? ==> r.error == InvalidArgument
    ensures r.Success? ==> fresh(r.value) && r.value.Valid() && r.value.n == n
  {
    if n <= 0 {
      return Failure(InvalidArgument);
    }
    var p := new Percolation(n);
    return Success(p);
  }
}
