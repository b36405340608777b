/** Weighted quick-union with path halving: a forest over the elements
    [0, N) kept in two arrays, root (the parent of each element) and size
    (the number of elements in the tree of each root). Two elements are
    connected when they reach the same root. */
module QuickUnion {
  import opened Wrappers

  // ---------------------------------------------------------------------
  // The forest as values

  /** The elements whose representative is r. */
  ghost function Members(rep: seq<int>, r: int): set<int> {
    set x | 0 <= x < |rep| && rep[x] == r
  }

  /** rep with every element of the class of `from` moved to the class of
      `to`. */
  function Relabel(rep: seq<int>, from: int, to: int): seq<int> {
    seq(|rep|, x requires 0 <= x < |rep| => if rep[x] == from then to else rep[x])
  }

  /** What the two arrays mean. parent is the root array and size the size
      array; rep gives the root each element reaches and height a rank that
      grows strictly along every parent link, so the walk up terminates.
      Every root's size is the number of elements in its tree. */
  ghost predicate Forest(parent: seq<int>, size: seq<int>, rep: seq<int>, height: seq<int>) {
    |size| == |parent| && Shape(parent, rep, height) && Sizes(parent, size, rep)
  }

  /** The links of parent lead every element up to its root rep, along
      strictly growing heights. */
  ghost predicate Shape(parent: seq<int>, rep: seq<int>, height: seq<int>) {
    var n := |parent|;
    && |rep| == n && |height| == n
    && (forall x :: 0 <= x < n ==> 0 <= parent[x] < n)
    && (forall x :: 0 <= x < n ==> 0 <= rep[x] < n)
    && (forall x {:trigger parent[rep[x]]} :: 0 <= x < n ==> parent[rep[x]] == rep[x])
    && (forall x {:trigger parent[x]} :: 0 <= x < n && parent[x] == x ==> rep[x] == x)
    && (forall x {:trigger parent[x]} :: 0 <= x < n && parent[x] != x ==>
          rep[parent[x]] == rep[x] && height[x] < height[parent[x]])
    && (forall x {:trigger rep[x]} :: 0 <= x < n ==> height[x] <= height[rep[x]])
  }

  /** Every root's size is the number of elements in its tree. */
  ghost predicate Sizes(parent: seq<int>, size: seq<int>, rep: seq<int>)
    requires |size| == |parent|
  {
    forall r {:trigger Members(rep, r)} :: 0 <= r < |parent| && parent[r] == r ==> size[r] == |Members(rep, r)|
  }

  /** x and y are elements with the same representative. */
  predicate SameClass(rep: seq<int>, x: int, y: int) {
    0 <= x < |rep| && 0 <= y < |rep| && rep[x] == rep[y]
  }

  /** r1 is the partition r0 with the classes whose representatives lie in
      R merged into one, and no other change. */
  ghost predicate Joined(r1: seq<int>, r0: seq<int>, R: set<int>) {
    |r1| == |r0| &&
    forall x, y {:trigger SameClass(r1, x, y)} {:trigger SameClass(r0, x, y)} ::
      0 <= x < |r0| && 0 <= y < |r0| ==>
      (SameClass(r1, x, y) <==> SameClass(r0, x, y) || (r0[x] in R && r0[y] in R))
  }

  /** The forest of a fresh system: every element is its own root, with a
      tree of size 1. */
  lemma Singletons(n: nat)
    ensures Forest(seq(n, x => x), seq(n, x => 1), seq(n, x => x), seq(n, x => 0))
  {
    var rep := seq(n, x => x);
    forall r | 0 <= r < n
      ensures |Members(rep, r)| == 1
    {
      assert Members(rep, r) == {r};
    }
  }

  /** Relabelling one class into another, in either direction, merges
      exactly those two classes. */
  lemma RelabelJoins(rep: seq<int>, i: int, j: int)
    ensures Joined(Relabel(rep, i, j), rep, {i, j}) && Joined(Relabel(rep, j, i), rep, {i, j})
  {
  }

  /** Merging a class with itself changes nothing. */
  lemma JoinedSelf(rep: seq<int>, i: int)
    ensures Joined(rep, rep, {i, i})
  {
  }

  /** Relabelling `from` into `to` moves the members of `from` to `to` and
      leaves every other class as it was. */
  lemma {:induction false} RelabelMembers(rep: seq<int>, from: int, to: int)
    requires from != to
    ensures Members(Relabel(rep, from, to), to) == Members(rep, from) + Members(rep, to)
    ensures |Members(Relabel(rep, from, to), to)| == |Members(rep, from)| + |Members(rep, to)|
    ensures forall r :: r != from && r != to ==> Members(Relabel(rep, from, to), r) == Members(rep, r)
  {
    var r1 := Relabel(rep, from, to);
    assert Members(rep, from) * Members(rep, to) == {} by {
      forall x | x in Members(rep, from)
        ensures x !in Members(rep, to)
      {
      }
    }
    forall r | r != from && r != to
      ensures Members(r1, r) == Members(rep, r)
    {
      forall x | x in Members(r1, r)
        ensures x in Members(rep, r)
      {
      }
    }
  }

  /** Path halving: pointing a non-root at its grandparent keeps the forest
      and changes no element's root. */
  lemma Halve(parent: seq<int>, size: seq<int>, rep: seq<int>, height: seq<int>, x: int)
    requires Forest(parent, size, rep, height) && 0 <= x < |parent| && parent[x] != x
    ensures Forest(parent[x := parent[parent[x]]], size, rep, height)
  {
    var p := parent[x := parent[parent[x]]];
    forall r | 0 <= r < |p| && p[r] == r
      ensures size[r] == |Members(rep, r)|
    {
      assert parent[r] == r;
    }
  }

  /** Hanging the root `child` under the root `top`: the forest is kept, the
      class of child joins the class of top, and the size of top's tree
      grows by the size of child's. */
  lemma LinkKeepsForest(parent: seq<int>, size: seq<int>, rep: seq<int>, height: seq<int>, child: int, top: int)
    requires Forest(parent, size, rep, height)
    requires 0 <= child < |parent| && 0 <= top < |parent| && child != top
    requires parent[child] == child && parent[top] == top
    ensures var h := if height[top] > height[child] then height[top] else height[child] + 1;
      Forest(parent[child := top], size[top := size[top] + size[child]],
             Relabel(rep, child, top), height[top := h])
  {
    LinkShape(parent, rep, height, child, top);
    LinkSizes(parent, size, rep, child, top);
  }

  lemma LinkShape(parent: seq<int>, rep: seq<int>, height: seq<int>, child: int, top: int)
    requires Shape(parent, rep, height)
    requires 0 <= child < |parent| && 0 <= top < |parent| && child != top
    requires parent[child] == child && parent[top] == top
    ensures var h := if height[top] > height[child] then height[top] else height[child] + 1;
      Shape(parent[child := top], Relabel(rep, child, top), height[top := h])
  {
    var h := if height[top] > height[child] then height[top] else height[child] + 1;
    var p, r, g := parent[child := top], Relabel(rep, child, top), height[top := h];
    assert rep[child] == child && rep[top] == top;
    forall x | 0 <= x < |p| && p[x] != x
      ensures r[p[x]] == r[x] && g[x] < g[p[x]]
    {
      if x != child {
        assert parent[x] != x && x != top;
      }
    }
    forall x | 0 <= x < |p|
      ensures g[x] <= g[r[x]]
    {
      if rep[x] == child {
        assert x != top;
      }
    }
  }

  lemma LinkSizes(parent: seq<int>, size: seq<int>, rep: seq<int>, child: int, top: int)
    requires |size| == |parent| == |rep| && Sizes(parent, size, rep)
    requires 0 <= child < |parent| && 0 <= top < |parent| && child != top
    requires parent[child] == child && parent[top] == top
    ensures Sizes(parent[child := top], size[top := size[top] + size[child]], Relabel(rep, child, top))
  {
    var p, s, r := parent[child := top], size[top := size[top] + size[child]], Relabel(rep, child, top);
    RelabelMembers(rep, child, top);
    forall x | 0 <= x < |p| && p[x] == x
      ensures s[x] == |Members(r, x)|
    {
      assert x != child && parent[x] == x;
    }
  }

  /** Merging the classes of u and v after merging those in R, where R
      already holds u's class, merges R together with v's class. */
  lemma JoinedThen(r0: seq<int>, r1: seq<int>, r2: seq<int>, R: set<int>, u: int, v: int)
    requires 0 <= u < |r0| && 0 <= v < |r0| && r0[u] in R
    requires Joined(r1, r0, R) && Joined(r2, r1, {r1[u], r1[v]})
    ensures Joined(r2, r0, R + {r0[v]})
  {
    forall x, y | 0 <= x < |r0| && 0 <= y < |r0|
      ensures SameClass(r2, x, y) <==> SameClass(r0, x, y) || (r0[x] in R + {r0[v]} && r0[y] in R + {r0[v]})
    {
      assert SameClass(r1, x, u) <==> r0[x] in R;
      assert SameClass(r1, y, u) <==> r0[y] in R;
      assert SameClass(r1, x, v) <==> SameClass(r0, x, v) || (r0[x] in R && r0[v] in R);
      assert SameClass(r1, y, v) <==> SameClass(r0, y, v) || (r0[y] in R && r0[v] in R);
      assert SameClass(r1, x, y) <==> SameClass(r0, x, y) || (r0[x] in R && r0[y] in R);
    }
  }

  // ---------------------------------------------------------------------
  // The union-find object

  class UnionFind {
    const n: int
    const root: array<int>
    const size: array<int>
    /** The root each element reaches, and a rank that bounds the walk up. */
    ghost var rep: seq<int>
    ghost var height: seq<int>

    ghost predicate Valid()
      reads this, root, size
    {
      root.Length == n && size.Length == n && root != size &&
      Forest(root[..], size[..], rep, height)
    }

    /** a and b lie in [0, N) and reach the same root. */
    ghost predicate Connected(a: int, b: int)
      reads this
    {
      SameClass(rep, a, b)
    }

    /** UnionFind(n) for positive n: every element is alone in its class. */
    constructor (n: int)
      requires n > 0
      ensures Valid() && this.n == n && fresh(root) && fresh(size)
      ensures forall a, b :: 0 <= a < n && 0 <= b < n ==> (Connected(a, b) <==> a == b)
    {
      this.n := n;
      var root := new int[n];
      var size := new int[n];
      for i := 0 to n
        invariant forall x :: 0 <= x < i ==> root[x] == x && size[x] == 1
      {
        root[i] := i;
        size[i] := 1;
      }
      this.root, this.size := root, size;
      rep := seq(n, x => x);
      height := seq(n, x => 0);
      Singletons(n);
      assert root[..] == seq(n, x => x) && size[..] == seq(n, x => 1);
    }

    /** get_root: the root of i, found by walking up with path halving. The
        forest changes shape but no element changes its root. */
    method GetRoot(i: int) returns (r: Result<int>)
      requires Valid()
      modifies root
      ensures Valid() && rep == old(rep) && height == old(height)
      ensures !(0 <= i < n) ==> r == Failure(InvalidArgument) && root[..] == old(root[..])
      ensures 0 <= i < n ==> r == Success(rep[i])
    {
      if i < 0 || i > n - 1 {
        return Failure(InvalidArgument);
      }
      var x := i;
      while x != root[x]
        invariant Valid() && rep == old(rep) && height == old(height)
        invariant 0 <= x < n && rep[x] == rep[i]
        decreases height[rep[i]] - height[x]
      {
        Halve(root[..], size[..], rep, height, x);
        root[x] := root[root[x]];
        x := root[x];
      }
      return Success(x);
    }

    /** is_connected: whether a and b reach the same root; out-of-range
        arguments are rejected. */
    method IsConnected(a: int, b: int) returns (r: Result<bool>)
      requires Valid()
      modifies root
      ensures Valid() && rep == old(rep) && height == old(height)
      ensures r.Failure? <==> !(0 <= a < n && 0 <= b < n)
      ensures r.Failure? ==> r.error == InvalidArgument && root[..] == old(root[..])
      ensures r.Success? ==> (r.value <==> Connected(a, b))
    {
      if a < 0 || a > n - 1 || b < 0 || b > n - 1 {
        return Failure(InvalidArgument);
      }
      var ra := GetRoot(a);
      var rb := GetRoot(b);
      return Success(ra.value == rb.value);
    }

    /** connect: merges the classes of a and b, hanging the root of the
        smaller tree under the other root (a's root goes under b's on equal
        sizes). Already connected elements keep every class and size. */
    method Connect(a: int, b: int) returns (r: Result<()>)
      requires Valid()
      modifies this, root, size
      ensures Valid()
      ensures r.Failure? <==> !(0 <= a < n && 0 <= b < n)
      ensures r.Failure? ==> r.error == InvalidArgument && unchanged(this, root, size)
      ensures r.Success? ==> Joined(rep, old(rep), {old(rep)[a], old(rep)[b]})
      ensures r.Success? ==>
        var i, j := old(rep)[a], old(rep)[b];
        rep == if i == j then old(rep)
               else if old(size[i]) > old(size[j]) then Relabel(old(rep), j, i)
               else Relabel(old(rep), i, j)
      ensures r.Success? && old(rep)[a] == old(rep)[b] ==> size[..] == old(size[..])
    {
      if a < 0 || a > n - 1 || b < 0 || b > n - 1 {
        return Failure(InvalidArgument);
      }
      var ri := GetRoot(a);
      var rj := GetRoot(b);
      var i, j := ri.value, rj.value;
      if i == j {
        JoinedSelf(rep, i);
        return Success(());
      }
      RelabelJoins(rep, i, j);
      if size[i] > size[j] {
        Link(j, i);
      } else {
        Link(i, j);
      }
      return Success(());
    }

    /** The last step of connect: the root child goes under the root top,
        whose tree takes over child's size. */
    method Link(child: int, top: int)
      requires Valid() && 0 <= child < n && 0 <= top < n && child != top
      requires root[child] == child && root[top] == top
      modifies this, root, size
      ensures Valid() && rep == Relabel(old(rep), child, top)
    {
      LinkKeepsForest(root[..], size[..], rep, height, child, top);
      ghost var rep1 := Relabel(rep, child, top);
      ghost var height1 := height[top := if height[top] > height[child] then height[top] else height[child] + 1];
      rep, height := rep1, height1;
      Hang(root, size, child, top);
    }
  }

  /** The constructor's throw for a non-positive N, as an error result. */
  method NewUnionFind(n: int) returns (r: Result<UnionFind>)
    ensures r.Failure? <==> n <= 0
    ensures r.Failure? ==> r.error == InvalidArgument
    ensures r.Success? ==> fresh(r.value) && r.value.Valid() && r.value.n == n
    ensures r.Success? ==> forall a, b :: 0 <= a < n && 0 <= b < n ==> (r.value.Connected(a, b) <==> a == b)
  {
    if n <= 0 {
      return Failure(InvalidArgument);
    }
    var u := new UnionFind(n);
    return Success(u);
  }

  /** The array writes of a link: child's parent becomes top, and top's
      size grows by child's. */
  method Hang(root: array<int>, size: array<int>, child: int, top: int)
    requires root != size && root.Length == size.Length
    requires 0 <= child < root.Length && 0 <= top < root.Length
    modifies root, size
    ensures root[..] == old(root[..])[child := top]
    ensures size[..] == old(size[..])[top := old(size[top] + size[child])]
  {
    root[child] := top;
    size[top] := size[top] + size[child];
  }
}
