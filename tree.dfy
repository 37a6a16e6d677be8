/** The tree of n named nodes: each node holds an integer value and the
    list of its neighbours' names. Values are added to the subtree below a
    node (relative to the root, node 1) and the largest value on the path
    between two nodes is queried; both operations find paths by depth-first
    search. */
module TreeModel {
  import opened Graphs

  /** vals with v added to the value of every node named in s. */
  function AddOn(vals: seq<int>, s: set<int>, v: int): seq<int> {
    seq(|vals|, i requires 0 <= i < |vals| => if i + 1 in s then vals[i] + v else vals[i])
  }

  /** Adding v over two disjoint sets adds it over their union. */
  lemma AddOnDisjoint(vals: seq<int>, s: set<int>, t: set<int>, v: int)
    requires s !! t
    ensures AddOn(AddOn(vals, s, v), t, v) == AddOn(vals, s + t, v)
  {
  }

  /** The list the path search returns once its depth-first search has
      reached the target along route (from the start to the target): the
      target, then for every node on the way back a copy of the list's
      first element followed by that node. */
  function PathList(route: seq<int>): (r: seq<int>)
    requires |route| >= 1
    ensures |r| == 2 * |route| - 1
    ensures r[0] == route[|route| - 1] && r[|r| - 1] == route[0]
    ensures forall x :: x in r <==> x in route
  {
    if |route| == 1 then [route[0]]
    else
      var l := PathList(route[1..]);
      l + [l[0], route[0]]
  }

  /** m is the largest value held by a node of p. */
  ghost predicate IsMaxOn(vals: seq<int>, p: seq<int>, m: int) {
    && (forall x :: x in p ==> 1 <= x <= |vals| && vals[x - 1] <= m)
    && (exists x :: x in p && 1 <= x <= |vals| && vals[x - 1] == m)
  }

  /** The list holds the target at every odd position and, at position 2i,
      the node i steps back from the target along the route. */
  lemma {:induction false} PathListAt(route: seq<int>, i: int)
    requires |route| >= 1 && 0 <= i < 2 * |route| - 1
    ensures PathList(route)[i] == if i % 2 == 1 then route[|route| - 1] else route[|route| - 1 - i / 2]
    decreases |route|
  {
    if |route| > 1 && i < 2 * |route| - 3 {
      PathListAt(route[1..], i);
    }
  }

  /** In a tree, the path from b to a is the path from a to b read backwards. */
  lemma TreePathReversed(g: Adjacency, p: seq<int>, q: seq<int>, a: int, b: int)
    requires IsTree(g) && IsPath(g, p, a, b) && IsPath(g, q, b, a)
    ensures q == Reverse(p)
  {
    ReversePath(g, p, a, b);
    AcyclicPathsUnique(g, q, Reverse(p), b, a);
  }

  /** A sequence of nodes and its reverse have the same largest value. */
  lemma MaxOnReversed(vals: seq<int>, p: seq<int>, m1: int, m2: int)
    requires IsMaxOn(vals, p, m1) && IsMaxOn(vals, Reverse(p), m2)
    ensures m1 == m2
  {
    var q := Reverse(p);
    // the node holding m1 is on q, and the node holding m2 is on p
    var x1 :| x1 in p && 1 <= x1 <= |vals| && vals[x1 - 1] == m1;
    var k1 :| 0 <= k1 < |p| && p[k1] == x1;
    assert q[|p| - 1 - k1] == x1;
    assert x1 in q && vals[x1 - 1] <= m2;
    var x2 :| x2 in q && 1 <= x2 <= |vals| && vals[x2 - 1] == m2;
    var k2 :| 0 <= k2 < |q| && q[k2] == x2;
    assert p[|p| - 1 - k2] == x2;
    assert x2 in p && vals[x2 - 1] <= m1;
  }

  /** In a tree, the largest value on the path from a to b is the largest
      value on the path from b to a. */
  lemma MaxSymmetric(g: Adjacency, vals: seq<int>, p: seq<int>, q: seq<int>, a: int, b: int, m1: int, m2: int)
    requires IsTree(g) && IsPath(g, p, a, b) && IsPath(g, q, b, a)
    requires IsMaxOn(vals, p, m1) && IsMaxOn(vals, q, m2)
    ensures m1 == m2
  {
    TreePathReversed(g, p, q, a, b);
    MaxOnReversed(vals, p, m1, m2);
  }

  /** Adding v1 and then v2 over the same nodes adds v1 + v2 once. */
  lemma AddOnAdditive(vals: seq<int>, s: set<int>, v1: int, v2: int)
    ensures AddOn(AddOn(vals, s, v1), s, v2) == AddOn(vals, s, v1 + v2)
  {
  }

  class Tree {
    /** names[i] is the name of the node at index i. */
    var names: seq<int>
    /** edges[i] lists the names of the neighbours of the node at index i. */
    var edges: Adjacency
    /** values[i] is the value of the node at index i. */
    var values: array<int>

    ghost predicate Valid()
      reads this
    {
      && |names| == |edges| == values.Length
      && (forall i :: 0 <= i < |names| ==> names[i] == i + 1)
      && WellFormed(edges)
    }

    /** n nodes named 1..n, each with value 0 and no neighbours. */
    constructor (n: nat)
      ensures Valid() && fresh(values)
      ensures |edges| == n
      ensures forall i :: 0 <= i < n ==> names[i] == i + 1 && edges[i] == [] && values[i] == 0
    {
      values := new int[n];
      names, edges := [], [];
      new;
      AddVertices(n);
    }

    method AddVertices(n: nat)
      requires values.Length == n && names == [] && edges == []
      modifies this, values
      ensures Valid() && values == old(values) && |edges| == n
      ensures forall i :: 0 <= i < n ==> names[i] == i + 1 && edges[i] == [] && values[i] == 0
    {
      for i := 0 to n
        invariant values == old(values) && |names| == |edges| == i
        invariant forall k :: 0 <= k < i ==> names[k] == k + 1 && edges[k] == [] && values[k] == 0
      {
        values[i] := 0;
        names, edges := names + [i + 1], edges + [[]];
      }
    }

    /** Records x and y as neighbours: y is appended to x's list and x to
        y's list; nothing rejects a self-loop or a repeated edge. */
    method AddEdge(x: int, y: int)
      requires Valid() && IsNode(edges, x) && IsNode(edges, y)
      modifies this
      ensures Valid() && values == old(values) && names == old(names)
      ensures edges == var e := old(edges)[x - 1 := old(edges)[x - 1] + [y]]; e[y - 1 := e[y - 1] + [x]]
      ensures |edges| == |old(edges)|
      ensures x != y ==> edges[x - 1] == old(edges[x - 1]) + [y] && edges[y - 1] == old(edges[y - 1]) + [x]
      ensures x == y ==> edges[x - 1] == old(edges[x - 1]) + [y, x]
      ensures forall k :: 0 <= k < |edges| && k != x - 1 && k != y - 1 ==> edges[k] == old(edges[k])
      ensures EntryCount(edges) == EntryCount(old(edges)) + 2
      ensures Symmetric(old(edges)) ==> Symmetric(edges)
    {
      ghost var g := edges;
      EntryCountAppend(edges, x - 1, y);
      edges := edges[x - 1 := edges[x - 1] + [y]];
      EntryCountAppend(edges, y - 1, x);
      edges := edges[y - 1 := edges[y - 1] + [x]];
      assert forall a, b :: Adjacent(edges, a, b) <==> Adjacent(g, a, b) || (a == x && b == y) || (a == y && b == x);
    }

    /** The list of names from end back to start that the depth-first
        search finds, or [] when end cannot be reached. */
    method FindPath(start: int, end: int) returns (path: seq<int>, ghost route: seq<int>)
      requires Valid() && IsNode(edges, start) && IsNode(edges, end)
      ensures path == [] <==> !Reachable(edges, start, end)
      ensures path == [] ==> route == []
      ensures path != [] ==> IsPath(edges, route, start, end) && path == PathList(route)
      ensures start == end ==> path == [start]
      ensures IsTree(edges) ==> path != [] && forall p :: IsPath(edges, p, start, end) ==> p == route
    {
      var marked: set<int> := {};
      var visited;
      visited, path, route := FindPathHelper(start, end, marked);
      if start == end {
        PathToSelf(edges, route, start);
      }
      if IsTree(edges) {
        assert Reachable(edges, start, end);
        forall p | IsPath(edges, p, start, end) ensures p == route {
          AcyclicPathsUnique(edges, p, route, start, end);
        }
      }
    }

    /** One frame of the path search from start, with the nodes already
        marked by earlier frames. */
    method FindPathHelper(start: int, end: int, marked: set<int>)
      returns (marked': set<int>, path: seq<int>, ghost route: seq<int>)
      requires Valid() && IsNode(edges, start) && IsNode(edges, end)
      requires marked <= Nodes(edges) && start !in marked
      ensures marked + {start} <= marked' <= Nodes(edges)
      ensures path == [] <==> !ReachableAvoiding(edges, start, end, marked)
      ensures path == [] ==> route == [] && marked' == marked + ReachSet(edges, start, marked)
      ensures path != [] ==> IsPath(edges, route, start, end) && Avoids(route, marked) && path == PathList(route)
      decreases Nodes(edges) - marked
    {
      marked' := marked + {start};
      assert IsPath(edges, [start], start, start) && Avoids([start], marked);
      if start == end {
        path := [end];
        route := [start];
        return;
      }
      var a: seq<int> := [];
      route := [];
      path := [];
      var nbrs := edges[start - 1];
      var j := 0;
      while j < |nbrs|
        invariant 0 <= j <= |nbrs|
        invariant marked + {start} <= marked' <= Nodes(edges)
        invariant path == [] && a == [] && route == []
        invariant end !in marked' - marked
        invariant forall x :: x in marked' - marked ==> ReachableAvoiding(edges, start, x, marked)
        invariant forall k :: 0 <= k < j ==> nbrs[k] in marked'
        invariant forall x, y :: x in marked' && x !in marked && x != start && Adjacent(edges, x, y) ==> y in marked'
      {
        var i := nbrs[j];
        assert Adjacent(edges, start, i);
        if i !in marked' {
          ghost var before := marked';
          var l;
          ghost var r;
          assert Nodes(edges) - marked' < Nodes(edges) - marked by {
            assert start in Nodes(edges) - marked;
          }
          marked', l, r := FindPathHelper(i, end, marked');
          path := l;
          if end in l {
            a := l;
            route := [start] + r;
            PrependPath(edges, start, i, r, end, marked, before);
            break;
          }
          ReachSetClosed(edges, i, before);
          forall x | x in marked' - before ensures ReachableAvoiding(edges, start, x, marked) {
            PrependReach(edges, start, i, x, marked, before);
          }
        }
        j := j + 1;
      }
      if a != [] {
        path := path + [a[0]];
      }
      if path != [] {
        path := path + [start];
      } else {
        assert Closed(edges, marked', marked) by {
          forall x, y | x in marked' && x !in marked && Adjacent(edges, x, y) ensures y in marked' {
            if x == start {
              var k :| 0 <= k < |nbrs| && nbrs[k] == y;
            }
          }
        }
        forall x | x in ReachSet(edges, start, marked) ensures x in marked' {
          ClosedContainsReach(edges, marked', marked, start, x);
        }
      }
    }

    /** Adds v to the value of every node reachable from u without entering
        a marked node, marking each as it goes. */
    method Dfs(u: int, marked: set<int>, v: int) returns (marked': set<int>)
      requires Valid() && IsNode(edges, u) && marked <= Nodes(edges)
      modifies values
      ensures marked' == marked + ReachSet(edges, u, marked)
      ensures values[..] == AddOn(old(values[..]), ReachSet(edges, u, marked), v)
      decreases Nodes(edges) - marked
    {
      if u in marked {
        ReachSetFromVisited(edges, u, marked);
        assert values[..] == AddOn(old(values[..]), {}, v);
        marked' := marked;
        return;
      }
      assert IsPath(edges, [u], u, u) && Avoids([u], marked);
      values[u - 1] := values[u - 1] + v;
      marked' := marked + {u};
      assert values[..] == AddOn(old(values[..]), marked' - marked, v);
      var nbrs := edges[u - 1];
      for j := 0 to |nbrs|
        invariant marked + {u} <= marked' <= Nodes(edges)
        invariant values[..] == AddOn(old(values[..]), marked' - marked, v)
        invariant forall x :: x in marked' - marked ==> ReachableAvoiding(edges, u, x, marked)
        invariant forall k :: 0 <= k < j ==> nbrs[k] in marked'
        invariant forall x, y :: x in marked' && x !in marked && x != u && Adjacent(edges, x, y) ==> y in marked'
      {
        var i := nbrs[j];
        assert Adjacent(edges, u, i);
        ghost var before := marked';
        if i !in marked' {
          assert IsPath(edges, [i], i, i) && Avoids([i], marked');
        }
        ghost var vals := values[..];
        assert Nodes(edges) - marked' < Nodes(edges) - marked by {
          assert u in Nodes(edges) - marked;
        }
        marked' := Dfs(i, marked', v);
        ReachSetClosed(edges, i, before);
        forall x | x in marked' - before ensures ReachableAvoiding(edges, u, x, marked) {
          PrependReach(edges, u, i, x, marked, before);
        }
        AddOnDisjoint(old(values[..]), before - marked, marked' - before, v);
        assert (before - marked) + (marked' - before) == marked' - marked;
      }
      assert Closed(edges, marked', marked) by {
        forall x, y | x in marked' && x !in marked && Adjacent(edges, x, y) ensures y in marked' {
          if x == u {
            var k :| 0 <= k < |nbrs| && nbrs[k] == y;
          }
        }
      }
      forall x | x in ReachSet(edges, u, marked) ensures x in marked' {
        ClosedContainsReach(edges, marked', marked, u, x);
      }
      assert marked' - marked == ReachSet(edges, u, marked);
    }

    /** Adds v to every node below t relative to the root: the nodes of the
        path from t to the root other than t are marked first, so the
        depth-first search from t cannot climb towards the root. */
    method AddValue(t: int, v: int) returns (ghost route: seq<int>)
      requires Valid() && IsNode(edges, t)
      modifies values
      ensures route == [] <==> !Reachable(edges, t, Root)
      ensures route != [] ==> IsPath(edges, route, t, Root)
      ensures values[..] == AddOn(old(values[..]), ReachSet(edges, t, Above(route, t)), v)
      ensures t == Root ==> values[..] == AddOn(old(values[..]), ReachSet(edges, Root, {}), v)
      ensures IsTree(edges) ==> values[..] == AddOn(old(values[..]), Subtree(edges, t), v)
      ensures IsTree(edges) && t == Root ==> values[..] == AddOn(old(values[..]), Nodes(edges), v)
    {
      var path;
      path, route := FindPath(t, Root);
      var marked: set<int> := {};
      for k := 0 to |path|
        invariant marked == set x | x in path[..k] && x != t
      {
        if path[k] != t {
          marked := marked + {path[k]};
        }
        assert path[..k + 1] == path[..k] + [path[k]];
      }
      assert path[..|path|] == path;
      assert marked == Above(route, t);
      if t == Root && route != [] {
        PathToSelf(edges, route, t);
        assert Above(route, t) == {};
      }
      if IsTree(edges) {
        assert Reachable(edges, t, Root);
        ReachAvoidingAncestorsIsSubtree(edges, t, route);
        RootSubtreeIsAll(edges);
      }
      marked := Dfs(t, marked, v);
    }

    /** The largest value on the path between a and b. */
    method Max(a: int, b: int) returns (m: int, ghost route: seq<int>)
      requires Valid() && IsNode(edges, a) && IsNode(edges, b) && Reachable(edges, a, b)
      ensures IsPath(edges, route, a, b)
      ensures IsMaxOn(values[..], route, m)
      ensures a == b ==> m == values[a - 1]
    {
      var path;
      path, route := FindPath(a, b);
      assert forall k :: 0 <= k < |path| ==> path[k] in route;
      // the list's last element is a
      m := values[path[|path| - 1] - 1];
      for i := 0 to |path| - 1
        invariant forall k :: 0 <= k < i ==> values[path[k] - 1] <= m
        invariant values[path[|path| - 1] - 1] <= m
        invariant exists k :: 0 <= k < |path| && values[path[k] - 1] == m
      {
        var val := values[path[i] - 1];
        if val > m {
          m := val;
        }
      }
      forall x | x in route ensures values[x - 1] <= m {
        var k :| 0 <= k < |path| && path[k] == x;
      }
    }
  }
}
