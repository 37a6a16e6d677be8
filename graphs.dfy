/** Graph notions used to specify the tree: adjacency lists, simple paths,
    reachability that avoids a set of nodes, and the subtree of a node
    relative to the root. Nodes are named 1..n; the neighbour list of the
    node named x is g[x - 1]. */
module Graphs {

  /** g[i] holds the names of the neighbours of the node named i + 1,
      in the order they were added. */
  type Adjacency = seq<seq<int>>

  /** The node that the subtree update treats as the root. */
  const Root := 1

  predicate IsNode(g: Adjacency, x: int) {
    1 <= x <= |g|
  }

  ghost function Nodes(g: Adjacency): set<int> {
    set x | 1 <= x <= |g| && IsNode(g, x)
  }

  /** y occurs in the neighbour list of x. */
  predicate Adjacent(g: Adjacency, x: int, y: int) {
    IsNode(g, x) && y in g[x - 1]
  }

  /** Every neighbour list names nodes only. */
  ghost predicate WellFormed(g: Adjacency) {
    forall x, y :: Adjacent(g, x, y) ==> IsNode(g, y)
  }

  /** Every adjacency is recorded at both ends. */
  ghost predicate Symmetric(g: Adjacency) {
    forall x, y :: Adjacent(g, x, y) ==> Adjacent(g, y, x)
  }

  /** The number of entries over all neighbour lists (twice the number of edges). */
  function EntryCount(g: Adjacency): nat {
    if g == [] then 0 else |g[0]| + EntryCount(g[1..])
  }

  /** A non-empty sequence of nodes, each a neighbour of the one before it. */
  ghost predicate IsWalk(g: Adjacency, p: seq<int>) {
    && |p| >= 1
    && (forall i :: 0 <= i < |p| ==> IsNode(g, p[i]))
    && (forall i :: 0 <= i < |p| - 1 ==> Adjacent(g, p[i], p[i + 1]))
  }

  ghost predicate Distinct(p: seq<int>) {
    forall i, j :: 0 <= i < j < |p| ==> p[i] != p[j]
  }

  /** p is a simple path from a to b. */
  ghost predicate IsPath(g: Adjacency, p: seq<int>, a: int, b: int) {
    IsWalk(g, p) && Distinct(p) && p[0] == a && p[|p| - 1] == b
  }

  ghost predicate Avoids(p: seq<int>, V: set<int>) {
    forall i :: 0 <= i < |p| ==> p[i] !in V
  }

  /** Some simple path from a to b enters no node of V. */
  ghost predicate ReachableAvoiding(g: Adjacency, a: int, b: int, V: set<int>) {
    exists p :: IsPath(g, p, a, b) && Avoids(p, V)
  }

  ghost predicate Reachable(g: Adjacency, a: int, b: int) {
    ReachableAvoiding(g, a, b, {})
  }

  /** The nodes reachable from a without entering V. */
  ghost function ReachSet(g: Adjacency, a: int, V: set<int>): set<int> {
    set x | 1 <= x <= |g| && ReachableAvoiding(g, a, x, V)
  }

  /** Every neighbour of a node of W outside V is in W. */
  ghost predicate Closed(g: Adjacency, W: set<int>, V: set<int>) {
    forall x, y :: x in W && x !in V && Adjacent(g, x, y) ==> y in W
  }

  ghost predicate Connected(g: Adjacency) {
    forall a, b :: IsNode(g, a) && IsNode(g, b) ==> Reachable(g, a, b)
  }

  /** A simple path of three or more nodes whose last node is adjacent to its first. */
  ghost predicate IsCycle(g: Adjacency, c: seq<int>) {
    IsWalk(g, c) && Distinct(c) && |c| >= 3 && Adjacent(g, c[|c| - 1], c[0])
  }

  ghost predicate Acyclic(g: Adjacency) {
    forall c :: !IsCycle(g, c)
  }

  /** n >= 1 nodes joined by n - 1 edges, recorded at both ends, forming a
      connected graph without cycles. */
  ghost predicate IsTree(g: Adjacency) {
    && |g| >= 1
    && WellFormed(g)
    && Symmetric(g)
    && EntryCount(g) == 2 * (|g| - 1)
    && Connected(g)
    && Acyclic(g)
  }

  /** u lies below t: the path from the root to u passes through t. */
  ghost predicate InSubtree(g: Adjacency, t: int, u: int) {
    exists p :: IsPath(g, p, Root, u) && t in p
  }

  ghost function Subtree(g: Adjacency, t: int): set<int> {
    set u | 1 <= u <= |g| && InSubtree(g, t, u)
  }

  function Reverse(p: seq<int>): seq<int> {
    seq(|p|, i requires 0 <= i < |p| => p[|p| - 1 - i])
  }

  // ---------------------------------------------------------------------
  // Neighbour lists

  /** Appending one name to one neighbour list adds one entry. */
  lemma {:induction false} EntryCountAppend(g: Adjacency, k: int, y: int)
    requires 0 <= k < |g|
    ensures EntryCount(g[k := g[k] + [y]]) == EntryCount(g) + 1
  {
    var h := g[k := g[k] + [y]];
    if k > 0 {
      assert h[1..] == g[1..][k - 1 := g[1..][k - 1] + [y]];
      EntryCountAppend(g[1..], k - 1, y);
    } else {
      assert h[1..] == g[1..];
    }
  }

  // ---------------------------------------------------------------------
  // Path surgery

  /** A node outside V followed by a path that avoids a larger set W
      (which holds that node) is a path avoiding V. */
  lemma PrependPath(g: Adjacency, s: int, i: int, r: seq<int>, b: int, V: set<int>, W: set<int>)
    requires IsPath(g, r, i, b) && Avoids(r, W)
    requires Adjacent(g, s, i) && s !in V && s in W && V <= W
    ensures IsPath(g, [s] + r, s, b) && Avoids([s] + r, V)
  {
    var p := [s] + r;
    assert forall k :: 1 <= k < |p| ==> p[k] == r[k - 1];
  }

  lemma PrependReach(g: Adjacency, s: int, i: int, x: int, V: set<int>, W: set<int>)
    requires ReachableAvoiding(g, i, x, W)
    requires Adjacent(g, s, i) && s !in V && s in W && V <= W
    ensures ReachableAvoiding(g, s, x, V)
  {
    var r :| IsPath(g, r, i, x) && Avoids(r, W);
    PrependPath(g, s, i, r, x, V, W);
  }

  /** A neighbour outside V of a node reachable without entering V is
      itself reachable without entering V. */
  lemma ExtendReach(g: Adjacency, a: int, x: int, y: int, V: set<int>)
    requires WellFormed(g) && ReachableAvoiding(g, a, x, V)
    requires Adjacent(g, x, y) && y !in V
    ensures ReachableAvoiding(g, a, y, V)
  {
    var p :| IsPath(g, p, a, x) && Avoids(p, V);
    if y in p {
      var k :| 0 <= k < |p| && p[k] == y;
      var q := p[..k + 1];
      assert IsPath(g, q, a, y) && Avoids(q, V);
    } else {
      var q := p + [y];
      assert forall k :: 0 <= k < |p| ==> q[k] == p[k];
      assert IsPath(g, q, a, y) && Avoids(q, V);
    }
  }

  /** The nodes reachable from a without entering V, together with V,
      are closed under taking neighbours. */
  lemma ReachSetClosed(g: Adjacency, a: int, V: set<int>)
    requires WellFormed(g)
    ensures Closed(g, V + ReachSet(g, a, V), V)
  {
    forall x, y | x in V + ReachSet(g, a, V) && x !in V && Adjacent(g, x, y)
      ensures y in V + ReachSet(g, a, V)
    {
      if y !in V {
        ExtendReach(g, a, x, y, V);
      }
    }
  }

  /** A set closed under neighbours outside V contains everything reachable
      from any of its members without entering V. */
  lemma ClosedContainsReach(g: Adjacency, W: set<int>, V: set<int>, a: int, x: int)
    requires Closed(g, W, V) && a in W && ReachableAvoiding(g, a, x, V)
    ensures x in W
  {
    var p :| IsPath(g, p, a, x) && Avoids(p, V);
    var k := 0;
    while k < |p| - 1
      invariant 0 <= k < |p| && p[k] in W
    {
      assert Adjacent(g, p[k], p[k + 1]);
      k := k + 1;
    }
  }

  /** A node in V starts no path that avoids V. */
  lemma ReachSetFromVisited(g: Adjacency, a: int, V: set<int>)
    requires a in V
    ensures ReachSet(g, a, V) == {}
  {
    forall x, p | IsPath(g, p, a, x) ensures !Avoids(p, V) {
      assert p[0] in V;
    }
  }

  /** Consecutive nodes of a walk are adjacent. */
  lemma WalkStep(g: Adjacency, p: seq<int>, k: int)
    requires IsWalk(g, p)
    ensures 0 <= k < |p| - 1 ==> Adjacent(g, p[k], p[k + 1])
  {
  }

  /** The only simple path from a node to itself is that node alone. */
  lemma PathToSelf(g: Adjacency, p: seq<int>, a: int)
    requires IsPath(g, p, a, a)
    ensures p == [a]
  {
    assert p[0] == p[|p| - 1];
  }

  lemma ReversePath(g: Adjacency, p: seq<int>, a: int, b: int)
    requires Symmetric(g) && IsPath(g, p, a, b)
    ensures IsPath(g, Reverse(p), b, a)
  {
    var r := Reverse(p);
    forall i | 0 <= i < |r| - 1 ensures Adjacent(g, r[i], r[i + 1]) {
      assert Adjacent(g, p[|p| - 2 - i], p[|p| - 1 - i]);
    }
  }

  /** Two simple paths that share only the node where they meet form a
      simple path. */
  lemma JoinPaths(g: Adjacency, p: seq<int>, q: seq<int>, a: int, b: int, c: int)
    requires IsPath(g, p, a, b) && IsPath(g, q, b, c)
    requires forall i, j :: 0 <= i < |p| && 1 <= j < |q| ==> p[i] != q[j]
    ensures IsPath(g, p + q[1..], a, c)
  {
    var r := p + q[1..];
    assert forall k :: |p| <= k < |r| ==> r[k] == q[k - |p| + 1];
    assert forall k :: 0 <= k < |p| ==> r[k] == p[k];
    forall k | 0 <= k < |r| - 1 ensures Adjacent(g, r[k], r[k + 1]) {
      if k < |p| - 1 {
        assert Adjacent(g, p[k], p[k + 1]);
      } else {
        assert Adjacent(g, q[k - |p| + 1], q[k - |p| + 2]);
      }
    }
    forall i, j | 0 <= i < j < |r| ensures r[i] != r[j] {
      if j < |p| {
      } else if i < |p| {
        assert r[j] == q[j - |p| + 1];
      } else {
        assert r[i] == q[i - |p| + 1] && r[j] == q[j - |p| + 1];
      }
    }
    if |q| == 1 {
      assert r == p;
    }
  }

  // ---------------------------------------------------------------------
  // Acyclic graphs have unique simple paths

  /** Two simple paths that leave the same node by different neighbours and
      meet again at b close a cycle. */
  lemma DivergingPathsMakeCycle(g: Adjacency, p: seq<int>, q: seq<int>, a: int, b: int)
    requires Symmetric(g) && IsPath(g, p, a, b) && IsPath(g, q, a, b)
    requires |p| >= 2 && |q| >= 2 && p[1] != q[1]
    ensures exists c :: IsCycle(g, c)
  {
    // j: the first node of p after a that lies on q after a
    assert q[1..][|q| - 2] == b;
    var j := 1;
    while p[j] !in q[1..]
      invariant 1 <= j < |p|
      invariant forall k :: 1 <= k < j ==> p[k] !in q[1..]
      decreases |p| - j
    {
      j := j + 1;
    }
    var m :| 0 <= m < |q| - 1 && q[1..][m] == p[j];
    var jq := 1 + m;
    assert q[jq] == p[j];
    var c1 := p[..j + 1];
    var c2 := Reverse(q[1..jq]);
    var c := c1 + c2;
    assert forall k :: 0 <= k < |c1| ==> c[k] == p[k];
    assert forall k :: |c1| <= k < |c| ==> c[k] == q[jq - 1 - (k - |c1|)];
    CycleOfDivergence(g, p, q, j, jq, c);
  }

  /** The cycle built in DivergingPathsMakeCycle: along p from its first node
      to the first node it shares again with q, then back along q. */
  lemma CycleOfDivergence(g: Adjacency, p: seq<int>, q: seq<int>, j: int, jq: int, c: seq<int>)
    requires Symmetric(g) && IsWalk(g, p) && Distinct(p) && IsWalk(g, q) && Distinct(q)
    requires 1 <= j < |p| && 1 <= jq < |q|
    requires p[0] == q[0] && p[1] != q[1] && p[j] == q[jq]
    requires forall k :: 1 <= k < j ==> p[k] !in q[1..]
    requires |c| == (j + 1) + (jq - 1)
    requires forall k :: 0 <= k < j + 1 ==> c[k] == p[k]
    requires forall k :: j + 1 <= k < |c| ==> c[k] == q[jq - 1 - (k - (j + 1))]
    ensures IsCycle(g, c)
  {
    var n1 := j + 1;
    assert j == 1 ==> jq > 1;
    forall k | 0 <= k < |c| ensures IsNode(g, c[k]) {
      if k < n1 { assert c[k] == p[k]; } else { assert c[k] == q[jq - 1 - (k - n1)]; }
    }
    forall k | 0 <= k < |c| - 1 ensures Adjacent(g, c[k], c[k + 1]) {
      if k < n1 - 1 {
        assert Adjacent(g, p[k], p[k + 1]);
      } else if k == n1 - 1 {
        assert Adjacent(g, q[jq - 1], q[jq]);
      } else {
        assert Adjacent(g, q[jq - 1 - (k + 1 - n1)], q[jq - (k + 1 - n1)]);
      }
    }
    forall k1, k2 | 0 <= k1 < k2 < |c| ensures c[k1] != c[k2] {
      if k2 < n1 {
      } else if k1 < n1 {
        var l := jq - 1 - (k2 - n1);
        assert c[k2] == q[l] && 1 <= l < jq;
        if k1 == 0 {
          assert c[k1] == q[0];
        } else if k1 < n1 - 1 {
          assert q[1..][l - 1] == q[l];
        } else {
          assert c[k1] == q[jq];
        }
      } else {
      }
    }
    if jq > 1 {
      assert c[|c| - 1] == q[1];
    } else {
      assert c[|c| - 1] == p[j] == q[1];
    }
    assert Adjacent(g, q[0], q[1]);
  }

  /** In a symmetric graph without cycles, simple paths are determined by
      their ends. */
  lemma {:induction false} AcyclicPathsUnique(g: Adjacency, p: seq<int>, q: seq<int>, a: int, b: int)
    requires Symmetric(g) && Acyclic(g) && IsPath(g, p, a, b) && IsPath(g, q, a, b)
    ensures p == q
    decreases |p|
  {
    if |p| == 1 || |q| == 1 {
      PathToSelf(g, p, a);
      PathToSelf(g, q, a);
    } else if p[1] == q[1] {
      assert IsPath(g, p[1..], p[1], b);
      assert IsPath(g, q[1..], p[1], b);
      AcyclicPathsUnique(g, p[1..], q[1..], p[1], b);
      assert p == [a] + p[1..] && q == [a] + q[1..];
    } else {
      DivergingPathsMakeCycle(g, p, q, a, b);
      assert false;
    }
  }

  // ---------------------------------------------------------------------
  // Subtrees

  /** The strict ancestors of t: the nodes of the path r from t to the root
      other than t. */
  ghost function Above(r: seq<int>, t: int): set<int> {
    set x | x in r && x != t
  }

  /** Going up to the root and then down a path that avoids the strict
      ancestors passes through t. */
  lemma ReachedBelow(g: Adjacency, t: int, r: seq<int>, x: int)
    requires Symmetric(g) && IsPath(g, r, t, Root)
    requires ReachableAvoiding(g, t, x, Above(r, t))
    ensures InSubtree(g, t, x)
  {
    var q :| IsPath(g, q, t, x) && Avoids(q, Above(r, t));
    var rr := Reverse(r);
    ReversePath(g, r, t, Root);
    forall i, j | 0 <= i < |rr| && 1 <= j < |q| ensures rr[i] != q[j] {
      assert rr[i] in r;
      assert q[j] != q[0];
    }
    JoinPaths(g, rr, q, Root, t, x);
    var p := rr + q[1..];
    assert p[|rr| - 1] == t;
    assert IsPath(g, p, Root, x) && t in p;
  }

  /** In a tree, the part of the root path to x after t avoids the strict
      ancestors of t. */
  lemma BelowIsReached(g: Adjacency, t: int, r: seq<int>, x: int)
    requires Symmetric(g) && Acyclic(g) && IsPath(g, r, t, Root)
    requires InSubtree(g, t, x)
    ensures ReachableAvoiding(g, t, x, Above(r, t))
  {
    var M := Above(r, t);
    var rr := Reverse(r);
    ReversePath(g, r, t, Root);
    var p :| IsPath(g, p, Root, x) && t in p;
    var k :| 0 <= k < |p| && p[k] == t;
    var p1 := p[..k + 1];
    assert IsPath(g, p1, Root, t);
    AcyclicPathsUnique(g, p1, rr, Root, t);
    var q := p[k..];
    assert forall m :: 0 <= m < |q| ==> q[m] == p[k + m];
    assert IsPath(g, q, t, x);
    // r, read backwards, is p up to t; so the rest of p is off r
    forall m | 0 <= m < |q| ensures q[m] !in M {
      if m > 0 {
        forall l | 0 <= l < |r| ensures r[l] != q[m] {
          assert r[l] == rr[|r| - 1 - l] == p[|r| - 1 - l];
        }
      }
    }
    assert ReachableAvoiding(g, t, x, M);
  }

  /** In a tree, what is reachable from t without entering its strict
      ancestors is exactly the subtree of t. */
  lemma ReachAvoidingAncestorsIsSubtree(g: Adjacency, t: int, r: seq<int>)
    requires IsTree(g) && IsPath(g, r, t, Root)
    ensures ReachSet(g, t, Above(r, t)) == Subtree(g, t)
  {
    forall x | x in ReachSet(g, t, Above(r, t)) ensures x in Subtree(g, t) {
      ReachedBelow(g, t, r, x);
    }
    forall x | x in Subtree(g, t) ensures x in ReachSet(g, t, Above(r, t)) {
      BelowIsReached(g, t, r, x);
    }
  }

  /** In a tree every node lies below the root. */
  lemma RootSubtreeIsAll(g: Adjacency)
    requires IsTree(g)
    ensures Subtree(g, Root) == Nodes(g)
  {
    forall x | x in Nodes(g) ensures x in Subtree(g, Root) {
      assert Reachable(g, Root, x);
      var p :| IsPath(g, p, Root, x) && Avoids(p, {});
      assert p[0] in p;
    }
  }
}
