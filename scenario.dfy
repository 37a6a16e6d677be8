/** A four-node tree driven through the operations of the tree: edges
    (1,2), (1,3), (3,4); add 5 below node 3; then three path maxima. */
module Scenario {
  import opened Graphs
  import opened TreeModel

  /** The neighbour lists the three edges produce. */
  const G: Adjacency := [[2, 3], [1], [1, 4], [3]]

  /** The only simple path from 3 to the root is 3, 1. */
  lemma PathFrom3To1(p: seq<int>)
    requires IsPath(G, p, 3, 1)
    ensures p == [3, 1]
  {
    WalkStep(G, p, 0);
    WalkStep(G, p, 1);
  }

  /** The only simple path from 1 to 2 is 1, 2. */
  lemma PathFrom1To2(p: seq<int>)
    requires IsPath(G, p, 1, 2)
    ensures p == [1, 2]
  {
    WalkStep(G, p, 0);
    WalkStep(G, p, 1);
    WalkStep(G, p, 2);
  }

  /** Below node 3, once the root is marked, lie exactly 3 and 4. */
  lemma BelowNode3()
    ensures ReachSet(G, 3, {1}) == {3, 4}
  {
    assert IsPath(G, [3], 3, 3) && Avoids([3], {1});
    assert IsPath(G, [3, 4], 3, 4) && Avoids([3, 4], {1});
    assert Closed(G, {1, 3, 4}, {1});
    forall x | x in ReachSet(G, 3, {1}) ensures x in {3, 4} {
      ClosedContainsReach(G, {1, 3, 4}, {1}, 3, x);
      var p :| IsPath(G, p, 3, x) && Avoids(p, {1});
      assert p[|p| - 1] !in {1};
    }
  }

  /** Four nodes joined by the edges (1,2), (1,3) and (3,4), all values 0. */
  method BuildExample() returns (t: Tree)
    ensures fresh(t) && fresh(t.values) && t.Valid()
    ensures t.edges == G && t.values[..] == [0, 0, 0, 0]
  {
    t := new Tree(4);
    assert t.edges == [[], [], [], []];
    t.AddEdge(1, 2);
    assert t.edges[0] == [2] && t.edges[1] == [1];
    assert t.edges[2] == [] && t.edges[3] == [];
    t.AddEdge(1, 3);
    assert t.edges[0] == [2, 3] && t.edges[1] == [1];
    assert t.edges[2] == [1] && t.edges[3] == [];
    t.AddEdge(3, 4);
    assert t.edges[0] == [2, 3] && t.edges[1] == [1];
    assert t.edges[2] == [1, 4] && t.edges[3] == [3];
    assert t.edges == G;
  }

  /** Adding 5 below node 3 touches nodes 3 and 4 only. */
  method AddBelowThree(t: Tree)
    requires t.Valid() && t.edges == G && t.values[..] == [0, 0, 0, 0]
    modifies t.values
    ensures t.values[..] == [0, 0, 5, 5]
  {
    assert IsPath(G, [3, 1], 3, 1) && Avoids([3, 1], {});
    ghost var route := t.AddValue(3, 5);
    PathFrom3To1(route);
    assert Above(route, 3) == {1};
    BelowNode3();
  }

  /** Two additions at the same node of a tree add their sum once. */
  method AddTwice(t: Tree, u: int, v1: int, v2: int)
    requires t.Valid() && IsNode(t.edges, u) && IsTree(t.edges)
    modifies t.values
    ensures t.values[..] == AddOn(old(t.values[..]), Subtree(t.edges, u), v1 + v2)
  {
    ghost var route := t.AddValue(u, v1);
    route := t.AddValue(u, v2);
    AddOnAdditive(old(t.values[..]), Subtree(t.edges, u), v1, v2);
  }

  method WorkedExample() {
    var t := BuildExample();
    AddBelowThree(t);

    assert IsPath(G, [2, 1, 3, 4], 2, 4) && Avoids([2, 1, 3, 4], {});
    var m, r := t.Max(2, 4);
    assert 4 in r;
    assert m == 5;
    assert IsPath(G, [1, 2], 1, 2) && Avoids([1, 2], {});
    m, r := t.Max(1, 2);
    PathFrom1To2(r);
    assert m == 0;
    assert IsPath(G, [3, 4], 3, 4) && Avoids([3, 4], {});
    m, r := t.Max(3, 4);
    assert 4 in r;
    assert m == 5;
  }
}
