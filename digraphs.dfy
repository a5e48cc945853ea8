/** The graph as a value: for each vertex label, its outgoing edges. Paths,
    reachability and path weights are defined over this value. */
module Digraphs {
  import opened Edges
  import opened OrderedKeys

  type Adjacency = map<Label, map<Label, Edge>>

  /** No edge leads to a label that is not a vertex (no dangling edges). */
  ghost predicate Closed(g: Adjacency)
  {
    forall v, t :: v in g && t in g[v] ==> t in g
  }

  /** No vertex has an edge to itself. */
  ghost predicate NoSelfLoops(g: Adjacency)
  {
    forall v :: v in g ==> v !in g[v]
  }

  /** Every edge is stored under its own end label. */
  ghost predicate EdgesKeyed(g: Adjacency)
  {
    forall v, t :: v in g && t in g[v] ==> g[v][t].endVertex == t
  }

  ghost predicate WellFormed(g: Adjacency)
  {
    Closed(g) && NoSelfLoops(g) && EdgesKeyed(g)
  }

  /** The targets of v in the order its adjacency map iterates them. */
  function Successors(g: Adjacency, v: Label): (ns: seq<Label>)
    requires v in g
    ensures forall t :: t in ns <==> t in g[v]
  {
    SortedKeys(g[v].Keys)
  }

  /** Every target of x is in vis. */
  ghost predicate TargetsIn(g: Adjacency, x: Label, vis: set<Label>)
  {
    x in g && forall y :: y in g[x] ==> y in vis
  }

  lemma SuccessorsInGraph(g: Adjacency, v: Label)
    requires Closed(g) && v in g
    ensures forall j :: 0 <= j < |Successors(g, v)| ==> Successors(g, v)[j] in g
  {
    var ns := Successors(g, v);
    forall j | 0 <= j < |ns| ensures ns[j] in g {
      var t := ns[j];
      assert t in g[v];
    }
  }

  function Elems(s: seq<Label>): (r: set<Label>)
    ensures forall x :: x in r <==> x in s
  {
    set x | x in s
  }

  predicate Distinct(s: seq<Label>)
  {
    forall i, j :: 0 <= i < j < |s| ==> s[i] != s[j]
  }

  /** Two duplicate-free sequences with no common element concatenate to a
      duplicate-free sequence. */
  lemma DistinctConcat(a: seq<Label>, b: seq<Label>)
    requires Distinct(a) && Distinct(b)
    requires forall x :: x in a ==> x !in b
    ensures Distinct(a + b)
  {
    forall i, j | 0 <= i < j < |a + b| ensures (a + b)[i] != (a + b)[j] {
      if i < |a| && j >= |a| {
        assert (a + b)[i] in a && (a + b)[j] in b;
      }
    }
  }

  lemma SubsetCardinality(a: set<Label>, b: set<Label>)
    requires a <= b
    ensures |a| <= |b|
    ensures a < b ==> |a| < |b|
  {
    assert b == a + (b - a);
    assert a * (b - a) == {};
    assert b - a == {} ==> b == a;
  }

  /** A non-empty sequence of vertices, each joined to the next by an edge. */
  ghost predicate IsPath(g: Adjacency, p: seq<Label>)
  {
    && |p| > 0
    && (forall i :: 0 <= i < |p| ==> p[i] in g)
    && (forall i :: 0 <= i < |p| - 1 ==> p[i + 1] in g[p[i]])
  }

  ghost predicate Reachable(g: Adjacency, s: Label, x: Label)
  {
    exists p :: IsPath(g, p) && p[0] == s && p[|p| - 1] == x
  }

  lemma ReachableFromItself(g: Adjacency, s: Label)
    requires s in g
    ensures Reachable(g, s, s)
  {
    assert IsPath(g, [s]);
  }

  /** Following one more edge keeps a vertex reachable. */
  lemma ReachableStep(g: Adjacency, s: Label, x: Label, y: Label)
    requires Closed(g) && Reachable(g, s, x) && x in g && y in g[x]
    ensures Reachable(g, s, y)
  {
    var p :| IsPath(g, p) && p[0] == s && p[|p| - 1] == x;
    var q := p + [y];
    assert IsPath(g, q);
  }

  /** A set that holds s and every target of each of its members holds
      every vertex reachable from s. */
  lemma {:induction false} ClosedSetHoldsReachable(g: Adjacency, S: set<Label>, s: Label, x: Label)
    requires s in S
    requires forall v :: v in S ==> v in g
    requires forall v, t :: v in S && v in g && t in g[v] ==> t in S
    requires Reachable(g, s, x)
    ensures x in S
  {
    var p :| IsPath(g, p) && p[0] == s && p[|p| - 1] == x;
    var k := 0;
    while k < |p| - 1
      invariant 0 <= k < |p| && p[k] in S
    {
      var a, b := p[k], p[k + 1];
      assert a in S && a in g && b in g[a];
      k := k + 1;
    }
  }

  /** x is reached from s by a path of exactly k edges. */
  ghost predicate ReachableIn(g: Adjacency, s: Label, x: Label, k: nat)
  {
    exists p :: IsPath(g, p) && |p| == k + 1 && p[0] == s && p[k] == x
  }

  lemma {:induction false} FewestEdgesExist(g: Adjacency, s: Label, x: Label, n: nat)
    requires ReachableIn(g, s, x, n)
    ensures exists d: nat :: ReachableIn(g, s, x, d) && forall k :: 0 <= k < d ==> !ReachableIn(g, s, x, k)
  {
    var d := 0;
    while !ReachableIn(g, s, x, d)
      invariant d <= n
      invariant forall k :: 0 <= k < d ==> !ReachableIn(g, s, x, k)
      decreases n - d
    {
      d := d + 1;
    }
  }

  /** The hop distance: the fewest edges on a path from s to x. */
  ghost function Dist(g: Adjacency, s: Label, x: Label): (d: nat)
    requires Reachable(g, s, x)
    ensures ReachableIn(g, s, x, d)
    ensures forall k :: 0 <= k < d ==> !ReachableIn(g, s, x, k)
  {
    var p :| IsPath(g, p) && p[0] == s && p[|p| - 1] == x;
    assert ReachableIn(g, s, x, |p| - 1);
    FewestEdgesExist(g, s, x, |p| - 1);
    var d: nat :| ReachableIn(g, s, x, d) && forall k :: 0 <= k < d ==> !ReachableIn(g, s, x, k);
    d
  }

  /** Only s itself is at distance 0. */
  lemma DistZero(g: Adjacency, s: Label, x: Label)
    requires Reachable(g, s, x)
    ensures Dist(g, s, x) == 0 <==> x == s
  {
    if x == s {
      assert IsPath(g, [s]);
      assert ReachableIn(g, s, x, 0);
    }
  }

  /** An edge x -> y puts y at most one hop further than x. */
  lemma DistStep(g: Adjacency, s: Label, x: Label, y: Label)
    requires Closed(g) && Reachable(g, s, x) && x in g && y in g[x]
    ensures Reachable(g, s, y) && Dist(g, s, y) <= Dist(g, s, x) + 1
  {
    ReachableStep(g, s, x, y);
    var d := Dist(g, s, x);
    var p :| IsPath(g, p) && |p| == d + 1 && p[0] == s && p[d] == x;
    var q := p + [y];
    assert IsPath(g, q);
    assert ReachableIn(g, s, y, d + 1);
  }

  /** A vertex other than s has a predecessor strictly nearer to s. */
  lemma DistPredecessor(g: Adjacency, s: Label, x: Label) returns (y: Label)
    requires Reachable(g, s, x) && x != s
    ensures y in g && x in g[y] && Reachable(g, s, y) && Dist(g, s, y) < Dist(g, s, x)
  {
    DistZero(g, s, x);
    var m := Dist(g, s, x);
    var p :| IsPath(g, p) && |p| == m + 1 && p[0] == s && p[m] == x;
    y := p[m - 1];
    var q := p[..m];
    assert IsPath(g, q);
    assert ReachableIn(g, s, y, m - 1);
  }

  /** The total weight of the edges along a path. */
  ghost function PathWeight(g: Adjacency, p: seq<Label>): int
    requires IsPath(g, p)
    decreases |p|
  {
    if |p| == 1 then 0
    else
      var q := p[..|p| - 1];
      assert IsPath(g, q);
      PathWeight(g, q) + g[p[|p| - 2]][p[|p| - 1]].weight
  }
}
