/** Depth-first traversal as a function of the graph value. DfsVisit is one
    activation of depthFirstTraversalHelper: visit v, then walk v's targets in
    ascending order, descending into each one not yet visited. DfsScan is
    that walk from the i-th target on. Both return the labels they visit, in
    order, and the visited set they leave behind. */
module DepthFirst {
  import opened Edges
  import opened Digraphs

  function DfsVisit(g: Adjacency, v: Label, visited: set<Label>): (r: (seq<Label>, set<Label>))
    requires Closed(g) && v in g && v !in visited
    ensures visited + {v} <= r.1
    decreases |g.Keys - visited|, 0
  {
    SubsetCardinality(g.Keys - (visited + {v}), g.Keys - visited);
    var (u, vis) := DfsScan(g, Successors(g, v), 0, visited + {v});
    ([v] + u, vis)
  }

  function DfsScan(g: Adjacency, ns: seq<Label>, i: nat, visited: set<Label>): (r: (seq<Label>, set<Label>))
    requires Closed(g) && i <= |ns|
    requires forall j :: 0 <= j < |ns| ==> ns[j] in g
    ensures visited <= r.1
    decreases |g.Keys - visited|, |ns| - i + 1
  {
    if i == |ns| then ([], visited)
    else if ns[i] in visited then DfsScan(g, ns, i + 1, visited)
    else
      var (t, vis) := DfsVisit(g, ns[i], visited);
      SubsetCardinality(g.Keys - vis, g.Keys - visited);
      var (u, vis') := DfsScan(g, ns, i + 1, vis);
      (t + u, vis')
  }

  /** What an activation does with one target x: nothing when x is
      already visited, otherwise a nested activation from x. */
  function DfsEnter(g: Adjacency, x: Label, visited: set<Label>): (r: (seq<Label>, set<Label>))
    requires Closed(g) && x in g
    ensures visited <= r.1
    ensures x in r.1
  {
    if x in visited then ([], visited) else DfsVisit(g, x, visited)
  }

  /** Where an activation of v, started with `visited`, stands once the
      targets before ns[i] are handled: it has produced trace and left vis,
      and the walk from ns[i] on completes what DfsVisit produces. */
  ghost predicate ScanState(g: Adjacency, v: Label, visited: set<Label>, ns: seq<Label>, i: nat,
                            trace: seq<Label>, vis: set<Label>)
  {
    && Closed(g) && v in g && v !in visited && ns == Successors(g, v) && i <= |ns|
    && (forall j :: 0 <= j < |ns| ==> ns[j] in g)
    && visited + {v} <= vis
    && [v] + DfsScan(g, ns, 0, visited + {v}).0 == trace + DfsScan(g, ns, i, vis).0
    && DfsScan(g, ns, 0, visited + {v}).1 == DfsScan(g, ns, i, vis).1
  }

  /** Right after visiting v nothing of the walk is done. */
  lemma ScanStart(g: Adjacency, v: Label, visited: set<Label>)
    requires Closed(g) && v in g && v !in visited
    ensures ScanState(g, v, visited, Successors(g, v), 0, [v], visited + {v})
  {
    SuccessorsInGraph(g, v);
  }

  /** The walk from ns[i] is ns[i]'s handling followed by the walk from
      ns[i + 1]. */
  lemma ScanUnfold(g: Adjacency, ns: seq<Label>, i: nat, vis: set<Label>)
    requires Closed(g) && i < |ns|
    requires forall j :: 0 <= j < |ns| ==> ns[j] in g
    ensures DfsScan(g, ns, i, vis)
         == (DfsEnter(g, ns[i], vis).0 + DfsScan(g, ns, i + 1, DfsEnter(g, ns[i], vis).1).0,
             DfsScan(g, ns, i + 1, DfsEnter(g, ns[i], vis).1).1)
  {
    if ns[i] in vis {
      var r := DfsScan(g, ns, i + 1, vis);
      assert [] + r.0 == r.0;
    }
  }

  /** Handling ns[i] (a nested activation when it is not yet visited)
      moves the walk on by one target. */
  lemma ScanAdvance(g: Adjacency, v: Label, visited: set<Label>, ns: seq<Label>, i: nat,
                    trace: seq<Label>, vis: set<Label>)
    requires ScanState(g, v, visited, ns, i, trace, vis) && i < |ns|
    ensures ns[i] in g
    ensures ScanState(g, v, visited, ns, i + 1, trace + DfsEnter(g, ns[i], vis).0, DfsEnter(g, ns[i], vis).1)
  {
    var e := DfsEnter(g, ns[i], vis);
    var r := DfsScan(g, ns, i + 1, e.1);
    ScanUnfold(g, ns, i, vis);
    assert trace + (e.0 + r.0) == (trace + e.0) + r.0;
  }

  /** Visiting v has left fewer labels to visit than there were before. */
  lemma ScanShrinks(g: Adjacency, v: Label, visited: set<Label>, ns: seq<Label>, i: nat,
                    trace: seq<Label>, vis: set<Label>)
    requires ScanState(g, v, visited, ns, i, trace, vis)
    ensures |g.Keys - vis| < |g.Keys - visited|
  {
    assert v in g.Keys - visited && v !in g.Keys - vis;
    SubsetCardinality(g.Keys - vis, g.Keys - visited);
  }

  /** Past the last target the activation is complete. */
  lemma ScanFinish(g: Adjacency, v: Label, visited: set<Label>, ns: seq<Label>, trace: seq<Label>, vis: set<Label>)
    requires ScanState(g, v, visited, ns, |ns|, trace, vis)
    ensures DfsVisit(g, v, visited) == (trace, vis)
  {
    assert trace + [] == trace;
  }

  /** The visited set grows by exactly the labels visited, each of them a
      vertex that was not visited before. */
  lemma {:induction false} DfsVisitShape(g: Adjacency, v: Label, visited: set<Label>)
    requires Closed(g) && v in g && v !in visited
    ensures var (t, vis) := DfsVisit(g, v, visited);
      && (forall x :: x in t ==> x in g && x !in visited)
      && vis == visited + Elems(t)
    decreases |g.Keys - visited|, 0
  {
    var ns := Successors(g, v);
    SuccessorsInGraph(g, v);
    SubsetCardinality(g.Keys - (visited + {v}), g.Keys - visited);
    DfsScanShape(g, ns, 0, visited + {v});
    var (u, vis) := DfsScan(g, ns, 0, visited + {v});
    assert DfsVisit(g, v, visited) == ([v] + u, vis);
    assert Elems([v] + u) == {v} + Elems(u);
  }

  lemma {:induction false} DfsScanShape(g: Adjacency, ns: seq<Label>, i: nat, visited: set<Label>)
    requires Closed(g) && i <= |ns|
    requires forall j :: 0 <= j < |ns| ==> ns[j] in g
    ensures var (u, vis) := DfsScan(g, ns, i, visited);
      && (forall x :: x in u ==> x in g && x !in visited)
      && vis == visited + Elems(u)
    decreases |g.Keys - visited|, |ns| - i + 1
  {
    if i < |ns| {
      if ns[i] in visited {
        DfsScanShape(g, ns, i + 1, visited);
      } else {
        var (t, vis) := DfsVisit(g, ns[i], visited);
        SubsetCardinality(g.Keys - vis, g.Keys - visited);
        DfsVisitShape(g, ns[i], visited);
        DfsScanShape(g, ns, i + 1, vis);
      }
    }
  }

  /** No label is visited twice. */
  lemma {:induction false} DfsVisitDistinct(g: Adjacency, v: Label, visited: set<Label>)
    requires Closed(g) && v in g && v !in visited
    ensures Distinct(DfsVisit(g, v, visited).0)
    decreases |g.Keys - visited|, 0
  {
    var ns := Successors(g, v);
    SuccessorsInGraph(g, v);
    SubsetCardinality(g.Keys - (visited + {v}), g.Keys - visited);
    DfsScanDistinct(g, ns, 0, visited + {v});
    DfsScanShape(g, ns, 0, visited + {v});
    var u := DfsScan(g, ns, 0, visited + {v}).0;
    DistinctConcat([v], u);
    assert DfsVisit(g, v, visited).0 == [v] + u;
  }

  lemma {:induction false} DfsScanDistinct(g: Adjacency, ns: seq<Label>, i: nat, visited: set<Label>)
    requires Closed(g) && i <= |ns|
    requires forall j :: 0 <= j < |ns| ==> ns[j] in g
    ensures Distinct(DfsScan(g, ns, i, visited).0)
    decreases |g.Keys - visited|, |ns| - i + 1
  {
    if i < |ns| {
      if ns[i] in visited {
        DfsScanDistinct(g, ns, i + 1, visited);
      } else {
        var (t, vis) := DfsVisit(g, ns[i], visited);
        SubsetCardinality(g.Keys - vis, g.Keys - visited);
        DfsVisitDistinct(g, ns[i], visited);
        DfsVisitShape(g, ns[i], visited);
        DfsScanDistinct(g, ns, i + 1, vis);
        DfsScanShape(g, ns, i + 1, vis);
        DistinctConcat(t, DfsScan(g, ns, i + 1, vis).0);
      }
    }
  }

  /** Every target of a label the activation visited ends up visited. */
  lemma {:induction false} DfsVisitCloses(g: Adjacency, v: Label, visited: set<Label>)
    requires Closed(g) && v in g && v !in visited
    ensures forall x :: x in DfsVisit(g, v, visited).0 ==> TargetsIn(g, x, DfsVisit(g, v, visited).1)
    decreases |g.Keys - visited|, 0
  {
    var ns := Successors(g, v);
    SuccessorsInGraph(g, v);
    SubsetCardinality(g.Keys - (visited + {v}), g.Keys - visited);
    DfsScanCloses(g, ns, 0, visited + {v});
    var r := DfsScan(g, ns, 0, visited + {v});
    assert DfsVisit(g, v, visited) == ([v] + r.0, r.1);
    forall y | y in g[v] ensures y in r.1 {
      var j :| 0 <= j < |ns| && ns[j] == y;
    }
    assert TargetsIn(g, v, r.1);
  }

  lemma {:induction false} DfsScanCloses(g: Adjacency, ns: seq<Label>, i: nat, visited: set<Label>)
    requires Closed(g) && i <= |ns|
    requires forall j :: 0 <= j < |ns| ==> ns[j] in g
    ensures var r := DfsScan(g, ns, i, visited);
      && (forall x :: x in r.0 ==> TargetsIn(g, x, r.1))
      && (forall j :: i <= j < |ns| ==> ns[j] in r.1)
    decreases |g.Keys - visited|, |ns| - i + 1
  {
    if i < |ns| {
      if ns[i] in visited {
        DfsScanCloses(g, ns, i + 1, visited);
      } else {
        var w := ns[i];
        var a := DfsVisit(g, w, visited);
        SubsetCardinality(g.Keys - a.1, g.Keys - visited);
        DfsVisitCloses(g, w, visited);
        DfsScanCloses(g, ns, i + 1, a.1);
        var b := DfsScan(g, ns, i + 1, a.1);
        assert DfsScan(g, ns, i, visited) == (a.0 + b.0, b.1);
        forall x | x in a.0 + b.0 ensures TargetsIn(g, x, b.1) {
          if x in a.0 {
            assert TargetsIn(g, x, a.1);
          }
        }
      }
    }
  }

  /** Every label visited from a vertex reachable from `root` is reachable
      from `root`. */
  lemma {:induction false} DfsVisitReaches(g: Adjacency, root: Label, v: Label, visited: set<Label>)
    requires Closed(g) && v in g && v !in visited && Reachable(g, root, v)
    ensures forall x :: x in DfsVisit(g, v, visited).0 ==> Reachable(g, root, x)
    decreases |g.Keys - visited|, 0
  {
    var ns := Successors(g, v);
    SuccessorsInGraph(g, v);
    SubsetCardinality(g.Keys - (visited + {v}), g.Keys - visited);
    forall j | 0 <= j < |ns| ensures Reachable(g, root, ns[j]) {
      ReachableStep(g, root, v, ns[j]);
    }
    DfsScanReaches(g, root, ns, 0, visited + {v});
    var (u, vis) := DfsScan(g, ns, 0, visited + {v});
    assert DfsVisit(g, v, visited).0 == [v] + u;
  }

  lemma {:induction false} DfsScanReaches(g: Adjacency, root: Label, ns: seq<Label>, i: nat, visited: set<Label>)
    requires Closed(g) && i <= |ns|
    requires forall j :: 0 <= j < |ns| ==> ns[j] in g
    requires forall j :: i <= j < |ns| ==> Reachable(g, root, ns[j])
    ensures forall x :: x in DfsScan(g, ns, i, visited).0 ==> Reachable(g, root, x)
    decreases |g.Keys - visited|, |ns| - i + 1
  {
    if i < |ns| {
      if ns[i] in visited {
        DfsScanReaches(g, root, ns, i + 1, visited);
      } else {
        var (t, vis) := DfsVisit(g, ns[i], visited);
        SubsetCardinality(g.Keys - vis, g.Keys - visited);
        DfsVisitReaches(g, root, ns[i], visited);
        DfsScanReaches(g, root, ns, i + 1, vis);
      }
    }
  }

  /** A depth-first traversal from s, started with nothing visited, calls
      the visitor on s first, never twice on one label, and on exactly the
      labels reachable from s. */
  lemma DepthFirstTrace(g: Adjacency, s: Label)
    requires Closed(g) && s in g
    ensures var t := DfsVisit(g, s, {}).0;
      && |t| > 0 && t[0] == s
      && Distinct(t)
      && forall x :: x in t <==> Reachable(g, s, x)
  {
    var (t, vis) := DfsVisit(g, s, {});
    var ns := Successors(g, s);
    SuccessorsInGraph(g, s);
    var u := DfsScan(g, ns, 0, {s}).0;
    assert t == [s] + u;
    DfsVisitShape(g, s, {});
    DfsVisitDistinct(g, s, {});
    DfsVisitCloses(g, s, {});
    ReachableFromItself(g, s);
    DfsVisitReaches(g, s, s, {});
    forall x | Reachable(g, s, x) ensures x in t {
      forall v, y | v in vis && v in g && y in g[v] ensures y in vis {
        assert TargetsIn(g, v, vis);
      }
      ClosedSetHoldsReachable(g, vis, s, x);
    }
  }
}
