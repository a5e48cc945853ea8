/** Breadth-first traversal as a function of the graph value. Every label is
    enqueued at the moment it is visited, so the FIFO queue of
    breadthFirstTraversalHelper is always the tail trace[h..] of the trace,
    h being the number of dequeued vertices. BfsScan is the walk over the
    targets of the dequeued vertex: it returns, in ascending order, the
    targets not yet visited, each once. */
module BreadthFirst {
  import opened Edges
  import opened OrderedKeys
  import opened Digraphs

  function BfsScan(g: Adjacency, ns: seq<Label>, i: nat, visited: set<Label>): (u: seq<Label>)
    requires i <= |ns|
    ensures Distinct(u)
    ensures forall x :: x in u ==> x !in visited && exists j :: i <= j < |ns| && ns[j] == x
    decreases |ns| - i
  {
    if i == |ns| then []
    else if ns[i] in visited then BfsScan(g, ns, i + 1, visited)
    else
      var rest := BfsScan(g, ns, i + 1, visited + {ns[i]});
      assert forall x :: x in rest ==> x != ns[i];
      [ns[i]] + rest
  }

  /** Runs the traversal to the end from the state (trace, h). The run only
      appends: what is already visited keeps its place, and every label
      added is a vertex. */
  function Bfs(g: Adjacency, trace: seq<Label>, h: nat): (r: seq<Label>)
    requires Closed(g) && h <= |trace|
    requires forall j :: 0 <= j < |trace| ==> trace[j] in g
    ensures trace <= r
    ensures forall j :: 0 <= j < |r| ==> r[j] in g
    decreases |g.Keys - Elems(trace)|, |trace| - h
  {
    if h == |trace| then trace
    else
      var ns := Successors(g, trace[h]);
      var u := BfsScan(g, ns, 0, Elems(trace));
      var next := trace + u;
      SuccessorsInGraph(g, trace[h]);
      GrowsBy(g, trace, u);
      Bfs(g, next, h + 1)
  }

  /** Appending unvisited vertices shrinks the set of unvisited vertices,
      strictly when something is appended. */
  lemma GrowsBy(g: Adjacency, trace: seq<Label>, u: seq<Label>)
    requires forall x :: x in u ==> x in g && x !in trace
    ensures |g.Keys - Elems(trace + u)| <= |g.Keys - Elems(trace)|
    ensures u != [] ==> |g.Keys - Elems(trace + u)| < |g.Keys - Elems(trace)|
  {
    assert Elems(trace) <= Elems(trace + u);
    if u != [] {
      var x := u[0];
      assert x in g.Keys - Elems(trace) && x !in g.Keys - Elems(trace + u);
    }
    SubsetCardinality(g.Keys - Elems(trace + u), g.Keys - Elems(trace));
  }

  /** The walk of breadthFirstTraversalHelper over the targets of the
      dequeued vertex trace0[h0]: i targets read, the trace grown from
      trace0 by those read that were unvisited, and what the rest of the
      walk appends still to come. */
  ghost predicate QueueScan(g: Adjacency, trace0: seq<Label>, h0: nat, ns: seq<Label>, i: nat, trace: seq<Label>)
  {
    && Closed(g) && h0 < |trace0| && i <= |ns|
    && (forall j :: 0 <= j < |trace0| ==> trace0[j] in g)
    && ns == Successors(g, trace0[h0])
    && (forall j :: 0 <= j < |ns| ==> ns[j] in g)
    && (forall j :: 0 <= j < |trace| ==> trace[j] in g)
    && trace0 + BfsScan(g, ns, 0, Elems(trace0)) == trace + BfsScan(g, ns, i, Elems(trace))
  }

  lemma QueueScanStart(g: Adjacency, trace0: seq<Label>, h0: nat)
    requires Closed(g) && h0 < |trace0| && forall j :: 0 <= j < |trace0| ==> trace0[j] in g
    ensures QueueScan(g, trace0, h0, Successors(g, trace0[h0]), 0, trace0)
  {
    SuccessorsInGraph(g, trace0[h0]);
  }

  /** Reading target i appends it when it is not yet in the trace. */
  lemma QueueScanAdvance(g: Adjacency, trace0: seq<Label>, h0: nat, ns: seq<Label>, i: nat, trace: seq<Label>)
    requires QueueScan(g, trace0, h0, ns, i, trace) && i < |ns|
    ensures ns[i] in g
    ensures QueueScan(g, trace0, h0, ns, i + 1, if ns[i] in trace then trace else trace + [ns[i]])
  {
    if ns[i] in trace {
      QueueScanSkip(g, trace0, h0, ns, i, trace);
    } else {
      QueueScanAppend(g, trace0, h0, ns, i, trace);
    }
  }

  lemma QueueScanSkip(g: Adjacency, trace0: seq<Label>, h0: nat, ns: seq<Label>, i: nat, trace: seq<Label>)
    requires QueueScan(g, trace0, h0, ns, i, trace) && i < |ns| && ns[i] in trace
    ensures QueueScan(g, trace0, h0, ns, i + 1, trace)
  {
    BfsScanUnfold(g, ns, i, Elems(trace));
  }

  lemma QueueScanAppend(g: Adjacency, trace0: seq<Label>, h0: nat, ns: seq<Label>, i: nat, trace: seq<Label>)
    requires QueueScan(g, trace0, h0, ns, i, trace) && i < |ns| && ns[i] !in trace
    ensures QueueScan(g, trace0, h0, ns, i + 1, trace + [ns[i]])
  {
    var x := ns[i];
    var whole := trace0 + BfsScan(g, ns, 0, Elems(trace0));
    var rest := BfsScan(g, ns, i + 1, Elems(trace) + {x});
    ElemsAppend(trace, x);
    BfsScanUnfold(g, ns, i, Elems(trace));
    Regroup(whole, trace, x, rest);
    AllInAppend(g, trace, x);
  }

  /** Moves x from the rest onto the trace. Stated apart so that the
      sequence equality stays out of QueueScanAppend's context. */
  lemma Regroup(whole: seq<Label>, trace: seq<Label>, x: Label, rest: seq<Label>)
    requires whole == trace + ([x] + rest)
    ensures whole == (trace + [x]) + rest
  {
  }

  /** Appending x adds exactly x to the elements. */
  lemma ElemsAppend(trace: seq<Label>, x: Label)
    ensures Elems(trace + [x]) == Elems(trace) + {x}
  {
  }

  /** Appending a vertex to a sequence of vertices gives a sequence of
      vertices. */
  lemma AllInAppend(g: Adjacency, trace: seq<Label>, x: Label)
    requires x in g && forall j :: 0 <= j < |trace| ==> trace[j] in g
    ensures forall j :: 0 <= j < |trace + [x]| ==> (trace + [x])[j] in g
  {
  }

  /** One step of BfsScan. */
  lemma BfsScanUnfold(g: Adjacency, ns: seq<Label>, i: nat, vis: set<Label>)
    requires i < |ns|
    ensures ns[i] in vis ==> BfsScan(g, ns, i, vis) == BfsScan(g, ns, i + 1, vis)
    ensures ns[i] !in vis ==> BfsScan(g, ns, i, vis) == [ns[i]] + BfsScan(g, ns, i + 1, vis + {ns[i]})
  {
  }

  /** trace is what one dequeue step of Bfs makes of (trace0, h0): the
      rest of the traversal is unchanged, and the trace has grown only by
      unvisited labels. */
  ghost predicate Dequeued(g: Adjacency, trace0: seq<Label>, h0: nat, trace: seq<Label>)
  {
    && Closed(g) && h0 < |trace0| && h0 + 1 <= |trace|
    && (forall j :: 0 <= j < |trace0| ==> trace0[j] in g)
    && (forall j :: 0 <= j < |trace| ==> trace[j] in g)
    && Bfs(g, trace0, h0) == Bfs(g, trace, h0 + 1)
    && (trace == trace0 || |g.Keys - Elems(trace)| < |g.Keys - Elems(trace0)|)
  }

  /** Once the walk has read every target, the trace is the one a dequeue
      step of Bfs produces. */
  lemma QueueScanFinish(g: Adjacency, trace0: seq<Label>, h0: nat, ns: seq<Label>, trace: seq<Label>)
    requires QueueScan(g, trace0, h0, ns, |ns|, trace)
    ensures Dequeued(g, trace0, h0, trace)
  {
    var u := BfsScan(g, ns, 0, Elems(trace0));
    assert trace + [] == trace;
    forall x | x in u ensures x in g && x !in trace0 {
      var j :| 0 <= j < |ns| && ns[j] == x;
    }
    GrowsBy(g, trace0, u);
    if u == [] {
      assert trace0 + u == trace0;
    }
  }

  /** The outer loop of breadthFirstTraversalHelper from s: h vertices
      dequeued, and what is left of the traversal is what Bfs from [s]
      still has to do. */
  ghost predicate Pending(g: Adjacency, s: Label, trace: seq<Label>, h: nat)
  {
    && Closed(g) && s in g && h <= |trace|
    && (forall j :: 0 <= j < |trace| ==> trace[j] in g)
    && Bfs(g, [s], 0) == Bfs(g, trace, h)
  }

  lemma PendingStart(g: Adjacency, s: Label)
    requires Closed(g) && s in g
    ensures Pending(g, s, [s], 0)
  {
  }

  /** A dequeue step keeps Pending and makes progress: fewer unvisited
      labels, or as many and one fewer queued. */
  lemma PendingStep(g: Adjacency, s: Label, trace0: seq<Label>, h: nat, trace: seq<Label>)
    requires Pending(g, s, trace0, h) && Dequeued(g, trace0, h, trace)
    ensures Pending(g, s, trace, h + 1)
    ensures |g.Keys - Elems(trace)| < |g.Keys - Elems(trace0)|
            || (|g.Keys - Elems(trace)| == |g.Keys - Elems(trace0)| && |trace| - (h + 1) < |trace0| - h)
  {
  }

  /** With nothing left to dequeue the trace is the whole traversal. */
  lemma PendingDone(g: Adjacency, s: Label, trace: seq<Label>)
    requires Pending(g, s, trace, |trace|)
    ensures trace == Bfs(g, [s], 0)
  {
  }

  /** Every label from position i on is visited once the scan is done. */
  lemma {:induction false} BfsScanCovers(g: Adjacency, ns: seq<Label>, i: nat, visited: set<Label>)
    requires i <= |ns|
    ensures forall j :: i <= j < |ns| ==> ns[j] in visited || ns[j] in BfsScan(g, ns, i, visited)
    decreases |ns| - i
  {
    if i < |ns| {
      if ns[i] in visited {
        BfsScanCovers(g, ns, i + 1, visited);
      } else {
        BfsScanCovers(g, ns, i + 1, visited + {ns[i]});
      }
    }
  }

  /** The invariant of the traversal from s after h dequeues: the trace
      starts at s, holds reachable vertices of g without repeats, and every
      dequeued vertex has all its targets in the trace. */
  ghost predicate BfsState(g: Adjacency, s: Label, trace: seq<Label>, h: nat)
  {
    && Closed(g) && h <= |trace| && 0 < |trace| && trace[0] == s
    && (forall j :: 0 <= j < |trace| ==> trace[j] in g && Reachable(g, s, trace[j]))
    && Distinct(trace)
    && (forall j :: 0 <= j < h ==> TargetsIn(g, trace[j], Elems(trace)))
  }

  /** Along the trace the hop distance from s never decreases, and the last
      vertex is at most one hop further than the next one to dequeue. */
  ghost predicate Layered(g: Adjacency, s: Label, trace: seq<Label>, h: nat)
    requires BfsState(g, s, trace, h)
  {
    && (forall a, b :: 0 <= a <= b < |trace| ==> Dist(g, s, trace[a]) <= Dist(g, s, trace[b]))
    && (h < |trace| ==> Dist(g, s, trace[|trace| - 1]) <= Dist(g, s, trace[h]) + 1)
  }

  /** One dequeue keeps the invariant. */
  lemma BfsStep(g: Adjacency, s: Label, trace: seq<Label>, h: nat)
    requires BfsState(g, s, trace, h) && h < |trace|
    ensures BfsState(g, s, trace + BfsScan(g, Successors(g, trace[h]), 0, Elems(trace)), h + 1)
  {
    var x := trace[h];
    var ns := Successors(g, x);
    var u := BfsScan(g, ns, 0, Elems(trace));
    var next := trace + u;
    forall y | y in u ensures y in g[x] && y in g && Reachable(g, s, y) {
      var j :| 0 <= j < |ns| && ns[j] == y;
      ReachableStep(g, s, x, y);
    }
    forall j | 0 <= j < |next| ensures next[j] in g && Reachable(g, s, next[j]) {
      if j >= |trace| {
        assert next[j] in u;
      }
    }
    DistinctConcat(trace, u);
    BfsScanCovers(g, ns, 0, Elems(trace));
    forall j | 0 <= j < h + 1 ensures TargetsIn(g, next[j], Elems(next)) {
      if j < h {
        assert TargetsIn(g, trace[j], Elems(trace));
      } else {
        forall y | y in g[x] ensures y in Elems(next) {
          var k := IndexOf(ns, y);
          assert ns[k] in Elems(trace) || ns[k] in u;
        }
      }
    }
  }

  /** A vertex no further from s than the next one to dequeue has already
      been visited. */
  lemma {:induction false} NearerIsVisited(g: Adjacency, s: Label, trace: seq<Label>, h: nat, x: Label)
    requires BfsState(g, s, trace, h) && Layered(g, s, trace, h) && h < |trace|
    requires Reachable(g, s, x) && Dist(g, s, x) <= Dist(g, s, trace[h])
    ensures x in trace
    decreases Dist(g, s, x)
  {
    if x == s {
      assert trace[0] == x;
    } else {
      var y := DistPredecessor(g, s, x);
      NearerIsVisited(g, s, trace, h, y);
      var b :| 0 <= b < |trace| && trace[b] == y;
      var dh, db := Dist(g, s, trace[h]), Dist(g, s, trace[b]);
      assert h <= b ==> dh <= db;
      assert TargetsIn(g, trace[b], Elems(trace));
    }
  }

  /** The vertices one dequeue appends are exactly one hop further from s
      than the dequeued one. */
  lemma ScanIsNextLayer(g: Adjacency, s: Label, trace: seq<Label>, h: nat)
    requires BfsState(g, s, trace, h) && Layered(g, s, trace, h) && h < |trace|
    ensures forall y :: y in BfsScan(g, Successors(g, trace[h]), 0, Elems(trace)) ==>
              Reachable(g, s, y) && Dist(g, s, y) == Dist(g, s, trace[h]) + 1
  {
    var x := trace[h];
    var d := Dist(g, s, x);
    var ns := Successors(g, x);
    var u := BfsScan(g, ns, 0, Elems(trace));
    forall y | y in u ensures Reachable(g, s, y) && Dist(g, s, y) == d + 1 {
      var j :| 0 <= j < |ns| && ns[j] == y;
      DistStep(g, s, x, y);
      if Dist(g, s, y) <= d {
        NearerIsVisited(g, s, trace, h, y);
        assert false;
      }
    }
  }

  /** Appending vertices all at distance d + 1 to a trace sorted by
      distance whose last vertex is at most d + 1 away, where d is the
      distance of trace[h], keeps it sorted, and its last vertex stays at
      most one hop further than the one after trace[h]. */
  lemma AppendLayer(g: Adjacency, s: Label, trace: seq<Label>, u: seq<Label>, h: nat, d: int)
    requires forall y :: y in trace + u ==> Reachable(g, s, y)
    requires forall a, b :: 0 <= a <= b < |trace| ==> Dist(g, s, trace[a]) <= Dist(g, s, trace[b])
    requires h < |trace| && Dist(g, s, trace[h]) == d && Dist(g, s, trace[|trace| - 1]) <= d + 1
    requires forall y :: y in u ==> Dist(g, s, y) == d + 1
    ensures forall a, b :: 0 <= a <= b < |trace + u| ==> Dist(g, s, (trace + u)[a]) <= Dist(g, s, (trace + u)[b])
    ensures h + 1 < |trace + u| ==> Dist(g, s, (trace + u)[|trace + u| - 1]) <= Dist(g, s, (trace + u)[h + 1]) + 1
  {
    var next := trace + u;
    var last := |trace| - 1;
    forall a, b | 0 <= a <= b < |next| ensures Dist(g, s, next[a]) <= Dist(g, s, next[b]) {
      if b < |trace| {
        assert next[a] == trace[a] && next[b] == trace[b];
      } else if a < |trace| {
        assert next[b] in u;
        assert next[a] == trace[a];
        assert Dist(g, s, trace[a]) <= Dist(g, s, trace[last]);
      } else {
        assert next[a] in u && next[b] in u;
      }
    }
    if h + 1 < |next| {
      assert next[h] == trace[h];
      assert Dist(g, s, next[h]) <= Dist(g, s, next[h + 1]);
      if u != [] {
        assert next[|next| - 1] in u;
      } else {
        assert next[|next| - 1] == trace[last];
      }
    }
  }

  /** One dequeue keeps the layering: the vertices it appends are exactly
      one hop further than the dequeued one. */
  lemma BfsLayerStep(g: Adjacency, s: Label, trace: seq<Label>, h: nat)
    requires BfsState(g, s, trace, h) && Layered(g, s, trace, h) && h < |trace|
    ensures BfsState(g, s, trace + BfsScan(g, Successors(g, trace[h]), 0, Elems(trace)), h + 1)
    ensures Layered(g, s, trace + BfsScan(g, Successors(g, trace[h]), 0, Elems(trace)), h + 1)
  {
    BfsStep(g, s, trace, h);
    ScanIsNextLayer(g, s, trace, h);
    var x := trace[h];
    var u := BfsScan(g, Successors(g, x), 0, Elems(trace));
    AppendLayer(g, s, trace, u, h, Dist(g, s, x));
  }

  /** Running the traversal to the end from a state that keeps the
      invariant ends in a state that keeps it with nothing left to dequeue. */
  lemma {:induction false} BfsRun(g: Adjacency, s: Label, trace: seq<Label>, h: nat)
    requires BfsState(g, s, trace, h) && Layered(g, s, trace, h)
    ensures BfsState(g, s, Bfs(g, trace, h), |Bfs(g, trace, h)|)
    ensures Layered(g, s, Bfs(g, trace, h), |Bfs(g, trace, h)|)
    decreases |g.Keys - Elems(trace)|, |trace| - h
  {
    if h < |trace| {
      var u := BfsScan(g, Successors(g, trace[h]), 0, Elems(trace));
      BfsLayerStep(g, s, trace, h);
      SuccessorsInGraph(g, trace[h]);
      GrowsBy(g, trace, u);
      assert Bfs(g, trace, h) == Bfs(g, trace + u, h + 1);
      BfsRun(g, s, trace + u, h + 1);
    }
  }

  /** The breadth-first trace from s starts at s, visits every vertex
      reachable from s exactly once and nothing else, and visits them in
      order of hop distance from s. */
  lemma BreadthFirstTrace(g: Adjacency, s: Label)
    requires Closed(g) && s in g
    ensures |Bfs(g, [s], 0)| > 0 && Bfs(g, [s], 0)[0] == s
    ensures Distinct(Bfs(g, [s], 0))
    ensures forall x :: x in Bfs(g, [s], 0) <==> Reachable(g, s, x)
    ensures forall a, b :: 0 <= a <= b < |Bfs(g, [s], 0)| ==>
              Dist(g, s, Bfs(g, [s], 0)[a]) <= Dist(g, s, Bfs(g, [s], 0)[b])
  {
    ReachableFromItself(g, s);
    BfsRun(g, s, [s], 0);
    var t := Bfs(g, [s], 0);
    var S := Elems(t);
    forall v, y | v in S && v in g && y in g[v] ensures y in S {
      var j :| 0 <= j < |t| && t[j] == v;
      assert TargetsIn(g, t[j], S);
    }
    forall x | Reachable(g, s, x) ensures x in t {
      ClosedSetHoldsReachable(g, S, s, x);
    }
  }
}
