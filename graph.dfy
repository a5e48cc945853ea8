/** The graph: a map from label to vertex object (std::map<string, Vertex*>)
    with a vertex counter and an edge counter. */
module Graphs {
  import opened Edges
  import opened OrderedKeys
  import opened Vertices
  import opened Digraphs
  import opened Insertion
  import opened DepthFirst
  import opened BreadthFirst
  import opened Relaxation

  class Graph {
    var vertices: map<Label, Vertex>
    var numberOfVertices: int
    /** Set to 0 by the constructor and never changed afterwards. */
    var numberOfEdges: int

    /** The graph as a value: each label's outgoing edges. */
    ghost var adj: Adjacency

    /** The labels whose vertices carry the visited flag. */
    ghost function Visited(): set<Label>
      reads this, vertices.Values`visited
    {
      set l | l in vertices && vertices[l].visited
    }

    /** Each vertex is stored under its own label, keeps its edge invariant
        and holds the edges adj records for it, and the vertex counter is
        the size of the map. */
    ghost predicate Stored()
      reads this, vertices.Values`adjacency
    {
      && adj.Keys == vertices.Keys
      && (forall l :: l in vertices ==> vertices[l].Holds(l, adj[l]))
      && numberOfVertices == |vertices|
      && numberOfEdges == 0
    }

    /** Stored, and no edge dangles. */
    ghost predicate Valid()
      reads this, vertices.Values`adjacency
    {
      Stored() && Closed(adj)
    }

    /** The part of Valid that does not read any vertex: adj has a vertex
        per label, is well formed, and each vertex carries its key as its
        label. Flags and counters do not affect it. */
    ghost predicate Shaped()
      reads this
    {
      && adj.Keys == vertices.Keys
      && WellFormed(adj)
      && (forall l :: l in vertices ==> vertices[l].vertexLabel == l)
    }

    lemma ValidIsShaped()
      requires Valid()
      ensures Shaped()
      ensures Mirrored()
    {
      forall v, t | v in adj && t in adj[v] ensures adj[v][t].endVertex == t && v != t {
        assert vertices[v].Holds(v, adj[v]);
      }
    }

    /** An empty graph. */
    constructor ()
      ensures Valid() && vertices == map[]
    {
      vertices := map[];
      adj := map[];
      numberOfVertices := 0;
      numberOfEdges := 0;
    }

    /** The vertex counter is the number of vertices. */
    function GetNumVertices(): (n: int)
      reads this, vertices.Values`adjacency
      requires Valid()
      ensures n == |vertices| == |adj.Keys|
    {
      assert adj.Keys == vertices.Keys;
      numberOfVertices
    }

    /** The edge counter is never incremented, so it reports 0 whatever
        edges the graph holds. */
    function GetNumEdges(): (n: int)
      reads this, vertices.Values`adjacency
      requires Valid()
      ensures n == 0
    {
      numberOfEdges
    }

    /** Adds the edge start -> end, creating missing endpoints first.
        Fails, changing nothing, only when start exists and end == start.
        Every stored vertex stays stored, as the same object, so its flag
        and counter are untouched; a created vertex is a new object. */
    method Add(start: Label, end: Label, edgeWeight: int) returns (ok: bool)
      requires Valid()
      modifies this, vertices.Values`adjacency
      ensures Valid()
      ensures ok == !(start in old(vertices) && end == start)
      ensures adj == Inserted(old(adj), start, end, edgeWeight)
      ensures Kept(old(vertices), vertices)
      ensures start !in old(vertices) ==> fresh(vertices[start])
      ensures end !in old(vertices) ==> fresh(vertices[end])
    {
      if start in vertices {
        ok := AddFromKnown(start, end, edgeWeight);
      } else {
        AddFromNew(start, end, edgeWeight);
        ok := true;
      }
    }

    /** add when start already has a vertex: connect, and on success make
        sure end has one and connect again (a no-op the second time). */
    method AddFromKnown(start: Label, end: Label, edgeWeight: int) returns (ok: bool)
      requires Valid() && start in vertices
      modifies this, vertices.Values`adjacency
      ensures Valid()
      ensures ok == (end != start)
      ensures adj == Inserted(old(adj), start, end, edgeWeight)
      ensures Kept(old(vertices), vertices)
      ensures end !in old(vertices) ==> fresh(vertices[end])
    {
      ghost var g0 := adj;
      ok := ConnectAt(vertices[start], start, end, edgeWeight);
      if !ok {
        assert adj == g0 == Inserted(g0, start, end, edgeWeight);
        return;
      }
      ghost var g1 := adj;
      EnsureVertex(end);
      ghost var g2 := adj;
      var again := ConnectAt(vertices[start], start, end, edgeWeight);
      InsertedInCodeOrder(g0, start, end, edgeWeight, g1, g2, g2);
      InsertedClosed(g0, start, end, edgeWeight);
    }

    /** add when start has no vertex yet: create end's vertex if missing,
        then start's, then connect. */
    method AddFromNew(start: Label, end: Label, edgeWeight: int)
      requires Valid() && start !in vertices
      modifies this, vertices.Values`adjacency
      ensures Valid()
      ensures adj == Inserted(old(adj), start, end, edgeWeight)
      ensures Kept(old(vertices), vertices)
      ensures fresh(vertices[start])
      ensures end !in old(vertices) ==> fresh(vertices[end])
    {
      ghost var g0, m0 := adj, vertices;
      EnsureVertex(end);
      ghost var g2, m2 := adj, vertices;
      EnsureVertex(start);
      ghost var g3, m3 := adj, vertices;
      var again := ConnectAt(vertices[start], start, end, edgeWeight);
      InsertedInCodeOrder(g0, start, end, edgeWeight, g0, g2, g3);
      InsertedClosed(g0, start, end, edgeWeight);
      KeptAlong(m0, m2, m3);
    }

    /** Vertex::connect on the vertex stored under start: the edge to end
        is stored unless it is a self-loop or already there. */
    method ConnectAt(v: Vertex, start: Label, end: Label, edgeWeight: int) returns (ok: bool)
      requires Stored() && start in vertices && v == vertices[start]
      modifies this`adj, v`adjacency
      ensures Stored() && vertices == old(vertices)
      ensures ok == (end != start)
      ensures adj == old(adj)[start := Link(old(adj)[start], start, end, edgeWeight)]
    {
      ok := v.Connect(end, edgeWeight);
      adj := adj[start := v.adjacency];
    }

    /** Every vertex stored in m0 is stored in m1 too, under the same
        label and as the same object. */
    ghost predicate Kept(m0: map<Label, Vertex>, m1: map<Label, Vertex>)
    {
      forall l :: l in m0 ==> l in m1 && m1[l] == m0[l]
    }

    /** Kept is transitive. */
    lemma KeptAlong(m0: map<Label, Vertex>, m1: map<Label, Vertex>, m2: map<Label, Vertex>)
      requires Kept(m0, m1) && Kept(m1, m2)
      ensures Kept(m0, m2)
    {
    }

    /** The guarded insertNewVertex call of add: stores a new vertex for
        vertexLabel unless it already has one. */
    method EnsureVertex(vertexLabel: Label)
      requires Stored()
      modifies this
      ensures Stored()
      ensures vertices.Keys == old(vertices.Keys) + {vertexLabel}
      ensures Kept(old(vertices), vertices)
      ensures vertexLabel !in old(vertices) ==> fresh(vertices[vertexLabel])
      ensures adj == if vertexLabel in old(adj) then old(adj) else old(adj)[vertexLabel := map[]]
    {
      if vertexLabel !in vertices {
        InsertNewVertex(vertexLabel);
      }
    }

    /** Creates a vertex for a label that has none and stores it, counting
        it. */
    method InsertNewVertex(vertexLabel: Label)
      requires Stored() && vertexLabel !in vertices
      modifies this
      ensures Stored()
      ensures vertices.Keys == old(vertices.Keys) + {vertexLabel}
      ensures Kept(old(vertices), vertices)
      ensures fresh(vertices[vertexLabel])
      ensures adj == old(adj)[vertexLabel := map[]]
    {
      var temp := new Vertex(vertexLabel);
      vertices := vertices[vertexLabel := temp];
      adj := adj[vertexLabel := map[]];
      numberOfVertices := numberOfVertices + 1;
    }

    /** The weight of the edge start -> end, or -1 when there is none. The
        start vertex is looked up without a check, so it must exist. */
    function GetEdgeWeight(start: Label, end: Label): (w: int)
      reads this, vertices.Values`adjacency
      requires Valid() && start in vertices
      ensures end in adj[start] ==> w == adj[start][end].weight
      ensures end !in adj[start] ==> w == -1
    {
      vertices[start].GetEdgeWeight(end)
    }

    /** The vertex stored under vertexLabel, or null. */
    function FindVertex(vertexLabel: Label): (v: Vertex?)
      reads this, vertices.Values`adjacency
      requires Valid()
      ensures v != null <==> vertexLabel in vertices
      ensures v != null ==> v == vertices[vertexLabel] && v.vertexLabel == vertexLabel
    {
      if vertexLabel in vertices then vertices[vertexLabel] else null
    }

    /** The vertex stored under vertexLabel or, when there is none, a new
        vertex that is NOT added to the map. */
    method FindOrCreateVertex(vertexLabel: Label) returns (v: Vertex)
      ensures vertexLabel in vertices ==> v == vertices[vertexLabel]
      ensures vertexLabel !in vertices ==>
                fresh(v) && v.vertexLabel == vertexLabel && v.adjacency == map[]
    {
      if vertexLabel in vertices {
        return vertices[vertexLabel];
      }
      v := new Vertex(vertexLabel);
    }

    /** Clears every visited flag and restarts every neighbour enumeration,
        walking the vertices in label order (the least label not yet done
        comes next). */
    method UnvisitVertices()
      requires Valid()
      modifies vertices.Values
      ensures Valid()
      ensures Visited() == {}
      ensures forall l :: l in vertices ==> !vertices[l].visited && vertices[l].iterations == 0
    {
      var rest := vertices.Keys;
      while rest != {}
        invariant rest <= vertices.Keys
        invariant forall l :: l in vertices ==> vertices[l].adjacency == old(vertices[l].adjacency)
        invariant forall l :: l in vertices && l !in rest ==> !vertices[l].visited && vertices[l].iterations == 0
        decreases rest
      {
        var l := Least(rest);
        var v := vertices[l];
        v.Unvisit();
        v.SetIterations();
        rest := rest - {l};
      }
      NoneVisited();
    }

    /** Every neighbour counter is 0, except possibly those of the labels
        in kept. */
    ghost predicate Rested(kept: set<Label>)
      reads this, vertices.Values`iterations
    {
      forall l :: l in vertices && l !in kept ==> vertices[l].iterations == 0
    }

    /** Every vertex not yet visited has its neighbour counter at 0, so its
        first getNextNeighbor call yields its first target. */
    ghost predicate Rewound()
      reads this, vertices.Values`visited, vertices.Values`iterations
    {
      forall l :: l in vertices && !vertices[l].visited ==> vertices[l].iterations == 0
    }

    /** depthFirstTraversalHelper: visits v, then asks v for its targets one
        by one until it hands back its own label, descending into each
        target not yet visited. The labels passed to the visitor, and the
        visited set left behind, are those of DfsVisit; the counters of
        vertices visited before are left as they were, and every other
        counter ends at 0, since each loop stops at the end mark. */
    method DepthFirstTraversalHelper(v: Vertex, ghost visited: set<Label>) returns (trace: seq<Label>)
      requires Shaped() && Mirrored()
      requires v.vertexLabel in vertices && vertices[v.vertexLabel] == v
      requires !v.visited && Rewound() && visited == Visited()
      modifies vertices.Values
      ensures Rewound() && Mirrored()
      ensures trace == DfsVisit(adj, v.vertexLabel, visited).0
      ensures Visited() == DfsVisit(adj, v.vertexLabel, visited).1
      ensures forall l :: l in visited ==> vertices[l].iterations == old(vertices[l].iterations)
      ensures Rested(visited)
      decreases |adj.Keys - visited|, 0
    {
      var lab := v.vertexLabel;
      ghost var V0 := visited;
      MarkVisited(v);
      trace := [lab];
      ghost var ns := v.Targets();
      ScanStart(adj, lab, V0);
      ghost var i := 0;
      ghost var vis := Visited();
      while true
        invariant 0 <= i <= |ns| && v.iterations == i && v.visited && Rewound()
        invariant vis == Visited() && Mirrored()
        invariant forall l :: l in V0 ==> vertices[l].iterations == old(vertices[l].iterations)
        invariant Rested(V0 + {lab})
        invariant ScanState(adj, lab, V0, ns, i, trace, vis)
        decreases |ns| - i
      {
        ScanShrinks(adj, lab, V0, ns, i, trace, vis);
        var done, t := DepthFirstStep(v, ns, i, vis);
        if done {
          break;
        }
        ScanAdvance(adj, lab, V0, ns, i, trace, vis);
        trace := trace + t;
        i := i + 1;
        vis := Visited();
      }
      forall l | l in vertices && l !in V0 ensures vertices[l].iterations == 0 {
        if l == lab {
          assert vertices[l] == v;
        }
      }
      ScanFinish(adj, lab, V0, ns, trace, vis);
    }

    /** One round of the helper's loop at v: getNextNeighbor yields the i-th
        target, or v's own label once the targets are exhausted (done); an
        unvisited target gets a nested activation. */
    method DepthFirstStep(v: Vertex, ghost ns: seq<Label>, ghost i: nat, ghost vis: set<Label>)
        returns (done: bool, t: seq<Label>)
      requires Shaped() && Mirrored()
      requires v.vertexLabel in vertices && vertices[v.vertexLabel] == v
      requires v.visited && Rewound() && vis == Visited()
      requires ns == Successors(adj, v.vertexLabel) && i <= |ns| && v.iterations == i
      modifies vertices.Values
      ensures Rewound() && Mirrored()
      ensures done <==> i == |ns|
      ensures done ==> Visited() == vis && v.iterations == 0
      ensures !done ==> v.iterations == i + 1
      ensures !done ==> t == DfsEnter(adj, ns[i], vis).0 && Visited() == DfsEnter(adj, ns[i], vis).1
      ensures forall l :: l in vis && l != v.vertexLabel ==>
                vertices[l].iterations == old(vertices[l].iterations)
      ensures Rested(vis)
      decreases |adj.Keys - vis|, 2
    {
      var next := AskNext(v, ns, i, vis);
      t := [];
      done := next == v.vertexLabel;
      if !done {
        ghost var lab := v.vertexLabel;
        assert lab in vis && vertices[lab] == v;
        t := DepthFirstEnter(vertices[next], vis);
        assert vertices[lab].iterations == i + 1;
      }
    }

    /** The helper's treatment of one target w: a nested activation when w
        is not yet visited, nothing otherwise. */
    method DepthFirstEnter(w: Vertex, ghost vis: set<Label>) returns (t: seq<Label>)
      requires Shaped() && Mirrored()
      requires w.vertexLabel in vertices && vertices[w.vertexLabel] == w
      requires Rewound() && vis == Visited()
      modifies vertices.Values
      ensures Rewound() && Mirrored()
      ensures t == DfsEnter(adj, w.vertexLabel, vis).0 && Visited() == DfsEnter(adj, w.vertexLabel, vis).1
      ensures forall l :: l in vis ==> vertices[l].iterations == old(vertices[l].iterations)
      ensures Rested(vis)
      decreases |adj.Keys - vis|, 1
    {
      if !w.visited {
        t := DepthFirstTraversalHelper(w, vis);
      } else {
        t := [];
      }
    }

    /** getNextNeighbor on a visited vertex whose counter is i: the i-th
        target, or the vertex's own label once the targets are exhausted;
        only v's counter and iterator move. */
    method AskNext(v: Vertex, ghost ns: seq<Label>, ghost i: nat, ghost vis: set<Label>) returns (next: Label)
      requires Shaped() && Mirrored()
      requires v.vertexLabel in vertices && vertices[v.vertexLabel] == v
      requires v.visited && Rewound() && vis == Visited()
      requires ns == Successors(adj, v.vertexLabel) && i <= |ns| && v.iterations == i
      modifies v`iterations, v`currentNeighbor
      ensures Rewound() && vis == Visited() && Mirrored()
      ensures next == v.vertexLabel <==> i == |ns|
      ensures i < |ns| ==> next == ns[i] && v.iterations == i + 1
      ensures i == |ns| ==> v.iterations == 0
      ensures forall l :: l in vertices && l != v.vertexLabel ==>
                vertices[l].iterations == old(vertices[l].iterations)
    {
      assert v.adjacency == adj[v.vertexLabel];
      next := v.GetNextNeighbor();
      SentinelMarksEnd(ns, v.vertexLabel, i);
      forall l | l in vertices && l != v.vertexLabel
        ensures unchanged(vertices[l])
      {
        assert vertices[l].vertexLabel == l;
      }
      CounterMoved(v);
    }

    /** When only v's counter and iterator have moved, the visited flags,
        the mirrored edges and the rewound state are as before, and so is
        every other counter. */
    twostate lemma CounterMoved(v: Vertex)
      requires unchanged(this) && old(Shaped())
      requires v.vertexLabel in vertices && vertices[v.vertexLabel] == v
      requires forall l :: l in vertices && l != v.vertexLabel ==> unchanged(vertices[l])
      requires unchanged(v`visited, v`adjacency) && v.visited
      requires old(Rewound()) && old(Mirrored())
      ensures Visited() == old(Visited()) && Rewound() && Mirrored()
      ensures forall l :: l in vertices && l != v.vertexLabel ==>
                vertices[l].iterations == old(vertices[l].iterations)
    {
      forall l ensures l in Visited() <==> l in old(Visited()) {
        if l in vertices && l != v.vertexLabel {
          assert unchanged(vertices[l]);
        }
      }
    }

    /** Vertex::visit on a stored vertex adds its label to the visited
        set and touches nothing else. */
    method MarkVisited(v: Vertex)
      requires Shaped() && v.vertexLabel in vertices && vertices[v.vertexLabel] == v
      modifies v`visited
      ensures Visited() == old(Visited()) + {v.vertexLabel}
    {
      ghost var before := Visited();
      v.Visit();
      ghost var after := Visited();
      forall l ensures l in after <==> l in before || l == v.vertexLabel {
        if l in vertices {
          if l != v.vertexLabel {
            assert vertices[l].visited == old(vertices[l].visited);
          }
        }
      }
    }

    /** depthFirstTraversal: clears the flags and counters, then runs the
        helper from start. The visitor sees start first, no label twice,
        and exactly the labels reachable from start; those are the labels
        left visited, and every counter is back at 0. */
    method DepthFirstTraversal(start: Label) returns (trace: seq<Label>)
      requires Valid() && start in vertices
      modifies vertices.Values
      ensures Valid()
      ensures trace == DfsVisit(adj, start, {}).0
      ensures |trace| > 0 && trace[0] == start && Distinct(trace)
      ensures forall x :: x in trace <==> Reachable(adj, start, x)
      ensures Marked(trace) && Rested({})
    {
      UnvisitVertices();
      ValidIsShaped();
      trace := DepthFirstTraversalHelper(vertices[start], {});
      DepthFirstTrace(adj, start);
      DfsVisitShape(adj, start, {});
    }

    /** The FIFO queue holds, in order, the vertices of trace[k..]. */
    ghost predicate Queued(queue: seq<Vertex>, trace: seq<Label>, k: nat)
      reads this
    {
      && k + |queue| == |trace|
      && forall j :: k <= j < |trace| ==> trace[j] in vertices && queue[j - k] == vertices[trace[j]]
    }

    /** Popping the front of the queue leaves the rest of trace[k..]. */
    lemma QueuedPop(queue: seq<Vertex>, trace: seq<Label>, k: nat)
      requires Queued(queue, trace, k) && queue != []
      ensures k < |trace| && trace[k] in vertices && queue[0] == vertices[trace[k]]
      ensures Queued(queue[1..], trace, k + 1)
    {
      forall j | k + 1 <= j < |trace|
        ensures trace[j] in vertices && queue[1..][j - (k + 1)] == vertices[trace[j]]
      {
        assert queue[1..][j - (k + 1)] == queue[j - k];
      }
    }

    /** Every vertex holds the edges adj records for it. */
    ghost predicate Mirrored()
      reads this, vertices.Values`adjacency
    {
      forall l :: l in vertices ==> l in adj && vertices[l].adjacency == adj[l]
    }

    /** The visited flags are set exactly on the labels of trace. */
    ghost predicate Marked(trace: seq<Label>)
      reads this, vertices.Values`visited
    {
      Visited() == Elems(trace)
    }

    /** breadthFirstTraversalHelper: visits and enqueues v, then, until the
        queue is empty, dequeues its front vertex and walks its targets.
        The queue always holds, in order, the vertices of the trace not yet
        dequeued; the labels passed to the visitor are those of Bfs, and
        every counter is back at 0 at the end. */
    method BreadthFirstTraversalHelper(v: Vertex) returns (trace: seq<Label>)
      requires Shaped() && Mirrored()
      requires v.vertexLabel in vertices && vertices[v.vertexLabel] == v
      requires Visited() == {} && Rested({})
      modifies vertices.Values
      ensures Mirrored()
      ensures trace == Bfs(adj, [v.vertexLabel], 0)
      ensures Marked(trace) && Rested({})
    {
      ghost var s := v.vertexLabel;
      var queue;
      trace, queue := BreadthFirstStart(v);
      ghost var h := 0;
      PendingStart(adj, s);
      while queue != []
        invariant Pending(adj, s, trace, h) && Queued(queue, trace, h)
        invariant Marked(trace) && Mirrored()
        invariant Rested({})
        decreases |adj.Keys - Elems(trace)|, |trace| - h
      {
        QueuedPop(queue, trace, h);
        var temp := queue[0];
        queue := queue[1..];
        ghost var trace0 := trace;
        trace, queue := BreadthFirstScan(temp, trace, h, queue);
        PendingStep(adj, s, trace0, h, trace);
        h := h + 1;
      }
      PendingDone(adj, s, trace);
    }

    /** The start of breadthFirstTraversalHelper: v is visited, passed to
        the visitor and enqueued. */
    method BreadthFirstStart(v: Vertex) returns (trace: seq<Label>, queue: seq<Vertex>)
      requires Shaped() && v.vertexLabel in vertices && vertices[v.vertexLabel] == v
      requires Visited() == {}
      modifies v`visited
      ensures trace == [v.vertexLabel] && Marked(trace) && Queued(queue, trace, 0)
    {
      MarkVisited(v);
      trace := [v.vertexLabel];
      queue := [v];
      assert trace[0 + 0] == v.vertexLabel;
    }

    /** The inner loop of breadthFirstTraversalHelper for the dequeued vertex
        temp = trace0[h0]: getNextNeighbor yields its targets in ascending
        order and then its own label; each target not yet visited is visited,
        passed to the visitor and enqueued. The result is one dequeue step of
        Bfs. */
    method BreadthFirstScan(temp: Vertex, trace0: seq<Label>, ghost h0: nat, queue0: seq<Vertex>)
        returns (trace: seq<Label>, queue: seq<Vertex>)
      requires Shaped() && Mirrored()
      requires h0 < |trace0| && (forall j :: 0 <= j < |trace0| ==> trace0[j] in adj)
      requires temp == vertices[trace0[h0]]
      requires Marked(trace0) && Rested({})
      requires Queued(queue0, trace0, h0 + 1)
      modifies vertices.Values
      ensures Marked(trace) && Mirrored()
      ensures Rested({})
      ensures Queued(queue, trace, h0 + 1) && Dequeued(adj, trace0, h0, trace)
    {
      trace, queue := trace0, queue0;
      ghost var ns := temp.Targets();
      QueueScanStart(adj, trace0, h0);
      ghost var i := 0;
      assert temp.vertexLabel in Visited();
      while true
        invariant i <= |ns| && temp.iterations == i && temp.visited
        invariant QueueScan(adj, trace0, h0, ns, i, trace) && Queued(queue, trace, h0 + 1)
        invariant Marked(trace) && Mirrored()
        invariant Rested({temp.vertexLabel})
        decreases |ns| - i
      {
        ghost var before := trace;
        var done;
        done, trace, queue := BreadthFirstStep(temp, ns, i, trace, queue, h0 + 1);
        if done {
          break;
        }
        QueueScanAdvance(adj, trace0, h0, ns, i, before);
        i := i + 1;
      }
      QueueScanFinish(adj, trace0, h0, ns, trace);
    }

    /** One round of the inner loop: getNextNeighbor at temp, whose counter
        is i, yields its i-th target, or its own label once the targets are
        exhausted (done, and the counter is back at 0); a target not yet
        visited is visited, appended to the trace and enqueued. */
    method BreadthFirstStep(temp: Vertex, ghost ns: seq<Label>, ghost i: nat, trace0: seq<Label>,
                            queue0: seq<Vertex>, ghost k: nat)
        returns (done: bool, trace: seq<Label>, queue: seq<Vertex>)
      requires Shaped() && Mirrored()
      requires temp.vertexLabel in vertices && vertices[temp.vertexLabel] == temp
      requires ns == Successors(adj, temp.vertexLabel) && i <= |ns|
      requires temp.visited && temp.iterations == i && Rested({temp.vertexLabel})
      requires Visited() == Elems(trace0) && Queued(queue0, trace0, k)
      modifies vertices.Values
      ensures Visited() == Elems(trace) && Mirrored()
      ensures temp.visited && Rested({temp.vertexLabel}) && Queued(queue, trace, k)
      ensures done <==> i == |ns|
      ensures done ==> temp.iterations == 0 && trace == trace0
      ensures !done ==> temp.iterations == i + 1
      ensures !done ==> trace == if ns[i] in trace0 then trace0 else trace0 + [ns[i]]
    {
      ghost var vis := Visited();
      assert Rewound();
      var next := AskNext(temp, ns, i, vis);
      done := next == temp.vertexLabel;
      trace, queue := trace0, queue0;
      if !done {
        SuccessorsInGraph(adj, temp.vertexLabel);
        trace, queue := Enqueue(vertices[next], trace0, queue0, k, temp.vertexLabel);
      }
    }

    /** The visit-and-enqueue of one target w: when w is not yet visited it is
        visited, passed to the visitor and pushed on the queue. */
    method Enqueue(w: Vertex, trace0: seq<Label>, queue0: seq<Vertex>, ghost k: nat, ghost x: Label)
        returns (trace: seq<Label>, queue: seq<Vertex>)
      requires Shaped() && Mirrored() && Rested({x}) && w.vertexLabel in vertices && vertices[w.vertexLabel] == w
      requires Visited() == Elems(trace0) && Queued(queue0, trace0, k)
      modifies w`visited
      ensures Mirrored() && Rested({x}) && w.visited
      ensures Visited() == Elems(trace) && Queued(queue, trace, k)
      ensures trace == if w.vertexLabel in trace0 then trace0 else trace0 + [w.vertexLabel]
    {
      trace, queue := trace0, queue0;
      if !w.visited {
        MarkVisited(w);
        trace := trace0 + [w.vertexLabel];
        queue := queue0 + [w];
      }
    }

    /** breadthFirstTraversal: clears the flags and counters, then runs the
        helper from start. The visitor sees start first, every label
        reachable from start exactly once and nothing else, in order of hop
        distance from start. Those are the labels left visited, and every
        counter is back at 0. */
    method BreadthFirstTraversal(start: Label) returns (trace: seq<Label>)
      requires Valid() && start in vertices
      modifies vertices.Values
      ensures Valid()
      ensures trace == Bfs(adj, [start], 0)
      ensures |trace| > 0 && trace[0] == start && Distinct(trace)
      ensures forall x :: x in trace <==> Reachable(adj, start, x)
      ensures forall a, b :: 0 <= a <= b < |trace| ==> Dist(adj, start, trace[a]) <= Dist(adj, start, trace[b])
      ensures Marked(trace) && Rested({})
    {
      UnvisitVertices();
      ValidIsShaped();
      trace := BreadthFirstTraversalHelper(vertices[start]);
      BreadthFirstTrace(adj, start);
    }

    /** djikstraCostToAllVertices: clears both maps and the flags and
        counters; records for every target t of start its edge weight and
        start as predecessor, pushing t; then, until the queue is empty, pops
        a label (in any order: the heap order is not modelled) and scans it.
        At the end every recorded cost is the weight of a route from start
        whose last edge leaves the recorded predecessor, start itself has no
        entry, and every target of start has one. The costs are closed under
        non-negative edges, so every label other than start reached by a path
        whose edges after the first are non-negative has a cost. No flag is
        set, and every vertex without a cost has its counter at 0. */
    method DijkstraCostToAllVertices(startLabel: Label) returns (weight: map<Label, int>, previous: map<Label, Label>)
      requires Valid() && startLabel in vertices
      modifies vertices.Values
      ensures Valid()
      ensures weight.Keys == previous.Keys && startLabel !in weight
      ensures forall t :: t in adj[startLabel] ==> t in weight
      ensures forall u :: u in weight ==> previous[u] in adj && u in adj[previous[u]]
      ensures forall u :: u in weight ==> exists r :: Route(adj, startLabel, u, previous[u], r, weight[u])
      ensures CostsClosed(adj, startLabel, weight)
      ensures forall x :: x != startLabel && ReachableByRelaxing(adj, startLabel, x) ==> x in weight
      ensures Visited() == {} && Rested(weight.Keys)
    {
      weight, previous := map[], map[];
      UnvisitVertices();
      var temp := FindVertex(startLabel);
      var pq: multiset<Label>;
      ghost var route: map<Label, seq<Label>>;
      weight, previous, pq, route := DijkstraSeed(temp, startLabel);
      weight, previous, route := DijkstraDrain(startLabel, {startLabel}, weight, previous, pq, route);
      WitnessedEdges(adj, startLabel, weight, previous, route);
      forall x | x != startLabel && ReachableByRelaxing(adj, startLabel, x) ensures x in weight {
        RelaxableReached(adj, startLabel, weight, x);
      }
      forall u | u in weight ensures exists r :: Route(adj, startLabel, u, previous[u], r, weight[u]) {
        assert Route(adj, startLabel, u, previous[u], route[u], weight[u]);
      }
    }

    /** The second loop of djikstraCostToAllVertices: pops and scans until
        the queue is empty. Every pass either records a new label, lowers a
        recorded cost or shrinks the queue, so the loop ends; every recorded
        cost keeps a witnessing route, no recorded label is lost and no cost
        goes up. At the end the costs are closed under non-negative edges. */
    method DijkstraDrain(startLabel: Label, vertexSet: set<Label>, weight0: map<Label, int>,
                         previous0: map<Label, Label>, pq0: multiset<Label>, ghost route0: map<Label, seq<Label>>)
        returns (weight: map<Label, int>, previous: map<Label, Label>, ghost route: map<Label, seq<Label>>)
      requires Valid() && startLabel in vertices
      requires Witnessed(adj, startLabel, weight0, previous0, route0)
      requires forall u :: u in pq0 <==> u in weight0
      requires vertexSet == {startLabel} && Rested({})
      modifies vertices.Values`iterations, vertices.Values`currentNeighbor
      ensures Valid()
      ensures Witnessed(adj, startLabel, weight, previous, route)
      ensures weight0.Keys <= weight.Keys
      ensures forall u :: u in weight0 ==> weight[u] <= weight0[u]
      ensures CostsClosed(adj, startLabel, weight) && Rested(weight.Keys)
    {
      ghost var lo := Floor(weight0);
      DrainingStart(adj, startLabel, weight0, previous0, pq0, route0);
      weight, previous, route := DijkstraDrainFrom(startLabel, vertexSet, adj, weight0, weight0, previous0, pq0, route0, lo, {});
    }

    /** One pass of the second loop, then the remaining passes: while the
        queue is not empty, pop and scan. Written as a tail call, one call
        per pass; the measure (labels with no cost yet, excess over lo,
        queue size) drops with every pass. The ghost set done holds the
        labels popped so far; once the queue is empty, every costed label is
        among them, and so the costs are closed. */
    method DijkstraDrainFrom(startLabel: Label, vertexSet: set<Label>, ghost g: Adjacency, ghost weightS: map<Label, int>,
                             weight0: map<Label, int>, previous0: map<Label, Label>, pq0: multiset<Label>,
                             ghost route0: map<Label, seq<Label>>, ghost lo: int, ghost done0: set<Label>)
        returns (weight: map<Label, int>, previous: map<Label, Label>, ghost route: map<Label, seq<Label>>)
      requires Valid() && startLabel in vertices && adj == g
      requires Draining(g, startLabel, weightS, weight0, previous0, pq0, route0, lo)
      requires vertexSet == {startLabel} && Rested(done0)
      requires Tracked(g, startLabel, weight0, pq0, done0)
      modifies vertices.Values`iterations, vertices.Values`currentNeighbor
      ensures Valid() && adj == g
      ensures Draining(g, startLabel, weightS, weight, previous, multiset{}, route, lo)
      ensures CostsClosed(g, startLabel, weight) && Rested(weight.Keys)
      decreases |g.Keys - weight0.Keys|, Excess(weight0, lo), |pq0|
    {
      if pq0 == multiset{} {
        weight, previous, route := weight0, previous0, route0;
        ClosedWhenDrained(g, startLabel, weight, done0);
        return;
      }
      var pq;
      ghost var done;
      weight, previous, pq, route, done := DijkstraPass(startLabel, vertexSet, weightS, weight0, previous0, pq0, route0, lo, done0);
      weight, previous, route := DijkstraDrainFrom(startLabel, vertexSet, g, weightS, weight, previous, pq, route, lo, done);
    }

    /** One pass of the second loop: a pop and its scan, which keep the
        state drained so far and shrink the measure of DijkstraDrainFrom. */
    method DijkstraPass(startLabel: Label, vertexSet: set<Label>, ghost weightS: map<Label, int>,
                        weight0: map<Label, int>, previous0: map<Label, Label>, pq0: multiset<Label>,
                        ghost route0: map<Label, seq<Label>>, ghost lo: int, ghost done0: set<Label>)
        returns (weight: map<Label, int>, previous: map<Label, Label>, pq: multiset<Label>,
                 ghost route: map<Label, seq<Label>>, ghost done: set<Label>)
      requires Valid() && startLabel in vertices
      requires Draining(adj, startLabel, weightS, weight0, previous0, pq0, route0, lo) && pq0 != multiset{}
      requires vertexSet == {startLabel} && Rested(done0) && Tracked(adj, startLabel, weight0, pq0, done0)
      modifies vertices.Values`iterations, vertices.Values`currentNeighbor
      ensures Valid() && adj == old(adj) && vertices == old(vertices)
      ensures Draining(adj, startLabel, weightS, weight, previous, pq, route, lo)
      ensures Rested(done) && Tracked(adj, startLabel, weight, pq, done)
      ensures |adj.Keys - weight.Keys| < |adj.Keys - weight0.Keys|
              || (|adj.Keys - weight.Keys| == |adj.Keys - weight0.Keys|
                  && (Excess(weight, lo) < Excess(weight0, lo)
                      || (Excess(weight, lo) == Excess(weight0, lo) && |pq| < |pq0|)))
    {
      weight, previous, pq, route, done := DijkstraPop(startLabel, vertexSet, weight0, previous0, pq0, route0, lo, done0);
      DrainingStep(adj, startLabel, weightS, weight0, previous0, pq0, route0, weight, previous, pq, route, lo);
    }

    /** The first loop of djikstraCostToAllVertices: getNextNeighbor on the
        start vertex yields its targets in ascending order, then its own
        label; each target gets its edge weight as cost and start as
        predecessor, and is pushed. */
    method DijkstraSeed(temp: Vertex, startLabel: Label)
        returns (weight: map<Label, int>, previous: map<Label, Label>, pq: multiset<Label>,
                 ghost route: map<Label, seq<Label>>)
      requires Valid() && startLabel in vertices && vertices[startLabel] == temp
      requires temp.iterations == 0
      modifies temp`iterations, temp`currentNeighbor
      ensures Witnessed(adj, startLabel, weight, previous, route)
      ensures weight.Keys == adj[startLabel].Keys
      ensures forall t :: t in weight ==> weight[t] == adj[startLabel][t].weight && previous[t] == startLabel
      ensures forall u :: u in pq <==> u in weight
      ensures temp.iterations == 0
    {
      var lab := startLabel;
      assert temp.Holds(lab, adj[lab]);
      ghost var ns := temp.Targets();
      weight, previous, pq, route := map[], map[], multiset{}, map[];
      SeededStart(adj, lab, ns);
      SentinelMarksEnd(ns, lab, 0);
      var s := temp.GetNextNeighbor();
      ghost var i := 0;
      while temp.vertexLabel != s
        invariant i <= |ns| && (s == lab <==> i == |ns|)
        invariant i < |ns| ==> s == ns[i] && temp.iterations == i + 1
        invariant i == |ns| ==> temp.iterations == 0
        invariant Seeded(adj, lab, ns, i, weight, previous, pq, route)
        decreases |ns| - i
      {
        SeededStep(adj, lab, ns, i, weight, previous, pq, route);
        weight := weight[s := GetEdgeWeight(temp.vertexLabel, s)];
        previous := previous[s := lab];
        route := route[s := [lab, s]];
        pq := pq + multiset{s};
        SentinelMarksEnd(ns, lab, i + 1);
        s := temp.GetNextNeighbor();
        i := i + 1;
      }
      SeededEnd(adj, lab, ns, weight, previous, pq, route);
    }

    /** One round of the second loop: pop some label (the heap order is not
        modelled), skip it if it is start or in vertexSet, scan it
        otherwise. Only the neighbour counters move; the maps keep their
        invariant and make Progress, and when the costs stay the same the
        queue is shorter. */
    method DijkstraPop(startLabel: Label, vertexSet: set<Label>, weight0: map<Label, int>,
                       previous0: map<Label, Label>, pq0: multiset<Label>,
                       ghost route0: map<Label, seq<Label>>, ghost lo: int, ghost done0: set<Label>)
        returns (weight: map<Label, int>, previous: map<Label, Label>, pq: multiset<Label>,
                 ghost route: map<Label, seq<Label>>, ghost done: set<Label>)
      requires Valid() && startLabel in vertices
      requires Witnessed(adj, startLabel, weight0, previous0, route0) && Above(weight0, lo)
      requires pq0 != multiset{} && forall u :: u in pq0 ==> u in weight0
      requires vertexSet == {startLabel} && Rested(done0)
      requires Tracked(adj, startLabel, weight0, pq0, done0)
      modifies vertices.Values`iterations, vertices.Values`currentNeighbor
      ensures Valid() && adj == old(adj) && vertices == old(vertices)
      ensures Witnessed(adj, startLabel, weight, previous, route) && Progress(weight0, weight, lo)
      ensures forall u :: u in pq ==> u in weight
      ensures weight == weight0 ==> |pq| < |pq0|
      ensures Rested(done) && Tracked(adj, startLabel, weight, pq, done)
    {
      weight, previous, route := weight0, previous0, route0;
      MultisetMember(pq0);
      var top :| top in pq0;
      pq := pq0 - multiset{top};
      WitnessedKeys(adj, startLabel, weight0, previous0, route0);
      var v := FindVertex(top);
      assert v.vertexLabel == top && top in weight0 && top != startLabel && top !in vertexSet;
      done := done0 + {top};
      if v.vertexLabel != startLabel {
        if v.vertexLabel !in vertexSet {
          weight, previous, pq, route := DijkstraVisit(v, startLabel, weight, previous, pq, route, lo, done0, pq0);
        }
      }
    }

    /** The scan of a popped label v, with what it does to the bookkeeping
        of the completeness argument: v joins done; if it was not popped
        before its counter was 0, so the scan covers all its targets;
        labels still queued or newly recorded stay accounted for. */
    method DijkstraVisit(v: Vertex, s: Label, weight0: map<Label, int>, previous0: map<Label, Label>,
                         pq0: multiset<Label>, ghost route0: map<Label, seq<Label>>, ghost lo: int,
                         ghost done0: set<Label>, ghost pqBefore: multiset<Label>)
        returns (weight: map<Label, int>, previous: map<Label, Label>, pq: multiset<Label>,
                 ghost route: map<Label, seq<Label>>)
      requires Valid() && v.vertexLabel in vertices && vertices[v.vertexLabel] == v && v.vertexLabel != s
      requires Witnessed(adj, s, weight0, previous0, route0) && v.vertexLabel in weight0
      requires Above(weight0, lo) && forall u :: u in pq0 ==> u in weight0
      requires Rested(done0) && Covered(adj, s, weight0, done0)
      requires v.vertexLabel in pqBefore && pq0 == pqBefore - multiset{v.vertexLabel}
      requires Accounted(weight0, pqBefore, done0)
      modifies v`iterations, v`currentNeighbor
      ensures Valid()
      ensures Witnessed(adj, s, weight, previous, route) && Progress(weight0, weight, lo)
      ensures forall u :: u in pq ==> u in weight
      ensures weight == weight0 ==> pq == pq0
      ensures Rested(done0 + {v.vertexLabel})
      ensures Accounted(weight, pq, done0 + {v.vertexLabel}) && Covered(adj, s, weight, done0 + {v.vertexLabel})
    {
      ghost var top := v.vertexLabel;
      ghost var ns := v.Targets();
      ghost var first := NextNeighbor(ns, top, v.iterations).0;
      ghost var scanned := top in done0;
      assert v.Holds(top, adj[top]);
      ValidIsShaped();
      weight, previous, pq, route := DijkstraScan(v, s, weight0, previous0, pq0, route0, lo);
      if scanned {
        CoveredGrows(adj, s, weight0, weight, done0, top);
      } else {
        FirstCallLeast(ns, top);
        assert forall t :: t in adj[top] ==> t in ns;
        CoveredAfterScan(adj, s, weight0, weight, done0, top, weight0[top], first);
      }
      AccountedAfterPop(weight0, pqBefore, done0, top, weight, pq);
      forall l | l in vertices && l !in done0 + {top} ensures vertices[l].iterations == 0 {
        assert vertices[l] != v;
      }
    }

    /** The body of the second loop for a popped label v other than start:
        one getNextNeighbor call on v, then every vertex from the label it
        returned onwards (std::map::find, then to the end) is relaxed
        against v. The maps keep their invariant and make progress; the
        queue changes only when a cost does. */
    method DijkstraScan(v: Vertex, s: Label, weight0: map<Label, int>, previous0: map<Label, Label>,
                        pq0: multiset<Label>, ghost route0: map<Label, seq<Label>>, ghost lo: int)
        returns (weight: map<Label, int>, previous: map<Label, Label>, pq: multiset<Label>,
                 ghost route: map<Label, seq<Label>>)
      requires Valid() && v.vertexLabel in vertices && vertices[v.vertexLabel] == v
      requires Witnessed(adj, s, weight0, previous0, route0) && v.vertexLabel in weight0
      requires Above(weight0, lo) && forall u :: u in pq0 ==> u in weight0
      modifies v`iterations, v`currentNeighbor
      ensures v.iterations == NextNeighbor(v.Targets(), v.vertexLabel, old(v.iterations)).1
      ensures RelaxedOnwards(adj, s, v.vertexLabel, weight0[v.vertexLabel],
                             NextNeighbor(v.Targets(), v.vertexLabel, old(v.iterations)).0, weight)
      ensures Witnessed(adj, s, weight, previous, route) && Progress(weight0, weight, lo)
      ensures forall u :: u in pq ==> u in weight
      ensures weight == weight0 ==> pq == pq0
      ensures (forall u :: u in pq0 ==> u in pq) && forall u :: u in weight && u !in weight0 ==> u in pq
    {
      ghost var lab := v.vertexLabel;
      assert v.Holds(lab, adj[lab]);
      ghost var ns := v.Targets();
      var next := v.GetNextNeighbor();
      assert next in vertices by {
        if next != lab {
          assert next in ns;
          assert next in adj[lab];
        }
      }
      var it := if next in vertices then set l | l in vertices && l >= next else {};
      weight, previous, pq, route := DijkstraRelaxAll(v.vertexLabel, s, it, weight0, previous0, pq0, route0, lo);
      RelaxedFromOnwards(adj, s, lab, weight0[lab], it, weight, next);
    }

    /** The relaxation loop of one scan: every label of it, least first, is
        relaxed against the scanned label v (its edge weight, or -1 when
        there is no edge). Nothing on the heap changes. */
    method DijkstraRelaxAll(v: Label, s: Label, it0: set<Label>, weight0: map<Label, int>,
                            previous0: map<Label, Label>, pq0: multiset<Label>,
                            ghost route0: map<Label, seq<Label>>, ghost lo: int)
        returns (weight: map<Label, int>, previous: map<Label, Label>, pq: multiset<Label>,
                 ghost route: map<Label, seq<Label>>)
      requires Valid() && v in vertices && it0 <= vertices.Keys
      requires Witnessed(adj, s, weight0, previous0, route0) && v in weight0
      requires Above(weight0, lo) && forall u :: u in pq0 ==> u in weight0
      ensures Witnessed(adj, s, weight, previous, route) && Progress(weight0, weight, lo)
      ensures forall u :: u in pq ==> u in weight
      ensures weight == weight0 ==> pq == pq0
      ensures Grown(weight0, pq0, weight, pq)
      ensures RelaxedFrom(adj, s, v, weight0[v], it0, weight)
    {
      weight, previous, pq, route := weight0, previous0, pq0, route0;
      var it := it0;
      ghost var seen: set<Label> := {};
      RelaxingStart(adj, s, v, weight0, previous0, pq0, route0, lo);
      while it != {}
        invariant it <= vertices.Keys && it0 <= it + seen
        invariant Relaxing(adj, s, v, weight0, pq0, weight, previous, pq, route, lo, seen)
        decreases it
      {
        var u := Least(it);
        var edgeWeight := GetEdgeWeight(v, u);
        var r := Relax(s, weight, previous, v, u, edgeWeight);
        RelaxingStep(adj, s, v, u, weight0, pq0, weight, previous, pq, route, lo, seen);
        if r.pushed {
          route := route[u := route[v] + [u]];
          pq := pq + multiset{u};
        }
        weight, previous := r.weight, r.previous;
        it, seen := it - {u}, seen + {u};
      }
      RelaxedFromSubset(adj, s, v, weight0[v], seen, it0, weight);
    }

    /** With every flag clear, no label is visited. */
    lemma NoneVisited()
      requires forall l :: l in vertices ==> !vertices[l].visited
      ensures Visited() == {}
    {
      var vis := Visited();
      assert forall l :: l !in vis;
    }
  }

  /** In a valid graph two stored vertices compare equal exactly when they
      are the same object. */
  lemma EqualIsIdentity(g: Graph, a: Label, b: Label)
    requires g.Valid() && a in g.vertices && b in g.vertices
    ensures g.vertices[a].Equal(g.vertices[b]) <==> g.vertices[a] == g.vertices[b]
  {
  }
}
