/** What Graph::add does to the graph value: create whichever endpoints are
    missing, then store the edge unless it is a self-loop or the start
    vertex already has an edge to that end (std::map::insert keeps the
    first weight). */
module Insertion {
  import opened Edges
  import opened Digraphs

  /** Vertex::connect on the edges of vertex s, for a vertex that keeps its
      invariant: the edge to e is stored unless e is s itself or already a
      target, in which case the first weight stays. */
  function Link(edges: map<Label, Edge>, s: Label, e: Label, w: int): (r: map<Label, Edge>)
    ensures r.Keys == if e == s then edges.Keys else edges.Keys + {e}
    ensures forall t :: t in edges ==> r[t] == edges[t]
    ensures e != s && e !in edges ==> r[e] == Edge(e, w)
  {
    if e == s || e in edges then edges else edges[e := Edge(e, w)]
  }

  /** Graph::add on the graph value: both endpoints become vertices, the
      edges of s are linked to e, and every other vertex keeps its edges. */
  function Inserted(g: Adjacency, s: Label, e: Label, w: int): (r: Adjacency)
    ensures r.Keys == g.Keys + {s, e}
    ensures forall v :: v in g && v != s ==> r[v] == g[v]
    ensures s in g ==> r[s] == Link(g[s], s, e, w)
  {
    var g1 := if e in g then g else g[e := map[]];
    var g2 := if s in g1 then g1 else g1[s := map[]];
    g2[s := Link(g2[s], s, e, w)]
  }

  /** Graph::add connects at an existing start vertex first, then creates
      the missing end and start vertices, then connects again; that order
      of steps gives the same graph as Inserted. */
  lemma InsertedInCodeOrder(g: Adjacency, s: Label, e: Label, w: int, g1: Adjacency, g2: Adjacency, g3: Adjacency)
    requires !(s in g && e == s)
    requires g1 == if s in g then g[s := Link(g[s], s, e, w)] else g
    requires g2 == if e in g1 then g1 else g1[e := map[]]
    requires g3 == if s in g2 then g2 else g2[s := map[]]
    ensures g3[s := Link(g3[s], s, e, w)] == Inserted(g, s, e, w)
  {
    if s in g {
      var l := Link(g[s], s, e, w);
      assert Link(l, s, e, w) == l;
      if e !in g {
        assert g3 == g[s := l][e := map[]];
        assert g3[s := l] == g[e := map[]][s := l];
      }
    }
  }

  /** Adding creates no dangling edge. */
  lemma InsertedClosed(g: Adjacency, s: Label, e: Label, w: int)
    requires Closed(g)
    ensures Closed(Inserted(g, s, e, w))
  {
    InsertedEdges(g, s, e, w);
  }

  /** Adding stores exactly one new edge, s -> e with weight w, unless it is
      a self-loop or s already has an edge to e; every existing edge keeps
      its weight. */
  lemma InsertedEdges(g: Adjacency, s: Label, e: Label, w: int)
    ensures forall v, t :: v in Inserted(g, s, e, w) && t in Inserted(g, s, e, w)[v] <==>
              (v in g && t in g[v]) || (v == s && t == e && s != e)
    ensures forall v, t :: v in g && t in g[v] ==> Inserted(g, s, e, w)[v][t] == g[v][t]
    ensures s != e && !(s in g && e in g[s]) ==> Inserted(g, s, e, w)[s][e] == Edge(e, w)
  {
    var r: Adjacency := Inserted(g, s, e, w);
    var g1 := if e in g then g else g[e := map[]];
    var g2 := if s in g1 then g1 else g1[s := map[]];
    assert r == g2[s := Link(g2[s], s, e, w)];
    forall v, t
      ensures v in r && t in r[v] <==> (v in g && t in g[v]) || (v == s && t == e && s != e)
    {
      if v != s {
        assert v in r <==> v in g2;
        if v in g {
          assert r[v] == g[v];
        } else if v in r {
          assert r[v] == map[];
        }
      } else if s in g {
        assert g2[s] == g[s];
      } else {
        assert g2[s] == map[];
      }
    }
    forall v, t | v in g && t in g[v]
      ensures r[v][t] == g[v][t]
    {
      assert g2[v] == g[v];
    }
  }

  /** Adding keeps the graph free of dangling edges and self-loops, and
      keeps every edge stored under its end label. */
  lemma InsertedWellFormed(g: Adjacency, s: Label, e: Label, w: int)
    requires WellFormed(g)
    ensures WellFormed(Inserted(g, s, e, w))
  {
    var r: Adjacency := Inserted(g, s, e, w);
    InsertedEdges(g, s, e, w);
    forall v, t | v in r && t in r[v] ensures t in r && r[v][t].endVertex == t {
      if v in g && t in g[v] {
        assert r[v][t] == g[v][t];
      }
    }
  }

  /** Adding the same edge again changes nothing: the first weight stays. */
  lemma InsertedIdempotent(g: Adjacency, s: Label, e: Label, w1: int, w2: int)
    ensures Inserted(Inserted(g, s, e, w1), s, e, w2) == Inserted(g, s, e, w1)
  {
    var r := Inserted(g, s, e, w1);
    assert s in r && e in r;
    assert s != e ==> e in r[s];
  }
}
