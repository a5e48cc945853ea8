/** The bookkeeping of djikstraCostToAllVertices as values: the cost map
    weight, the predecessor map previous, and one relaxation of an edge.
    Costs are witnessed by routes (paths from the start whose weight is the
    recorded cost), and the potential Excess bounds how often costs can
    still drop. */
module Relaxation {
  import opened Edges
  import opened OrderedKeys
  import opened Digraphs

  /** The effect of one relaxation: the new maps, and whether the target
      was pushed on the priority queue. */
  datatype Step = Step(weight: map<Label, int>, previous: map<Label, Label>, pushed: bool)

  /** The body of the inner loop of djikstraCostToAllVertices, for the
      popped label v and the candidate u, where ew is what getEdgeWeight
      reports for v -> u (-1 when u is not a target of v). A negative
      reading and the start itself are skipped; otherwise u gets the cost
      through v when it has no cost yet or when that is strictly cheaper. */
  function Relax(s: Label, weight: map<Label, int>, previous: map<Label, Label>, v: Label, u: Label, ew: int): (r: Step)
    requires v in weight
    ensures r.pushed <==> 0 <= ew && u != s && (u !in weight || weight[v] + ew < weight[u])
    ensures r.weight.Keys == weight.Keys + (if r.pushed then {u} else {})
    ensures r.previous.Keys == previous.Keys + (if r.pushed then {u} else {})
    ensures r.pushed ==> r.weight[u] == weight[v] + ew && r.previous[u] == v
    ensures forall x :: x in weight && x != u ==> r.weight[x] == weight[x]
    ensures forall x :: x in previous && x != u ==> r.previous[x] == previous[x]
    ensures forall x :: x in weight ==> r.weight[x] <= weight[x]
    ensures !r.pushed ==> r.weight == weight && r.previous == previous
  {
    if ew < 0 || u == s then Step(weight, previous, false)
    else if u !in weight || weight[u] > weight[v] + ew then
      Step(weight[u := weight[v] + ew], previous[u := v], true)
    else Step(weight, previous, false)
  }

  /** What getEdgeWeight reports for v -> u. */
  ghost function Reading(g: Adjacency, v: Label, u: Label): int
    requires v in g
  {
    if u in g[v] then g[v][u].weight else -1
  }

  /** r is a route to u of weight w whose last step leaves p: a path from s
      to u with at least one edge. */
  ghost predicate Route(g: Adjacency, s: Label, u: Label, p: Label, r: seq<Label>, w: int)
  {
    && IsPath(g, r) && |r| >= 2
    && r[0] == s && r[|r| - 1] == u && r[|r| - 2] == p
    && PathWeight(g, r) == w
  }

  /** The invariant of the two maps: the same keys, never the start, and
      each cost witnessed by a route through the recorded predecessor. */
  ghost predicate Witnessed(g: Adjacency, s: Label, weight: map<Label, int>, previous: map<Label, Label>,
                            route: map<Label, seq<Label>>)
  {
    && weight.Keys == previous.Keys && route.Keys == weight.Keys && s !in weight
    && forall u :: u in weight ==> Route(g, s, u, previous[u], route[u], weight[u])
  }

  /** Extending a path by one edge adds that edge's weight. */
  lemma PathExtend(g: Adjacency, r: seq<Label>, u: Label)
    requires IsPath(g, r) && r[|r| - 1] in g && u in g[r[|r| - 1]] && u in g
    ensures IsPath(g, r + [u])
    ensures PathWeight(g, r + [u]) == PathWeight(g, r) + g[r[|r| - 1]][u].weight
  {
    var q := r + [u];
    assert q[..|q| - 1] == r;
  }

  /** The first loop's entry for a target t of s: the one-edge route. */
  lemma SeedWitnessed(g: Adjacency, s: Label, weight: map<Label, int>, previous: map<Label, Label>,
                      route: map<Label, seq<Label>>, t: Label)
    requires Witnessed(g, s, weight, previous, route)
    requires WellFormed(g) && s in g && t in g[s]
    ensures Witnessed(g, s, weight[t := g[s][t].weight], previous[t := s], route[t := [s, t]])
  {
    assert IsPath(g, [s]);
    PathExtend(g, [s], t);
    assert [s] + [t] == [s, t];
  }

  /** The first loop of djikstraCostToAllVertices after i targets of s
      (ns lists the targets): exactly those have a cost, their edge weight,
      with s as predecessor, and the queue holds exactly the labels with a cost. */
  ghost predicate Seeded(g: Adjacency, s: Label, ns: seq<Label>, i: nat, weight: map<Label, int>,
                         previous: map<Label, Label>, pq: multiset<Label>, route: map<Label, seq<Label>>)
  {
    && WellFormed(g) && s in g && (forall t :: t in ns <==> t in g[s]) && i <= |ns|
    && Witnessed(g, s, weight, previous, route)
    && (forall t :: t in weight <==> t in ns[..i])
    && (forall t :: t in weight ==> t in g[s] && weight[t] == g[s][t].weight && previous[t] == s)
    && (forall u :: u in pq <==> u in weight)
  }

  lemma SeededStart(g: Adjacency, s: Label, ns: seq<Label>)
    requires WellFormed(g) && s in g && forall t :: t in ns <==> t in g[s]
    ensures Seeded(g, s, ns, 0, map[], map[], multiset{}, map[])
  {
  }

  /** Recording target i keeps Seeded. */
  lemma SeededStep(g: Adjacency, s: Label, ns: seq<Label>, i: nat, weight: map<Label, int>,
                   previous: map<Label, Label>, pq: multiset<Label>, route: map<Label, seq<Label>>)
    requires Seeded(g, s, ns, i, weight, previous, pq, route) && i < |ns|
    ensures ns[i] in g[s]
    ensures Seeded(g, s, ns, i + 1, weight[ns[i] := g[s][ns[i]].weight], previous[ns[i] := s],
                   pq + multiset{ns[i]}, route[ns[i] := [s, ns[i]]])
  {
    var t := ns[i];
    assert t in ns;
    SeedWitnessed(g, s, weight, previous, route, t);
    PrefixGrows(ns, i);
  }

  /** After the last target every target of s has its edge weight. */
  lemma SeededEnd(g: Adjacency, s: Label, ns: seq<Label>, weight: map<Label, int>,
                  previous: map<Label, Label>, pq: multiset<Label>, route: map<Label, seq<Label>>)
    requires Seeded(g, s, ns, |ns|, weight, previous, pq, route)
    ensures weight.Keys == g[s].Keys
  {
    PrefixFull(ns);
    forall t ensures t in weight <==> t in g[s] {
      assert t in ns <==> t in g[s];
    }
  }

  /** Relaxation keeps the invariant: a cost set through v is witnessed by
      v's route extended by the edge v -> u. */
  lemma RelaxWitnessed(g: Adjacency, s: Label, weight: map<Label, int>, previous: map<Label, Label>,
                       route: map<Label, seq<Label>>, v: Label, u: Label)
    requires Witnessed(g, s, weight, previous, route) && Closed(g)
    requires v in weight && v in g
    ensures Relax(s, weight, previous, v, u, Reading(g, v, u)).pushed ==>
              Witnessed(g, s, Relax(s, weight, previous, v, u, Reading(g, v, u)).weight,
                        Relax(s, weight, previous, v, u, Reading(g, v, u)).previous,
                        route[u := route[v] + [u]])
  {
    var ew := Reading(g, v, u);
    var r := Relax(s, weight, previous, v, u, ew);
    if r.pushed {
      var rv := route[v];
      assert Route(g, s, v, previous[v], rv, weight[v]);
      PathExtend(g, rv, u);
      var ru := rv + [u];
      assert ru[|ru| - 2] == v;
      assert Route(g, s, u, v, ru, r.weight[u]);
    }
  }

  /** Every key's predecessor has an edge to it. */
  lemma WitnessedEdges(g: Adjacency, s: Label, weight: map<Label, int>, previous: map<Label, Label>,
                       route: map<Label, seq<Label>>)
    requires Witnessed(g, s, weight, previous, route)
    ensures forall u :: u in weight ==> previous[u] in g && u in g[previous[u]]
    ensures forall u :: u in weight ==> Reachable(g, s, u)
  {
    forall u | u in weight ensures previous[u] in g && u in g[previous[u]] && Reachable(g, s, u) {
      var r := route[u];
      assert Route(g, s, u, previous[u], r, weight[u]);
      var k := |r| - 2;
      assert r[k] in g && r[k + 1] in g[r[k]];
    }
  }

  /** A lower bound of a map's values, at most 0. */
  ghost function Floor(m: map<Label, int>): (lo: int)
    ensures lo <= 0 && forall u :: u in m ==> lo <= m[u]
    decreases |m|
  {
    if m == map[] then 0
    else
      var u := Least(m.Keys);
      var rest := m - {u};
      assert forall x :: x in m ==> x == u || x in rest;
      var r := Floor(rest);
      if m[u] < r then m[u] else r
  }

  ghost predicate Above(m: map<Label, int>, lo: int)
  {
    forall u :: u in m ==> lo <= m[u]
  }

  /** How far the costs are above lo, summed over the keys. */
  ghost function Excess(m: map<Label, int>, lo: int): nat
    requires Above(m, lo)
    decreases |m|
  {
    if m == map[] then 0
    else
      var u := Least(m.Keys);
      (m[u] - lo) + Excess(m - {u}, lo)
  }

  /** The sum does not depend on which key is taken first. */
  lemma {:induction false} ExcessAt(m: map<Label, int>, lo: int, u: Label)
    requires Above(m, lo) && u in m
    ensures Excess(m, lo) == (m[u] - lo) + Excess(m - {u}, lo)
    decreases |m|
  {
    var w := Least(m.Keys);
    if w != u {
      ExcessAt(m - {w}, lo, u);
      ExcessAt(m - {u}, lo, w);
      assert m - {w} - {u} == m - {u} - {w};
    }
  }

  /** Lowering one cost, and staying above lo, lowers the excess. */
  lemma ExcessLowered(m: map<Label, int>, lo: int, u: Label, x: int)
    requires Above(m, lo) && u in m && lo <= x < m[u]
    ensures Above(m[u := x], lo)
    ensures Excess(m[u := x], lo) < Excess(m, lo)
  {
    ExcessAt(m, lo, u);
    ExcessAt(m[u := x], lo, u);
    assert m[u := x] - {u} == m - {u};
  }

  /** Progress of the scans over one popped label, from weight0 to weight:
      the keys only grow, no cost rises, and with the same keys the costs
      are either all unchanged or their excess has dropped. */
  ghost predicate Progress(weight0: map<Label, int>, weight: map<Label, int>, lo: int)
  {
    && Above(weight0, lo) && Above(weight, lo)
    && weight0.Keys <= weight.Keys
    && (forall u :: u in weight0 ==> weight[u] <= weight0[u])
    && (weight.Keys == weight0.Keys ==> weight == weight0 || Excess(weight, lo) < Excess(weight0, lo))
  }

  /** A relaxation whose costs stay above lo keeps Progress, and a push
      always comes with a change of the costs. */
  lemma RelaxProgress(s: Label, weight0: map<Label, int>, weight: map<Label, int>, previous: map<Label, Label>,
                      v: Label, u: Label, ew: int, lo: int)
    requires Progress(weight0, weight, lo) && v in weight && lo <= weight[v]
    ensures Progress(weight0, Relax(s, weight, previous, v, u, ew).weight, lo)
    ensures Relax(s, weight, previous, v, u, ew).pushed ==> Relax(s, weight, previous, v, u, ew).weight != weight0
  {
    var r := Relax(s, weight, previous, v, u, ew);
    if r.pushed {
      if u in weight {
        ExcessLowered(weight, lo, u, weight[v] + ew);
        assert r.weight == weight[u := weight[v] + ew];
        if u in weight0 {
          assert r.weight[u] < weight0[u];
        }
      } else {
        assert u !in weight0;
      }
    }
  }

  /** Every label of seen with a usable reading from v (not negative, not
      s) has a cost no greater than the cost dv of v plus that reading. */
  ghost predicate RelaxedFrom(g: Adjacency, s: Label, v: Label, dv: int, seen: set<Label>, weight: map<Label, int>)
    requires v in g
  {
    forall u :: u in seen && 0 <= Reading(g, v, u) && u != s ==> u in weight && weight[u] <= dv + Reading(g, v, u)
  }

  /** The queue keeps what it held, and every newly recorded label is on it. */
  ghost predicate Grown(weight0: map<Label, int>, pq0: multiset<Label>, weight: map<Label, int>, pq: multiset<Label>)
  {
    (forall u :: u in pq0 ==> u in pq) && forall u :: u in weight && u !in weight0 ==> u in pq
  }

  /** What the relaxation loop of one scan of v keeps, seen being the labels
      relaxed so far: witnessed costs, v's cost unchanged, Progress against
      the costs before the scan, a queue of recorded labels that has changed
      only if some cost has and that holds every new label, and every label
      of seen relaxed against v. */
  ghost predicate Relaxing(g: Adjacency, s: Label, v: Label, weight0: map<Label, int>, pq0: multiset<Label>,
                           weight: map<Label, int>, previous: map<Label, Label>, pq: multiset<Label>,
                           route: map<Label, seq<Label>>, lo: int, seen: set<Label>)
    requires v in g
  {
    && Witnessed(g, s, weight, previous, route) && v in weight && v in weight0 && weight[v] == weight0[v]
    && Progress(weight0, weight, lo)
    && (forall u :: u in pq ==> u in weight)
    && (weight == weight0 ==> pq == pq0)
    && Grown(weight0, pq0, weight, pq)
    && RelaxedFrom(g, s, v, weight0[v], seen, weight)
  }

  lemma RelaxingStart(g: Adjacency, s: Label, v: Label, weight: map<Label, int>, previous: map<Label, Label>,
                      pq: multiset<Label>, route: map<Label, seq<Label>>, lo: int)
    requires Witnessed(g, s, weight, previous, route) && v in weight && v in g
    requires Above(weight, lo) && forall u :: u in pq ==> u in weight
    ensures Relaxing(g, s, v, weight, pq, weight, previous, pq, route, lo, {})
  {
  }

  /** Relaxing u against v keeps Relaxing with u added to seen, u pushed and
      its route extended exactly when its cost was set. */
  lemma RelaxingStep(g: Adjacency, s: Label, v: Label, u: Label, weight0: map<Label, int>, pq0: multiset<Label>,
                     weight: map<Label, int>, previous: map<Label, Label>, pq: multiset<Label>,
                     route: map<Label, seq<Label>>, lo: int, seen: set<Label>)
    requires v in g && Relaxing(g, s, v, weight0, pq0, weight, previous, pq, route, lo, seen) && Closed(g)
    ensures var r := Relax(s, weight, previous, v, u, Reading(g, v, u));
            Relaxing(g, s, v, weight0, pq0, r.weight, r.previous,
                     if r.pushed then pq + multiset{u} else pq,
                     if r.pushed then route[u := route[v] + [u]] else route, lo, seen + {u})
  {
    RelaxWitnessed(g, s, weight, previous, route, v, u);
    RelaxProgress(s, weight0, weight, previous, v, u, Reading(g, v, u), lo);
    RelaxedFromStep(g, s, v, u, weight, previous, weight0[v], seen);
  }

  /** Relaxing u against v leaves v's cost alone (a relaxation of v itself
      would need a negative reading) and relaxes u, without raising the
      costs of the labels seen before. */
  lemma RelaxedFromStep(g: Adjacency, s: Label, v: Label, u: Label, weight: map<Label, int>,
                        previous: map<Label, Label>, dv: int, seen: set<Label>)
    requires v in g && v in weight && weight[v] == dv && RelaxedFrom(g, s, v, dv, seen, weight)
    ensures Relax(s, weight, previous, v, u, Reading(g, v, u)).weight[v] == dv
    ensures RelaxedFrom(g, s, v, dv, seen + {u}, Relax(s, weight, previous, v, u, Reading(g, v, u)).weight)
  {
    var r := Relax(s, weight, previous, v, u, Reading(g, v, u));
    forall x | x in seen + {u} && 0 <= Reading(g, v, x) && x != s
      ensures x in r.weight && r.weight[x] <= dv + Reading(g, v, x)
    {
      if x != u {
        assert x in weight && r.weight[x] <= weight[x];
      }
    }
  }

  lemma RelaxedFromSubset(g: Adjacency, s: Label, v: Label, dv: int, seen: set<Label>, part: set<Label>,
                          weight: map<Label, int>)
    requires v in g && RelaxedFrom(g, s, v, dv, seen, weight) && part <= seen
    ensures RelaxedFrom(g, s, v, dv, part, weight)
  {
  }

  /** RelaxedFrom for every label of g from first onwards. */
  ghost predicate RelaxedOnwards(g: Adjacency, s: Label, v: Label, dv: int, first: Label, weight: map<Label, int>)
    requires v in g
  {
    forall u :: u in g && first <= u && 0 <= Reading(g, v, u) && u != s ==>
      u in weight && weight[u] <= dv + Reading(g, v, u)
  }

  /** A scan whose seen set holds every label of g from first onwards has
      relaxed them all. */
  lemma RelaxedFromOnwards(g: Adjacency, s: Label, v: Label, dv: int, seen: set<Label>, weight: map<Label, int>,
                           first: Label)
    requires v in g && RelaxedFrom(g, s, v, dv, seen, weight)
    requires forall u :: u in g && first <= u ==> u in seen
    ensures RelaxedOnwards(g, s, v, dv, first, weight)
  {
  }

  /** The measure of the outer loop drops across a pop whose scan made
      Progress: fewer labels without a cost, or as many and either less
      excess or the same costs. */
  lemma MeasureDrops(keys: set<Label>, weight0: map<Label, int>, weight: map<Label, int>,
                     pq0: multiset<Label>, pq: multiset<Label>, lo: int)
    requires Progress(weight0, weight, lo) && weight.Keys <= keys
    requires weight == weight0 ==> |pq| < |pq0|
    ensures |keys - weight.Keys| < |keys - weight0.Keys|
            || (|keys - weight.Keys| == |keys - weight0.Keys| && Excess(weight, lo) < Excess(weight0, lo))
            || (|keys - weight.Keys| == |keys - weight0.Keys| && Excess(weight, lo) == Excess(weight0, lo)
                && |pq| < |pq0|)
  {
    KeysSettle(keys, weight0.Keys, weight.Keys);
  }

  /** Growing a subset of keys leaves fewer keys outside it, strictly
      fewer unless it did not grow. */
  lemma KeysSettle(keys: set<Label>, a: set<Label>, b: set<Label>)
    requires a <= b <= keys
    ensures |keys - b| <= |keys - a|
    ensures |keys - b| == |keys - a| ==> a == b
  {
    SubsetCardinality(keys - b, keys - a);
    if a != b {
      EmptyOrMember(b - a);
      var x :| x in b - a;
      assert x in keys - a && x !in keys - b;
    }
  }

  /** What the second loop of djikstraCostToAllVertices keeps, measured
      against the maps it started from: witnessed costs bounded below by lo,
      a queue of recorded labels, no label lost and no cost raised. */
  ghost predicate Draining(g: Adjacency, s: Label, weight0: map<Label, int>, weight: map<Label, int>,
                           previous: map<Label, Label>, pq: multiset<Label>, route: map<Label, seq<Label>>, lo: int)
  {
    && Witnessed(g, s, weight, previous, route) && Above(weight, lo)
    && (forall u :: u in pq ==> u in weight)
    && weight0.Keys <= weight.Keys
    && (forall u :: u in weight0 ==> weight[u] <= weight0[u])
  }

  lemma DrainingStart(g: Adjacency, s: Label, weight: map<Label, int>, previous: map<Label, Label>,
                      pq: multiset<Label>, route: map<Label, seq<Label>>)
    requires Witnessed(g, s, weight, previous, route) && forall u :: u in pq ==> u in weight
    ensures Draining(g, s, weight, weight, previous, pq, route, Floor(weight))
  {
  }

  /** One pass of the second loop keeps Draining and lowers the measure
      (labels still unrecorded, excess over lo, queue size). */
  lemma DrainingStep(g: Adjacency, s: Label, weight0: map<Label, int>, weight1: map<Label, int>,
                     previous1: map<Label, Label>, pq1: multiset<Label>, route1: map<Label, seq<Label>>,
                     weight: map<Label, int>, previous: map<Label, Label>, pq: multiset<Label>,
                     route: map<Label, seq<Label>>, lo: int)
    requires Draining(g, s, weight0, weight1, previous1, pq1, route1, lo)
    requires Witnessed(g, s, weight, previous, route) && Progress(weight1, weight, lo)
    requires (forall u :: u in pq ==> u in weight) && (weight == weight1 ==> |pq| < |pq1|)
    ensures Draining(g, s, weight0, weight, previous, pq, route, lo) && Above(weight, lo)
    ensures |g.Keys - weight.Keys| < |g.Keys - weight1.Keys|
            || (|g.Keys - weight.Keys| == |g.Keys - weight1.Keys|
                && (Excess(weight, lo) < Excess(weight1, lo)
                    || (Excess(weight, lo) == Excess(weight1, lo) && |pq| < |pq1|)))
  {
    WitnessedKeys(g, s, weight, previous, route);
    MeasureDrops(g.Keys, weight1, weight, pq1, pq, lo);
  }

  /** Every label with a cost is a vertex. */
  lemma WitnessedKeys(g: Adjacency, s: Label, weight: map<Label, int>, previous: map<Label, Label>,
                      route: map<Label, seq<Label>>)
    requires Witnessed(g, s, weight, previous, route)
    ensures weight.Keys <= g.Keys
  {
    forall u | u in weight ensures u in g {
      var r := route[u];
      assert Route(g, s, u, previous[u], r, weight[u]);
      assert r[|r| - 1] in g;
    }
  }

  lemma MultisetMember(m: multiset<Label>)
    ensures m == multiset{} || exists x :: x in m
  {
    if forall x :: x !in m {
      assert m == multiset{};
    }
  }

  /** The labels popped at least once, done, have had every target scanned:
      each target reached by a non-negative edge, other than s, has a cost. */
  ghost predicate Covered(g: Adjacency, s: Label, weight: map<Label, int>, done: set<Label>)
  {
    forall d, t :: d in done && d in g && t in g[d] && 0 <= g[d][t].weight && t != s ==> t in weight
  }

  /** Every label with a cost is still queued or has been popped, and
      every popped label has a cost. */
  ghost predicate Accounted(weight: map<Label, int>, pq: multiset<Label>, done: set<Label>)
  {
    && (forall u :: u in weight ==> u in pq || u in done)
    && (forall d :: d in done ==> d in weight)
  }

  /** The bookkeeping of the second loop: Accounted and Covered together. */
  ghost predicate Tracked(g: Adjacency, s: Label, weight: map<Label, int>, pq: multiset<Label>, done: set<Label>)
  {
    Accounted(weight, pq, done) && Covered(g, s, weight, done)
  }

  /** The costs are closed under the edges relaxation uses: every target of
      a label with a cost, reached by a non-negative edge and other than s,
      has a cost. */
  ghost predicate CostsClosed(g: Adjacency, s: Label, weight: map<Label, int>)
  {
    forall u, t :: u in weight && u in g && t in g[u] && 0 <= g[u][t].weight && t != s ==> t in weight
  }

  /** A path whose edges after the first all have non-negative weight: the
      first edge is taken by the first loop whatever its weight, the others
      only when their reading is not negative. */
  ghost predicate RelaxablePath(g: Adjacency, p: seq<Label>)
  {
    IsPath(g, p) && forall i :: 1 <= i < |p| - 1 ==> 0 <= g[p[i]][p[i + 1]].weight
  }

  ghost predicate ReachableByRelaxing(g: Adjacency, s: Label, x: Label)
  {
    exists p :: RelaxablePath(g, p) && p[0] == s && p[|p| - 1] == x
  }

  /** Costs that hold every target of s and are closed under non-negative
      edges hold every label other than s at the end of a relaxable path. */
  lemma {:induction false} RelaxableReached(g: Adjacency, s: Label, weight: map<Label, int>, x: Label)
    requires s in g && (forall t :: t in g[s] ==> t in weight) && CostsClosed(g, s, weight)
    requires ReachableByRelaxing(g, s, x) && x != s
    ensures x in weight
  {
    var p :| RelaxablePath(g, p) && p[0] == s && p[|p| - 1] == x;
    var k := 0;
    while k < |p| - 1
      invariant 0 <= k < |p|
      invariant p[k] == s || p[k] in weight
    {
      var a, b := p[k], p[k + 1];
      assert a in g && b in g[a];
      if a != s {
        assert 1 <= k;
        assert 0 <= g[a][b].weight;
      }
      k := k + 1;
    }
  }

  /** A scan of top that relaxed every label from first onwards, first being
      no greater than any target of top, covers top; labels popped before
      stay covered since no cost is removed. */
  lemma CoveredAfterScan(g: Adjacency, s: Label, weight0: map<Label, int>, weight: map<Label, int>,
                         done: set<Label>, top: Label, dv: int, first: Label)
    requires Covered(g, s, weight0, done) && weight0.Keys <= weight.Keys && Closed(g)
    requires top in g && forall t :: t in g[top] ==> first <= t
    requires RelaxedOnwards(g, s, top, dv, first, weight)
    ensures Covered(g, s, weight, done + {top})
  {
    forall d, t | d in done + {top} && d in g && t in g[d] && 0 <= g[d][t].weight && t != s
      ensures t in weight
    {
      if d == top {
        assert t in g && first <= t && Reading(g, top, t) == g[d][t].weight;
      } else {
        assert t in weight0;
      }
    }
  }

  /** Labels already popped stay covered when costs are only added, top
      being one of them. */
  lemma CoveredGrows(g: Adjacency, s: Label, weight0: map<Label, int>, weight: map<Label, int>, done: set<Label>,
                     top: Label)
    requires Covered(g, s, weight0, done) && weight0.Keys <= weight.Keys && top in done
    ensures Covered(g, s, weight, done + {top})
  {
    assert done + {top} == done;
  }

  /** After popping top, every label with a cost is still queued or popped,
      provided the rest of the queue is kept and every new label is queued. */
  lemma AccountedAfterPop(weight0: map<Label, int>, pq0: multiset<Label>, done: set<Label>, top: Label,
                          weight: map<Label, int>, pq: multiset<Label>)
    requires Accounted(weight0, pq0, done) && top in pq0 && top in weight0
    requires weight0.Keys <= weight.Keys
    requires forall u :: u in pq0 - multiset{top} ==> u in pq
    requires forall u :: u in weight && u !in weight0 ==> u in pq
    ensures Accounted(weight, pq, done + {top})
  {
    forall u | u in weight ensures u in pq || u in done + {top} {
      if u in weight0 && u !in done && u != top {
        assert u in pq0 - multiset{top};
      }
    }
  }

  /** With the queue empty every label with a cost has been popped, so the
      costs are closed under non-negative edges. */
  lemma ClosedWhenDrained(g: Adjacency, s: Label, weight: map<Label, int>, done: set<Label>)
    requires Tracked(g, s, weight, multiset{}, done)
    ensures CostsClosed(g, s, weight)
  {
    forall u, t | u in weight && u in g && t in g[u] && 0 <= g[u][t].weight && t != s ensures t in weight {
      assert u in done;
    }
  }
}
