/** A vertex: its label, its outgoing edges keyed by target label, a visited
    flag and the counter that drives its neighbour enumeration. */
module Vertices {
  import opened Edges
  import opened OrderedKeys

  /** One call of getNextNeighbor on a vertex whose targets, in ascending
      order, are `targets` and whose counter is `k`: the label returned and
      the new counter. Past the last target it returns the vertex's own label
      and restarts the count. */
  function NextNeighbor(targets: seq<Label>, vertexLabel: Label, k: int): (r: (Label, int))
    ensures r.0 in targets || r.0 == vertexLabel
    ensures 0 <= r.1 <= |targets|
    ensures r.1 == 0 <==> !(0 <= k < |targets|)
  {
    if 0 <= k < |targets| then (targets[k], k + 1) else (vertexLabel, 0)
  }

  /** What `count` successive calls return, starting from counter `k`, and
      the counter they leave behind. */
  function Enumerate(targets: seq<Label>, vertexLabel: Label, k: int, count: nat): (seq<Label>, int)
    decreases count
  {
    if count == 0 then ([], k)
    else
      var (next, k') := NextNeighbor(targets, vertexLabel, k);
      var (rest, last) := Enumerate(targets, vertexLabel, k', count - 1);
      ([next] + rest, last)
  }

  /** From counter k, the calls return the remaining targets in order, then
      the label, and the counter is back at 0. */
  lemma {:induction false} EnumerateFrom(targets: seq<Label>, vertexLabel: Label, k: nat)
    requires k <= |targets|
    ensures Enumerate(targets, vertexLabel, k, |targets| - k + 1) == (targets[k..] + [vertexLabel], 0)
    decreases |targets| - k
  {
    if k < |targets| {
      EnumerateFrom(targets, vertexLabel, k + 1);
      assert NextNeighbor(targets, vertexLabel, k) == (targets[k], k + 1);
      assert targets[k..] + [vertexLabel] == [targets[k]] + (targets[k + 1..] + [vertexLabel]);
    } else {
      assert NextNeighbor(targets, vertexLabel, k) == (vertexLabel, 0);
      assert Enumerate(targets, vertexLabel, 0, 0) == ([], 0);
      assert targets[k..] + [vertexLabel] == [vertexLabel] + [];
    }
  }

  /** After setIterations, n + 1 calls yield every target in ascending order
      and then the label, leaving the counter at 0 so the next n + 1 calls
      repeat the same round. */
  lemma FullRound(targets: seq<Label>, vertexLabel: Label)
    ensures Enumerate(targets, vertexLabel, 0, |targets| + 1) == (targets + [vertexLabel], 0)
  {
    EnumerateFrom(targets, vertexLabel, 0);
  }

  /** When the label is not among the targets (no self-loop), the label comes
      back exactly when the targets are exhausted, so a caller can use it as
      the end-of-list mark. */
  lemma {:induction false} SentinelMarksEnd(targets: seq<Label>, vertexLabel: Label, k: nat)
    requires vertexLabel !in targets
    requires k <= |targets|
    ensures NextNeighbor(targets, vertexLabel, k).0 == vertexLabel <==> k == |targets|
  {
    if k < |targets| {
      assert targets[k] in targets;
    }
  }

  /** From counter 0 the first call returns the least target (or the label
      when there is none), so nothing after it precedes a target. */
  lemma FirstCallLeast(targets: seq<Label>, vertexLabel: Label)
    requires StrictlyIncreasing(targets)
    ensures forall t :: t in targets ==> NextNeighbor(targets, vertexLabel, 0).0 <= t
  {
    forall t | t in targets ensures NextNeighbor(targets, vertexLabel, 0).0 <= t {
      var j :| 0 <= j < |targets| && targets[j] == t;
      if j > 0 {
        assert targets[0] < targets[j];
      }
    }
  }

  class Vertex {
    const vertexLabel: Label
    /** Outgoing edges keyed by target label (a std::map, iterated ascending). */
    var adjacency: map<Label, Edge>
    var visited: bool
    /** How many targets getNextNeighbor has handed out in the current round. */
    var iterations: int
    /** Position of the std::map iterator `currentNeighbor` in the ascending
        targets; |Targets()| stands for adjacencyList.end(). */
    var currentNeighbor: int

    /** Each edge is stored under its own end label, and no edge leads back to
        the vertex itself. */
    ghost predicate Valid()
      reads this`adjacency
    {
      forall t :: t in adjacency ==> adjacency[t].endVertex == t && t != vertexLabel
    }

    /** The vertex carries label l, keeps its invariant and has exactly the
        given edges. */
    ghost predicate Holds(l: Label, edges: map<Label, Edge>)
      reads this`adjacency
    {
      vertexLabel == l && Valid() && adjacency == edges
    }

    /** The targets in the order the adjacency map iterates them. */
    function Targets(): (r: seq<Label>)
      reads this`adjacency
      ensures StrictlyIncreasing(r)
      ensures forall t :: t in r <==> t in adjacency
    {
      SortedKeys(adjacency.Keys)
    }

    /** A new vertex has the given label and no edges; the flag and the
        counter are not initialised (setIterations / unvisit set them). */
    constructor (vertexLabel: Label)
      ensures this.vertexLabel == vertexLabel && adjacency == map[]
      ensures Valid()
    {
      this.vertexLabel := vertexLabel;
      adjacency := map[];
    }

    /** The label is a constant: it is the one given at construction, and
        no operation changes it. */
    function GetLabel(): (l: Label)
      ensures l == vertexLabel
    {
      vertexLabel
    }

    method Visit()
      modifies this`visited
      ensures visited
    {
      visited := true;
    }

    method Unvisit()
      modifies this`visited
      ensures !visited
    {
      visited := false;
    }

    /** The flag Visit sets and Unvisit clears. */
    function IsVisited(): (b: bool)
      reads this`visited
      ensures b == visited
    {
      visited
    }

    /** Adds an edge to endVertex unless endVertex is the vertex's own label.
        The duplicate check looks up the vertex's OWN label as a key, which is
        never present, so connecting to an existing target reports success
        and, std::map::insert not overwriting, keeps the old weight. */
    method Connect(endVertex: Label, edgeWeight: int) returns (ok: bool)
      modifies this`adjacency
      ensures ok == (endVertex != vertexLabel
                     && !(vertexLabel in old(adjacency) && old(adjacency)[vertexLabel].endVertex == endVertex))
      ensures !ok ==> adjacency == old(adjacency)
      ensures ok ==> adjacency == if endVertex in old(adjacency) then old(adjacency)
                                  else old(adjacency)[endVertex := Edge(endVertex, edgeWeight)]
      ensures old(Valid()) ==> Valid() && (ok <==> endVertex != vertexLabel)
    {
      var found := vertexLabel in adjacency;
      if endVertex == vertexLabel || (found && adjacency[vertexLabel].endVertex == endVertex) {
        return false;
      }
      if endVertex !in adjacency {
        adjacency := adjacency[endVertex := Edge(endVertex, edgeWeight)];
      }
      return true;
    }

    /** Removes the edge to endVertex; true exactly when there was one. */
    method Disconnect(endVertex: Label) returns (ok: bool)
      modifies this`adjacency
      ensures ok == (endVertex in old(adjacency))
      ensures endVertex !in adjacency
      ensures forall t :: t != endVertex ==>
                (t in adjacency <==> t in old(adjacency))
                && (t in adjacency ==> adjacency[t] == old(adjacency)[t])
      ensures old(Valid()) ==> Valid()
    {
      if endVertex in adjacency {
        adjacency := adjacency - {endVertex};
        return true;
      }
      return false;
    }

    /** The weight of the edge to endVertex, or -1 when there is none. */
    function GetEdgeWeight(endVertex: Label): (w: int)
      reads this`adjacency
      requires Valid()
      ensures endVertex in adjacency ==> w == adjacency[endVertex].weight
      ensures endVertex !in adjacency ==> w == -1
    {
      if endVertex in adjacency && adjacency[endVertex].endVertex == endVertex then
        adjacency[endVertex].weight
      else
        -1
    }

    /** The number of targets, which is also the length of one enumeration
        round before the end mark. */
    function GetNumberOfNeighbors(): (n: int)
      reads this`adjacency
      ensures n == |Targets()| == |adjacency.Keys|
    {
      |adjacency|
    }

    /** Points the iterator at the first target; the counter that actually
        drives getNextNeighbor is left alone. */
    method ResetNeighbor()
      modifies this`currentNeighbor
      ensures currentNeighbor == 0
    {
      currentNeighbor := 0;
    }

    /** Walks the adjacency map from its start and returns the target whose
        position equals the counter, advancing the counter; past the end it
        returns the vertex's own label and resets the counter. */
    method GetNextNeighbor() returns (next: Label)
      requires Valid()
      modifies this`iterations, this`currentNeighbor
      ensures (next, iterations) == NextNeighbor(Targets(), vertexLabel, old(iterations))
      ensures currentNeighbor == if 0 <= old(iterations) < |Targets()| then old(iterations)
                                 else |Targets()|
    {
      var targets := SortedKeys(adjacency.Keys);
      var c := 0;
      currentNeighbor := 0;
      while currentNeighbor < |targets|
        invariant 0 <= currentNeighbor <= |targets| && c == currentNeighbor
        invariant iterations == old(iterations)
        invariant iterations < 0 || c <= iterations
      {
        if c == iterations {
          iterations := iterations + 1;
          return adjacency[targets[currentNeighbor]].endVertex;
        }
        c := c + 1;
        currentNeighbor := currentNeighbor + 1;
      }
      iterations := 0;
      return vertexLabel;
    }

    method SetIterations()
      modifies this`iterations
      ensures iterations == 0
    {
      iterations := 0;
    }

    /** Vertices are equal when their labels are, that is, when neither
        precedes the other. */
    predicate Equal(other: Vertex)
      ensures Equal(other) <==> !Less(other) && !other.Less(this)
    {
      vertexLabel == other.vertexLabel
    }

    /** Vertices are ordered by label: one precedes another exactly when
        their labels differ and the other's label is not the smaller. */
    predicate Less(other: Vertex)
      ensures Less(other) <==> vertexLabel != other.vertexLabel && !(other.vertexLabel < vertexLabel)
    {
      vertexLabel < other.vertexLabel
    }
  }

  /** Comparison of vertices is a strict total order on labels, compatible
      with Equal. */
  lemma VertexOrder(a: Vertex, b: Vertex, c: Vertex)
    ensures a.Equal(b) <==> a.vertexLabel == b.vertexLabel
    ensures !a.Less(a)
    ensures a.Less(b) && b.Less(c) ==> a.Less(c)
    ensures a.Less(b) || a.Equal(b) || b.Less(a)
    ensures a.Less(b) ==> !a.Equal(b) && !b.Less(a)
  {
  }
}
