/** Labels and edges: the values a vertex's adjacency map stores. */
module Edges {

  /** A vertex label. The source keys everything by std::string and only uses
      equality and std::map's ascending order, so any totally ordered type
      will do; the model uses int. */
  type Label = int

  /** An outgoing edge: the label it leads to and its weight. */
  datatype Edge = Edge(endVertex: Label, weight: int)
}
