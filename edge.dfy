/** The store's `Edge`: an immutable (source, destination, weight) triple. */
module Edges {
  import opened JavaInt

  /**
   * All three fields are final in the source, so an edge is a value; the
   * destructors `sourceNode`, `destinationNode` and `weight` are its getters.
   */
  datatype Edge = Edge(sourceNode: string, destinationNode: string, weight: Int32)
}
