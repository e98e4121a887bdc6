/**
 * The values stored in the state-flow graph: crawled states (vertices) and the
 * clickables (events) on the edges between them.
 */
module States {

  /** The id that `StateVertex.INDEX_ID` reserves for the index (initial) state. */
  const IndexId: int := 0

  /**
   * A crawled state, with the fields `newStateFor` passes to the StateVertex constructor.
   * Two states are the same state when their stripped DOM is equal (`SameState`).
   */
  datatype StateVertex = StateVertex(id: int, url: string, name: string, dom: string, strippedDom: string)

  /** An event fired on an element; its description is what identifies it. */
  datatype Eventable = Eventable(description: string)

  /** A clickable together with the source and target vertices it was added with. */
  datatype Edge = Edge(source: StateVertex, target: StateVertex, clickable: Eventable)

  /** The content key on which the graph compares vertices. */
  function Key(v: StateVertex): string {
    v.strippedDom
  }

  /** `StateVertex.equals`: equality of the stripped DOM, whatever the id, url, name or raw DOM. */
  predicate SameState(a: StateVertex, b: StateVertex) {
    Key(a) == Key(b)
  }

}
