/**
 * Cities: the city type the tour builder works on and the distance it uses.
 */
module Cities {
  /** The largest value of a 32-bit `int`; the nearest-city scan starts from it. */
  const INT_MAX: int := 0x7fff_ffff

  /** A city of the coordinate list: its identifier and its position. */
  datatype Node = Node(id: nat, x: real, y: real)

  /**
   * `Node::distance`, as the builder stores it into `int` variables. Its body
   * (a square root over doubles) is not part of this model, so the distance is
   * a parameter of every operation that needs it.
   */
  type Distance = (Node, Node) -> int

  /** Every stored distance is non-negative and strictly below `INT_MAX`. */
  ghost predicate ValidDistance(dist: Distance)
  {
    forall a: Node, b: Node :: 0 <= dist(a, b) < INT_MAX
  }
}
