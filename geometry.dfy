/** The geometric values of the collider editor: vertices, polylines and the
    static edges built from them. */
module Geometry {

  /** A vertex. Mouse coordinates arrive as integers, and the model keeps them
      exact (the source stores them in floats). */
  datatype Point = Point(x: int, y: int)

  /** An ofPolyline: its vertices in drawing order. */
  type Polyline = seq<Point>

  /** A static collider edge: the vertex sequence copied from the polyline it
      was built from. The physics body it is handed to is not modelled. */
  datatype Edge = Edge(vertices: seq<Point>)

  /** vector::back */
  function Last<T>(s: seq<T>): T
    requires |s| > 0
  {
    s[|s| - 1]
  }

  /** The vector after pop_back */
  function DropLast<T>(s: seq<T>): seq<T>
    requires |s| > 0
  {
    s[..|s| - 1]
  }
}
