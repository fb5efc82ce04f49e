/** Shared value types of the contour core: points in world space, JavaScript's
    `null` as an absent value, and the one failure the chaining code can raise. */
module Geometry {

  /** A value that may be absent; `None` stands for JavaScript's `null`. */
  datatype Option<+T> = None | Some(value: T)

  /** Why a computation stopped early. Reading a coordinate of a `null`
      vertex raises a TypeError in JavaScript; this is the only fault the
      modelled code can produce. */
  datatype Fault = NullVertex

  /** The outcome of a computation that may raise `Fault`; usable with `:-`. */
  datatype Result<+T> = Ok(value: T) | Err(fault: Fault) {

    predicate IsFailure() {
      Err?
    }

    function PropagateFailure<U>(): Result<U>
      requires Err?
    {
      Err(fault)
    }

    function Extract(): T
      requires Ok?
    {
      value
    }
  }

  /** A point with exact real coordinates (IEEE rounding is not modelled). */
  datatype Point = Point(x: real, y: real, z: real)

  /** A polyline vertex as stored by a `Line`: a point, or `null`. */
  type Vertex = Option<Point>

  function Abs(r: real): (a: real)
    ensures 0.0 <= a
    ensures a == r || a == -r
  {
    if r < 0.0 then -r else r
  }
}
