/** The axis helpers of the flex layout (kyute/src/widget/flex.rs). They only
    pick a coordinate, so the `f64` lengths are reals here. */
module Flex {

  datatype Axis = Horizontal | Vertical

  /** `Size`: a width and a height. */
  datatype Size = Size(width: real, height: real)

  /** `Axis::cross_axis`: the other axis. */
  function CrossAxis(a: Axis): (r: Axis)
    ensures r != a
  {
    match a
    case Horizontal => Vertical
    case Vertical => Horizontal
  }

  /** `Axis::main_len`: the extent of `size` along the axis. */
  function MainLen(a: Axis, size: Size): (r: real)
    ensures a == Horizontal ==> r == size.width
    ensures a == Vertical ==> r == size.height
  {
    match a
    case Vertical => size.height
    case Horizontal => size.width
  }

  /** `Axis::cross_len`: the extent of `size` across the axis. */
  function CrossLen(a: Axis, size: Size): (r: real)
    ensures a == Horizontal ==> r == size.height
    ensures a == Vertical ==> r == size.width
  {
    match a
    case Vertical => size.width
    case Horizontal => size.height
  }

  /** Taking the cross axis twice gives back the axis. */
  lemma {:induction false} CrossAxisInvolution(a: Axis)
    ensures CrossAxis(CrossAxis(a)) == a
  {
  }

  /** The length across an axis is the length along its cross axis, and the
      two lengths of an axis are the two sides of the size. */
  lemma {:induction false} CrossLenIsMainOfCross(a: Axis, size: Size)
    ensures CrossLen(a, size) == MainLen(CrossAxis(a), size)
    ensures MainLen(a, size) == CrossLen(CrossAxis(a), size)
    ensures {MainLen(a, size), CrossLen(a, size)} == {size.width, size.height}
  {
  }
}
