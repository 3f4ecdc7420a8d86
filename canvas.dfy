/**
 * Canvas geometry of a job: 32-bit coordinates (Java int, with its wrap-around),
 * locations, notes, the running minimum and maximum, and icon hit-testing.
 */
module Canvas {

  /** A Java int. */
  newtype int32 = x: int | -0x8000_0000 <= x < 0x8000_0000

  /** Integer.MAX_VALUE, the start value of the minimum search. */
  const INT_MAX: int32 := 0x7FFF_FFFF

  /** Margin kept around the left and top edge of the drawing (JobMeta.BORDER_INDENT). */
  const BORDER_INDENT: int32 := 20

  /** The extra room getMaximum adds to the right and at the bottom. */
  const MAX_MARGIN: int32 := 100

  /**
   * Two's-complement wrap-around of an int addition: the sum of two ints lies within
   * 2^32 of the int range, and the result is that sum moved by 2^32 into the range.
   */
  function Wrap(v: int): (r: int32)
    requires -0x1_0000_0000 <= v < 0x1_0000_0000
    ensures -0x8000_0000 <= v < 0x8000_0000 ==> r as int == v
    ensures v >= 0x8000_0000 ==> r as int == v - 0x1_0000_0000 && r < 0
    ensures v < -0x8000_0000 ==> r as int == v + 0x1_0000_0000 && r >= 0
  {
    if v >= 0x8000_0000 then (v - 0x1_0000_0000) as int32
    else if v < -0x8000_0000 then (v + 0x1_0000_0000) as int32
    else v as int32
  }

  datatype Point = Point(x: int32, y: int32)

  /** A note on the canvas: only its box and selection take part in this model. */
  datatype Note = Note(location: Point, width: int32, height: int32, selected: bool)

  /** The running minimum a loop `if (v < m) m = v` computes over xs, starting from init. */
  function MinOf(xs: seq<int32>, init: int32): (m: int32)
    ensures m <= init
  {
    if |xs| == 0 then init
    else
      var m := MinOf(xs[..|xs| - 1], init);
      if xs[|xs| - 1] < m then xs[|xs| - 1] else m
  }

  /** The running maximum a loop `if (v > m) m = v` computes over xs, starting from init. */
  function MaxOf(xs: seq<int32>, init: int32): (m: int32)
    ensures m >= init
  {
    if |xs| == 0 then init
    else
      var m := MaxOf(xs[..|xs| - 1], init);
      if xs[|xs| - 1] > m then xs[|xs| - 1] else m
  }

  /** The running minimum is below every element and is the start value or one of the elements. */
  lemma {:induction false} MinOfBounds(xs: seq<int32>, init: int32)
    ensures forall i :: 0 <= i < |xs| ==> MinOf(xs, init) <= xs[i]
    ensures MinOf(xs, init) == init || exists i :: 0 <= i < |xs| && MinOf(xs, init) == xs[i]
    decreases |xs|
  {
    if |xs| > 0 {
      var t := xs[..|xs| - 1];
      MinOfBounds(t, init);
      assert forall i :: 0 <= i < |t| ==> t[i] == xs[i];
    }
  }

  /** The running maximum is above every element and is the start value or one of the elements. */
  lemma {:induction false} MaxOfBounds(xs: seq<int32>, init: int32)
    ensures forall i :: 0 <= i < |xs| ==> MaxOf(xs, init) >= xs[i]
    ensures MaxOf(xs, init) == init || exists i :: 0 <= i < |xs| && MaxOf(xs, init) == xs[i]
    decreases |xs|
  {
    if |xs| > 0 {
      var t := xs[..|xs| - 1];
      MaxOfBounds(t, init);
      assert forall i :: 0 <= i < |t| ==> t[i] == xs[i];
    }
  }

  lemma MinOfStep(xs: seq<int32>, init: int32, i: nat)
    requires i < |xs|
    ensures MinOf(xs[..i + 1], init) == (if xs[i] < MinOf(xs[..i], init) then xs[i] else MinOf(xs[..i], init))
  {
    assert xs[..i + 1][..i] == xs[..i];
  }

  lemma MaxOfStep(xs: seq<int32>, init: int32, i: nat)
    requires i < |xs|
    ensures MaxOf(xs[..i + 1], init) == (if xs[i] > MaxOf(xs[..i], init) then xs[i] else MaxOf(xs[..i], init))
  {
    assert xs[..i + 1][..i] == xs[..i];
  }

  /**
   * The border rule of getMinimum: keep BORDER_INDENT free in front of the smallest
   * coordinate, or use 0 when it is too close to the edge or nothing was found.
   */
  function Border(m: int32): (r: int32)
    ensures 0 <= r
    ensures m != INT_MAX && m > BORDER_INDENT ==> r as int + BORDER_INDENT as int == m as int
    ensures (m == INT_MAX || m <= BORDER_INDENT) ==> r == 0
  {
    if m > BORDER_INDENT && m != INT_MAX then m - BORDER_INDENT else 0
  }

  /** The border keeps every coordinate other than INT_MAX at least BORDER_INDENT away, or sits at 0. */
  lemma BorderFits(xs: seq<int32>, init: int32, k: nat)
    requires k < |xs| && xs[k] != INT_MAX
    ensures var b := Border(MinOf(xs, init)); b == 0 || b as int + BORDER_INDENT as int <= xs[k] as int
  {
    MinOfBounds(xs, init);
  }

  /**
   * When the largest coordinate plus the margin still fits in an int, the maximum point
   * lies a full margin beyond every coordinate.
   */
  lemma MarginCovers(xs: seq<int32>, init: int32, k: nat)
    requires k < |xs| && MaxOf(xs, init) as int + MAX_MARGIN as int <= INT_MAX as int
    ensures Wrap(MaxOf(xs, init) as int + MAX_MARGIN as int) as int >= xs[k] as int + MAX_MARGIN as int
  {
    MaxOfBounds(xs, init);
  }

  /** getJobEntryCopy's test: (x, y) lies in the icon square at p, with int addition. */
  predicate Hit(p: Point, x: int32, y: int32, iconsize: int32) {
    x >= p.x && x <= Wrap(p.x as int + iconsize as int) && y >= p.y && y <= Wrap(p.y as int + iconsize as int)
  }
}
