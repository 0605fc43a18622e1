/**
 * The bookkeeping of the falling-characters canvas: the number of
 * character columns, one drop position per column, the per-tick update of
 * every drop and the resize handler.
 */
module MatrixRain {

  /** The font size in pixels, which is also the width of a column. */
  const FontSize: nat := 20

  /** How far a drop falls per tick, in rows. */
  const Speed: real := 0.35

  /**
   * Math.floor(width / fontSize): the number of whole columns that fit in
   * the width.
   */
  function ColumnCount(width: nat): (n: nat)
    ensures n * FontSize <= width < (n + 1) * FontSize
  {
    var q := (width as real / FontSize as real).Floor;
    assert q as real * FontSize as real <= width as real;
    q
  }

  /**
   * Math.random() * h: the starting row of a drop, from a random number in
   * [0, 1). It lies in [0, h), and is 0 when the canvas has no height.
   */
  function InitialDrop(random: real, height: nat): (d: real)
    requires 0.0 <= random < 1.0
    ensures 0.0 <= d
    ensures height > 0 ==> d < height as real
    ensures height == 0 ==> d == 0.0
  {
    var d := random * height as real;
    assert height as real - d == (1.0 - random) * height as real;
    d
  }

  /** The starting drops, one per random number drawn. */
  function InitialDrops(randoms: seq<real>, height: nat): (ds: seq<real>)
    requires forall i :: 0 <= i < |randoms| ==> 0.0 <= randoms[i] < 1.0
    ensures |ds| == |randoms|
    ensures forall i :: 0 <= i < |ds| ==> ds[i] == InitialDrop(randoms[i], height)
  {
    seq(|randoms|, i requires 0 <= i < |randoms| => InitialDrop(randoms[i], height))
  }

  /**
   * One tick of every column: a drop falls by Speed, or is put back at the
   * top when its column's reset flag is set.
   */
  function Fall(drops: seq<real>, reset: seq<bool>): (next: seq<real>)
    requires |reset| == |drops|
    ensures |next| == |drops|
    ensures forall i :: 0 <= i < |next| && reset[i] ==> next[i] == 0.0
    ensures forall i :: 0 <= i < |next| && !reset[i] ==> next[i] == drops[i] + Speed
  {
    seq(|drops|, i requires 0 <= i < |drops| => if reset[i] then 0.0 else drops[i] + Speed)
  }

  /**
   * A tick keeps the number of columns; each new drop is the old one plus
   * Speed or 0, it is 0 exactly in the columns that reset, and drops that
   * were never negative stay so.
   */
  lemma FallColumn(drops: seq<real>, reset: seq<bool>, i: nat)
    requires |reset| == |drops| && i < |drops|
    requires drops[i] >= 0.0
    ensures |Fall(drops, reset)| == |drops|
    ensures Fall(drops, reset)[i] == drops[i] + Speed || Fall(drops, reset)[i] == 0.0
    ensures Fall(drops, reset)[i] == 0.0 <==> reset[i]
    ensures Fall(drops, reset)[i] >= 0.0
  {
  }

  /** The drops after a run of ticks, one reset vector per tick. */
  function FallAll(drops: seq<real>, resets: seq<seq<bool>>): (final: seq<real>)
    requires forall t :: 0 <= t < |resets| ==> |resets[t]| == |drops|
    ensures |final| == |drops|
    decreases |resets|
  {
    if |resets| == 0 then drops
    else FallAll(Fall(drops, resets[0]), resets[1..])
  }

  /** A column that no tick resets has fallen by Speed per tick. */
  lemma {:induction false} FallAllWithoutReset(drops: seq<real>, resets: seq<seq<bool>>, i: nat)
    requires forall t :: 0 <= t < |resets| ==> |resets[t]| == |drops|
    requires i < |drops|
    requires forall t :: 0 <= t < |resets| ==> !resets[t][i]
    ensures FallAll(drops, resets)[i] == drops[i] + |resets| as real * Speed
    decreases |resets|
  {
    if |resets| > 0 {
      var next := Fall(drops, resets[0]);
      assert next[i] == drops[i] + Speed;
      FallAllWithoutReset(next, resets[1..], i);
    }
  }

  /** A column that resets on the last tick is back at the top, whatever happened before. */
  lemma {:induction false} FallAllLastReset(drops: seq<real>, resets: seq<seq<bool>>, i: nat)
    requires forall t :: 0 <= t < |resets| ==> |resets[t]| == |drops|
    requires i < |drops| && |resets| > 0
    requires resets[|resets| - 1][i]
    ensures FallAll(drops, resets)[i] == 0.0
    decreases |resets|
  {
    var next := Fall(drops, resets[0]);
    if |resets| > 1 {
      FallAllLastReset(next, resets[1..], i);
    }
  }

  /**
   * The canvas animation's state. The width and height follow the window;
   * the column count and the drops array are fixed when the animation
   * starts, and the resize handler does not recompute them.
   */
  class Rain {
    var w: nat
    var h: nat
    /** The canvas element's width and height attributes. */
    var canvasWidth: nat
    var canvasHeight: nat
    /** The width the column count was computed from. */
    ghost const startWidth: nat
    const cols: nat
    const drops: array<real>

    ghost predicate Valid()
      reads this, drops
    {
      && cols == ColumnCount(startWidth)
      && drops.Length == cols
      && forall i :: 0 <= i < drops.Length ==> drops[i] >= 0.0
    }

    /**
     * Start-up: resize() records the window's size in w, h and the
     * canvas size, then one column per
     * FontSize pixels of width, each drop starting at Math.random() * h,
     * with the random numbers given as input.
     */
    constructor (innerWidth: nat, innerHeight: nat, randoms: seq<real>)
      requires |randoms| == ColumnCount(innerWidth)
      requires forall i :: 0 <= i < |randoms| ==> 0.0 <= randoms[i] < 1.0
      ensures Valid() && fresh(drops)
      ensures w == innerWidth && h == innerHeight && startWidth == innerWidth
      ensures canvasWidth == innerWidth && canvasHeight == innerHeight
      ensures drops[..] == InitialDrops(randoms, innerHeight)
    {
      w := innerWidth;
      h := innerHeight;
      canvasWidth := innerWidth;
      canvasHeight := innerHeight;
      startWidth := innerWidth;
      var n := ColumnCount(innerWidth);
      var ds := new real[n];
      var i := 0;
      while i < n
        invariant 0 <= i <= n
        invariant forall j :: 0 <= j < i ==> ds[j] == InitialDrop(randoms[j], innerHeight)
      {
        ds[i] := InitialDrop(randoms[i], innerHeight);
        i := i + 1;
      }
      cols := n;
      drops := ds;
    }

    /**
     * The window's resize listener: the new size goes to w and h and to the
     * canvas's width and height; the column count and the drops keep their
     * start-up values.
     */
    method Resize(innerWidth: nat, innerHeight: nat)
      requires Valid()
      modifies this`w, this`h, this`canvasWidth, this`canvasHeight
      ensures Valid()
      ensures w == innerWidth && h == innerHeight
      ensures canvasWidth == innerWidth && canvasHeight == innerHeight
      ensures cols == ColumnCount(startWidth) && drops.Length == cols
      ensures drops[..] == old(drops[..])
    {
      w := innerWidth;
      h := innerHeight;
      canvasWidth := innerWidth;
      canvasHeight := innerHeight;
    }

    /**
     * The drop update of one draw() tick: every column is visited once,
     * its drop falls by Speed and is put back to 0 when its reset flag
     * (its draw position is below the canvas and its random roll passed)
     * is set.
     */
    method Tick(reset: seq<bool>)
      requires Valid()
      requires |reset| == drops.Length
      modifies drops
      ensures Valid()
      ensures drops[..] == Fall(old(drops[..]), reset)
    {
      for i := 0 to drops.Length
        invariant forall j :: 0 <= j < i ==> drops[j] == Fall(old(drops[..]), reset)[j]
        invariant forall j :: i <= j < drops.Length ==> drops[j] == old(drops[j])
      {
        drops[i] := drops[i] + Speed;
        if reset[i] {
          drops[i] := 0.0;
        }
      }
    }
  }
}
