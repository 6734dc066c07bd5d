/** The grid of boxes of the treasure hunt: one record per box and the counts
    the game's invariants are stated with. */
module Boxes {

  /** Number of boxes on the board; the grid is created with this length and
      the treasure index is drawn below it. */
  const GridSize: nat := 100

  /** One box of the board: whether the player has opened it and whether it
      hides the treasure. */
  datatype Box = Box(isOpen: bool, isTreasure: bool)

  /** The box every grid cell starts as: closed and empty. */
  const ClosedBox: Box := Box(false, false)

  /** A grid of `n` closed, empty boxes. */
  function ClosedGrid(n: nat): (g: seq<Box>)
    ensures |g| == n
    ensures forall j :: 0 <= j < n ==> !g[j].isOpen && !g[j].isTreasure
  {
    seq(n, _ => ClosedBox)
  }

  /** Number of opened boxes in `g`. */
  function CountOpened(g: seq<Box>): nat
  {
    if |g| == 0 then 0
    else (if g[|g| - 1].isOpen then 1 else 0) + CountOpened(g[..|g| - 1])
  }

  /** Number of boxes of `g` that hide a treasure. */
  function CountTreasures(g: seq<Box>): nat
  {
    if |g| == 0 then 0
    else (if g[|g| - 1].isTreasure then 1 else 0) + CountTreasures(g[..|g| - 1])
  }

  /** The opened count never exceeds the grid length, and it is zero exactly
      when no box is open. */
  lemma {:induction false} CountOpenedBounds(g: seq<Box>)
    ensures CountOpened(g) <= |g|
    ensures CountOpened(g) == 0 <==> forall j :: 0 <= j < |g| ==> !g[j].isOpen
  {
    if |g| > 0 {
      var h := g[..|g| - 1];
      CountOpenedBounds(h);
      assert forall j :: 0 <= j < |h| ==> h[j] == g[j];
    }
  }

  /** Replacing one box changes the opened count by the difference of the
      two boxes' `opened` flags. */
  lemma {:induction false} CountOpenedUpdate(g: seq<Box>, i: int, b: Box)
    requires 0 <= i < |g|
    ensures CountOpened(g[i := b]) + (if g[i].isOpen then 1 else 0)
         == CountOpened(g) + (if b.isOpen then 1 else 0)
  {
    var n := |g| - 1;
    if i < n {
      CountOpenedUpdate(g[..n], i, b);
      assert g[i := b][..n] == g[..n][i := b];
    } else {
      assert g[i := b][..n] == g[..n];
    }
  }

  /** A grid whose only treasure sits at index `t` holds exactly one
      treasure. */
  lemma {:induction false} SingleTreasureCount(g: seq<Box>, t: int)
    requires 0 <= t < |g|
    requires forall j :: 0 <= j < |g| ==> (g[j].isTreasure <==> j == t)
    ensures CountTreasures(g) == 1
  {
    var n := |g| - 1;
    var h := g[..n];
    if t == n {
      NoTreasureCount(h);
    } else {
      SingleTreasureCount(h, t);
    }
  }

  /** A grid in which no box hides a treasure has a treasure count of zero. */
  lemma {:induction false} NoTreasureCount(g: seq<Box>)
    requires forall j :: 0 <= j < |g| ==> !g[j].isTreasure
    ensures CountTreasures(g) == 0
  {
    if |g| > 0 {
      NoTreasureCount(g[..|g| - 1]);
    }
  }
}
