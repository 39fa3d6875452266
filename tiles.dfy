/** Screen-tile coordinates: the visible tile bounds, the row-major index of the
    drawn-tile bitmap, the leading-edge window kept when the view pans, and the
    15-tile neighbourhood invalidated around a changed tile. */
module Tiles {
  import Grid

  /** A tile coordinate (tx, ty, tz), or a block offset (dx, dy, dz). */
  datatype Vec3 = Vec3(x: int, y: int, z: int)

  /** The inclusive tile bounds minCols..maxCols by minRows..maxRows. */
  /** The bounds reaching cols columns and rows rows either side of the centre. */
  function Centred(cols: int, rows: int): Bounds {
    Bounds(-cols, cols, -rows, rows)
  }

  datatype Bounds = Bounds(minCols: int, maxCols: int, minRows: int, maxRows: int) {

    predicate NonEmpty() {
      minCols <= maxCols && minRows <= maxRows
    }

    function Columns(): int {
      maxCols - minCols + 1
    }

    function Rows(): int {
      maxRows - minRows + 1
    }

    /** Length of the row-major bitmap over these bounds. */
    function Len(): int {
      Rows() * Columns()
    }

    predicate Contains(x: int, y: int) {
      minCols <= x <= maxCols && minRows <= y <= maxRows
    }

    /** Bitmap index of tile (x, y): (y - minRows) * columns + (x - minCols). */
    function Index(x: int, y: int): int {
      (y - minRows) * Columns() + (x - minCols)
    }

    /** Column of bitmap index k. */
    function Col(k: int): int
      requires NonEmpty()
    {
      minCols + k % Columns()
    }

    /** Row of bitmap index k. */
    function Row(k: int): int
      requires NonEmpty()
    {
      minRows + k / Columns()
    }

    /** The part of the bitmap a pan by (dtx, dty) keeps: the bounds shrunk on
        the leading edge by one column past the horizontal delta, and by seven
        rows (moving down the rows) or five rows (moving up) past the vertical one. */
    function Window(dtx: int, dty: int): Bounds {
      Bounds(
        if dtx > 0 then minCols + dtx + 1 else minCols,
        if dtx < 0 then maxCols + dtx - 1 else maxCols,
        if dty > 0 then minRows + dty + 7 else minRows,
        if dty < 0 then maxRows + dty - 5 else maxRows)
    }
  }

  /** Every tile in bounds has an index inside the bitmap, and the index gives
      the tile back. */
  lemma IndexCoords(b: Bounds, x: int, y: int)
    requires b.Contains(x, y)
    ensures b.NonEmpty()
    ensures 0 <= b.Index(x, y) < b.Len()
    ensures b.Col(b.Index(x, y)) == x && b.Row(b.Index(x, y)) == y
  {
    Grid.FlatIndex(b.Columns(), b.Rows(), x - b.minCols, y - b.minRows);
  }

  /** Every tile in bounds has an index inside the bitmap. */
  lemma IndexInRange(b: Bounds, x: int, y: int)
    requires b.Contains(x, y)
    ensures 0 <= b.Index(x, y) < b.Len()
  {
    Grid.FlatInRange(b.Columns(), b.Rows(), x - b.minCols, y - b.minRows);
  }

  /** Every bitmap index is the index of a tile in bounds. */
  lemma CoordsIndex(b: Bounds, k: int)
    requires b.NonEmpty() && 0 <= k < b.Len()
    ensures b.Contains(b.Col(k), b.Row(k))
    ensures b.Index(b.Col(k), b.Row(k)) == k
  {
    Grid.FlatCoords(b.Columns(), b.Rows(), k);
  }

  /** Moving a tile by (dx, dy) moves its index by dy rows plus dx columns, the
      offset the pan adds to each bitmap index. */
  lemma IndexShift(b: Bounds, x: int, y: int, dx: int, dy: int)
    ensures b.Index(x + dx, y + dy) == b.Index(x, y) + dy * b.Columns() + dx
  {
    assert (y + dy - b.minRows) * b.Columns() == (y - b.minRows) * b.Columns() + dy * b.Columns();
  }

  /** The row after the last one starts at the end of the bitmap. */
  lemma IndexPastLastRow(b: Bounds)
    ensures b.Index(b.minCols, b.maxRows + 1) == b.Len()
  {
  }

  /** Every tile of the kept window, and the tile it was moved from, lie in
      bounds: no index the pan reads or writes is out of range. */
  lemma WindowInBounds(b: Bounds, dtx: int, dty: int, x: int, y: int)
    requires b.Window(dtx, dty).Contains(x, y)
    ensures b.Contains(x, y) && b.Contains(x - dtx, y - dty)
  {
  }

  /** The flag a pan by (dtx, dty) leaves at tile (x, y): the flag of the tile
      it was moved from when (x, y) is in the kept window, otherwise false. */
  function RemapAt(flags: seq<bool>, b: Bounds, dtx: int, dty: int, x: int, y: int): bool
    requires |flags| == b.Len()
  {
    if b.Window(dtx, dty).Contains(x, y) then
      WindowInBounds(b, dtx, dty, x, y);
      IndexInRange(b, x - dtx, y - dty);
      flags[b.Index(x - dtx, y - dty)]
    else
      false
  }

  /** The whole bitmap after a pan by (dtx, dty). */
  function Remapped(flags: seq<bool>, b: Bounds, dtx: int, dty: int): (r: seq<bool>)
    requires b.NonEmpty() && |flags| == b.Len()
    ensures |r| == |flags|
  {
    seq(b.Len(), k requires 0 <= k < b.Len() => RemapAt(flags, b, dtx, dty, b.Col(k), b.Row(k)))
  }

  /** The pan moves the flag of (x, y) to (x + dtx, y + dty) exactly when the
      target is in the kept window; every other target tile is cleared. */
  lemma RemappedMoves(flags: seq<bool>, b: Bounds, dtx: int, dty: int, x: int, y: int)
    requires b.NonEmpty() && |flags| == b.Len()
    requires b.Contains(x, y)
    ensures 0 <= b.Index(x, y) < |flags|
    ensures b.Window(dtx, dty).Contains(x + dtx, y + dty) ==>
              b.Contains(x + dtx, y + dty) && 0 <= b.Index(x + dtx, y + dty) < |flags| &&
              Remapped(flags, b, dtx, dty)[b.Index(x + dtx, y + dty)] == flags[b.Index(x, y)]
    ensures b.Contains(x + dtx, y + dty) && !b.Window(dtx, dty).Contains(x + dtx, y + dty) ==>
              0 <= b.Index(x + dtx, y + dty) < |flags| &&
              !Remapped(flags, b, dtx, dty)[b.Index(x + dtx, y + dty)]
  {
    IndexInRange(b, x, y);
    if b.Contains(x + dtx, y + dty) {
      var k := b.Index(x + dtx, y + dty);
      IndexCoords(b, x + dtx, y + dty);
      assert Remapped(flags, b, dtx, dty)[k] == RemapAt(flags, b, dtx, dty, x + dtx, y + dty);
    }
  }

  /** A pan never marks a tile drawn that was not drawn before: panning there
      and back keeps at most the flags that were already set. */
  lemma PanThereAndBack(flags: seq<bool>, b: Bounds, dtx: int, dty: int, x: int, y: int)
    requires b.NonEmpty() && |flags| == b.Len()
    requires b.Contains(x, y)
    ensures 0 <= b.Index(x, y) < |flags|
    ensures Remapped(Remapped(flags, b, dtx, dty), b, -dtx, -dty)[b.Index(x, y)] ==> flags[b.Index(x, y)]
  {
    IndexCoords(b, x, y);
    if b.Window(-dtx, -dty).Contains(x, y) {
      WindowInBounds(b, -dtx, -dty, x, y);
      RemappedMoves(flags, b, dtx, dty, x, y);
      RemappedMoves(Remapped(flags, b, dtx, dty), b, -dtx, -dty, x + dtx, y + dty);
    }
  }

  /** A pan's bitmap copy has visited the source indices below n: every target
      whose source index is below n holds the moved flag, every other target
      is still false. */
  ghost predicate RemapProgress(flags: seq<bool>, b: Bounds, dtx: int, dty: int, cur: seq<bool>, n: int)
    requires b.NonEmpty() && |flags| == b.Len()
  {
    |cur| == |flags| &&
    forall k :: 0 <= k < |cur| ==>
      cur[k] == (RemapAt(flags, b, dtx, dty, b.Col(k), b.Row(k)) && b.Index(b.Col(k) - dtx, b.Row(k) - dty) < n)
  }

  /** Before the copy, the all-false bitmap has visited nothing. */
  lemma RemapStart(flags: seq<bool>, b: Bounds, dtx: int, dty: int, cur: seq<bool>)
    requires b.NonEmpty() && |flags| == b.Len() && |cur| == |flags|
    requires forall k :: 0 <= k < |cur| ==> !cur[k]
    ensures RemapProgress(flags, b, dtx, dty, cur, 0)
  {
    forall k | 0 <= k < |cur| && b.Window(dtx, dty).Contains(b.Col(k), b.Row(k))
      ensures b.Index(b.Col(k) - dtx, b.Row(k) - dty) >= 0
    {
      WindowInBounds(b, dtx, dty, b.Col(k), b.Row(k));
      IndexInRange(b, b.Col(k) - dtx, b.Row(k) - dty);
    }
  }

  /** Copying the flag of source tile (x, y) to its target, when the target is
      in the kept window, visits one more source index. */
  lemma RemapStep(flags: seq<bool>, b: Bounds, dtx: int, dty: int, x: int, y: int, cur: seq<bool>, cur': seq<bool>)
    requires b.NonEmpty() && |flags| == b.Len() && b.Contains(x, y) && 0 <= b.Index(x, y) < |flags|
    requires RemapProgress(flags, b, dtx, dty, cur, b.Index(x, y))
    requires b.Window(dtx, dty).Contains(x + dtx, y + dty) ==>
               0 <= b.Index(x + dtx, y + dty) < |cur| &&
               cur' == cur[b.Index(x + dtx, y + dty) := flags[b.Index(x, y)]]
    requires !b.Window(dtx, dty).Contains(x + dtx, y + dty) ==> cur' == cur
    ensures RemapProgress(flags, b, dtx, dty, cur', b.Index(x, y) + 1)
  {
    IndexCoords(b, x, y);
    if b.Window(dtx, dty).Contains(x + dtx, y + dty) {
      WindowInBounds(b, dtx, dty, x + dtx, y + dty);
      IndexCoords(b, x + dtx, y + dty);
    }
    forall k | 0 <= k < |cur'|
      ensures cur'[k] == (RemapAt(flags, b, dtx, dty, b.Col(k), b.Row(k)) &&
                          b.Index(b.Col(k) - dtx, b.Row(k) - dty) < b.Index(x, y) + 1)
    {
      CoordsIndex(b, k);
      if b.Window(dtx, dty).Contains(b.Col(k), b.Row(k)) {
        WindowInBounds(b, dtx, dty, b.Col(k), b.Row(k));
        IndexCoords(b, b.Col(k) - dtx, b.Row(k) - dty);
      }
    }
  }

  /** Once every source index is visited, the copy is the remapped bitmap. */
  lemma RemapComplete(flags: seq<bool>, b: Bounds, dtx: int, dty: int, cur: seq<bool>)
    requires b.NonEmpty() && |flags| == b.Len()
    requires RemapProgress(flags, b, dtx, dty, cur, b.Len())
    ensures cur == Remapped(flags, b, dtx, dty)
  {
    forall k | 0 <= k < |cur| && b.Window(dtx, dty).Contains(b.Col(k), b.Row(k))
      ensures b.Index(b.Col(k) - dtx, b.Row(k) - dty) < b.Len()
    {
      WindowInBounds(b, dtx, dty, b.Col(k), b.Row(k));
      IndexInRange(b, b.Col(k) - dtx, b.Row(k) - dty);
    }
  }

  /** Indices below n whose flag is clear, in increasing order: the tiles a
      slice pass composites, in the order it visits them. */
  function Unflagged(flags: seq<bool>, n: nat): (r: seq<int>)
    requires n <= |flags|
    ensures forall j :: 0 <= j < |r| ==> 0 <= r[j] < n && !flags[r[j]]
    decreases n
  {
    if n == 0 then []
    else Unflagged(flags, n - 1) + (if flags[n - 1] then [] else [n - 1])
  }

  /** Unflagged lists every clear index below n. */
  lemma {:induction false} UnflaggedComplete(flags: seq<bool>, n: nat)
    requires n <= |flags|
    ensures forall i :: 0 <= i < n && !flags[i] ==> i in Unflagged(flags, n)
  {
    if n > 0 {
      UnflaggedComplete(flags, n - 1);
      var u, r := Unflagged(flags, n - 1), Unflagged(flags, n);
      assert r == u + (if flags[n - 1] then [] else [n - 1]);
      assert forall j :: 0 <= j < |u| ==> r[j] == u[j];
    }
  }

  /** Unflagged lists the clear indices in increasing order, so each once. */
  lemma {:induction false} UnflaggedIncreasing(flags: seq<bool>, n: nat)
    requires n <= |flags|
    ensures forall j, l :: 0 <= j < l < |Unflagged(flags, n)| ==> Unflagged(flags, n)[j] < Unflagged(flags, n)[l]
  {
    if n > 0 {
      UnflaggedIncreasing(flags, n - 1);
      var u, r := Unflagged(flags, n - 1), Unflagged(flags, n);
      assert r == u + (if flags[n - 1] then [] else [n - 1]);
      assert forall j :: 0 <= j < |u| ==> r[j] == u[j];
    }
  }

  /** Tile (x, y) lies in the window of one column either side and two rows
      above and below tile t, the area a changed tile invalidates. */
  predicate Near(t: Vec3, x: int, y: int) {
    t.x - 1 <= x <= t.x + 1 && t.y - 2 <= y <= t.y + 2
  }

  /** The row test of the slice pass, for row ty with the start block at
      height startY: the row is skipped when ty < ty - startY or
      ty > ty + (256 - startY). */
  predicate RowSkipped(ty: int, startY: int) {
    ty < ty - startY || ty > ty + (256 - startY)
  }

  /** The row test does not depend on the row: either every row is skipped
      or none is, according to the start height alone. */
  lemma RowSkipUniform(ty: int, startY: int)
    ensures RowSkipped(ty, startY) <==> startY < 0 || startY > 256
  {
  }
}
