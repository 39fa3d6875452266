/** The incremental isometric renderer of a Maplands map display: the render
    reset, world-change filtering, dirty-tile repair, the per-tile occlusion
    test, the depth-slice pass, the time-budgeted scheduler, and panning. */
module Maplands {
  import opened Tiles
  import opened DepthCanvas
  import Grid

  datatype Option<T> = None | Some(value: T)

  /** The four diagonal view directions. */
  datatype Facing = NorthEast | NorthWest | SouthEast | SouthWest

  /** A zoom setting; the available ones are listed, in order, in Env.zoomLevels. */
  datatype ZoomLevel = ZoomLevel(ordinal: nat)

  datatype RenderMode =
    | Initialize   // render the whole map from scratch
    | FromCache    // the canvas already holds colour and depth from the cache
    | Translation  // the canvas was panned and has missing areas

  /** An inclusive box of block coordinates: the cheap pre-filter applied to
      world changes before the exact tile mapping. */
  datatype BlockBox = BlockBox(minX: int, minY: int, minZ: int, maxX: int, maxY: int, maxZ: int) {
    predicate Contains(x: int, y: int, z: int) {
      minX <= x <= maxX && minY <= y <= maxY && minZ <= z <= maxZ
    }

    function Offset(dx: int, dy: int, dz: int): BlockBox {
      BlockBox(minX + dx, minY + dy, minZ + dz, maxX + dx, maxY + dy, maxZ + dz)
    }
  }

  /** A sprite lookup: the view direction and zoom, and the block at
      (x, y, z) of world `world`. */
  datatype SpriteKey = SpriteKey(facing: Facing, zoom: ZoomLevel, world: int, x: int, y: int, z: int)

  /** The collaborators the renderer consults, given as functions: the
      block/tile coordinate mapping, the zoom geometry, the block-bounds
      computation and face rotation. Nothing is assumed about them (in
      particular no round trip between the two mappings). The sprite source
      is not among them: it reflects the world as it is at each tick and is
      passed to the methods that draw. */
  datatype Env = Env(
    screenTileToBlock: (Facing, Vec3) -> Option<Vec3>,
    blockToScreenTile: (Facing, Vec3) -> Option<Vec3>,
    columns: (ZoomLevel, nat) -> nat,
    rows: (ZoomLevel, nat) -> nat,
    drawX: (ZoomLevel, int) -> int,
    drawY: (ZoomLevel, int) -> int,
    screenX: (ZoomLevel, int) -> int,
    screenY: (ZoomLevel, int) -> int,
    relativeBounds: (Facing, BlockBox) -> BlockBox,
    rotate: (Facing, int) -> Facing,
    zoomLevels: seq<ZoomLevel>)
  {
    /** Number of tile columns either side of the centre at zoom z for a canvas w pixels wide. */
    function Columns(z: ZoomLevel, w: nat): nat {
      columns(z, w)
    }

    /** Number of tile rows either side of the centre at zoom z for a canvas h pixels high. */
    function Rows(z: ZoomLevel, h: nat): nat {
      rows(z, h)
    }

    /** The block box covered by the tile box `tiles` (columns, depths, rows),
        relative to the start block. */
    function BlockBounds(f: Facing, tiles: BlockBox): BlockBox {
      relativeBounds(f, tiles)
    }
  }

  /** Where the compositor draws: the sprite's top-left pixel and the sprite. */
  datatype Placement = Placement(x: int, y: int, sprite: Sprite)

  /** What one compositor call did to the canvas: where it drew (if at all),
      and the depth and colour buffers before and after the call. */
  datatype Effect = Effect(placement: Option<Placement>, depth0: seq<int>, pixels0: seq<byte>,
                           depth1: seq<int>, pixels1: seq<byte>)

  /** One call of the tile compositor: the tile, whether it was a slice-pass
      redraw, the canvas draw depth in force, whether it reported that a void
      remains, and its effect on the canvas. */
  datatype Composite = Composite(tx: int, ty: int, tz: int, redraw: bool, drawDepth: int, void: bool,
                                 effect: Effect)
  {
    /** The call was for tile (x, y, z) with these arguments and this answer. */
    predicate Is(x: int, y: int, z: int, isRedraw: bool, d: int, v: bool) {
      tx == x && ty == y && tz == z && redraw == isRedraw && drawDepth == d && void == v
    }
  }

  /** Everything a placement depends on: the collaborators, the world's
      sprites at the time of the call, the view direction, zoom, world and
      start block, and the canvas size. */
  datatype View = View(env: Env, sprites: SpriteKey -> Sprite, facing: Facing, zoom: ZoomLevel,
                       worldId: int, px: int, py: int, pz: int, width: nat, height: nat)

  /** A stored canvas: colours and depths. */
  datatype Snapshot = Snapshot(colours: seq<byte>, depths: seq<int>)

  /** Number of menu buttons: zoom in, zoom out, rotate left, rotate right. */
  const MENU_BUTTONS: int := 4

  /** World height in blocks. */
  const WORLD_HEIGHT: int := 256

  function Min(a: int, b: int): int {
    if a <= b then a else b
  }

  function TileOf(e: Composite): Vec3 {
    Vec3(e.tx, e.ty, e.tz)
  }

  /** The cursor after the dirty-tile drain: the lowest depth at which a
      redraw left a void, or z0 when none did or it is lower still. */
  function LowestVoidDepth(log: seq<Composite>, z0: int): (z: int)
    ensures z <= z0
    ensures forall i :: 0 <= i < |log| && log[i].void ==> z <= log[i].tz
    ensures z == z0 || exists i :: 0 <= i < |log| && log[i].void && log[i].tz == z
  {
    if |log| == 0 then z0
    else
      var z := LowestVoidDepth(log[..|log| - 1], z0);
      var e := log[|log| - 1];
      assert forall i :: 0 <= i < |log| - 1 ==> log[..|log| - 1][i] == log[i];
      if e.void then Min(z, e.tz) else z
  }

  /** Depths after a vertical pan by dty: every drawn depth moves by -dty as a
      16-bit value; voids stay voids. */
  function ShiftedDepths(buf: seq<int>, dty: int): (r: seq<int>)
    ensures |r| == |buf|
  {
    seq(|buf|, i requires 0 <= i < |buf| => if buf[i] == MAX_DEPTH then MAX_DEPTH else ToShort(buf[i] - dty))
  }

  /** A vertical pan and its opposite restore every depth, provided no drawn
      depth wraps around or lands on the void depth. */
  lemma ShiftedDepthsRoundTrip(buf: seq<int>, dty: int)
    requires forall i :: 0 <= i < |buf| ==> IsShort(buf[i])
    requires forall i :: 0 <= i < |buf| && buf[i] != MAX_DEPTH ==> IsShort(buf[i] - dty) && buf[i] - dty != MAX_DEPTH
    ensures ShiftedDepths(ShiftedDepths(buf, dty), -dty) == buf
  {
    var once := ShiftedDepths(buf, dty);
    var twice := ShiftedDepths(once, -dty);
    forall i | 0 <= i < |buf|
      ensures twice[i] == buf[i]
    {
      if buf[i] != MAX_DEPTH {
        assert once[i] == buf[i] - dty;
      }
    }
  }

  /** Wraps a menu index into 0..n-1 by adding or subtracting n. */
  method WrapMenuIndex(index: int, n: int) returns (r: int)
    requires n > 0
    ensures 0 <= r < n
    ensures r == index % n
  {
    r := index;
    ghost var q := 0;
    while r < 0
      invariant r == index + q * n
      decreases -r
    {
      r, q := r + n, q + 1;
    }
    while r >= n
      invariant r >= 0 && r == index + q * n
      decreases r
    {
      r, q := r - n, q - 1;
    }
    Grid.ModUnique(index, n, q, r);
  }

  /** Position of the first occurrence of v. */
  function FirstIndex<T(==)>(values: seq<T>, v: T): (i: nat)
    requires v in values
    ensures i < |values| && values[i] == v
    ensures forall j :: 0 <= j < i ==> values[j] != v
  {
    if values[0] == v then 0 else 1 + FirstIndex(values[1..], v)
  }

  /** v limited to lo..hi. */
  function Clamp(v: int, lo: int, hi: int): int {
    if v < lo then lo else if v > hi then hi else v
  }

  /** Index of the zoom level n steps from `level`, limited to the list. */
  method ZoomIndex<T(==)>(values: seq<T>, level: T, n: int) returns (idx: nat)
    requires level in values
    ensures idx < |values|
    ensures idx == Clamp(FirstIndex(values, level) + n, 0, |values| - 1)
  {
    var i := 0;
    while values[i] != level
      invariant 0 <= i <= FirstIndex(values, level)
      decreases FirstIndex(values, level) - i
    {
      i := i + 1;
    }
    idx := Clamp(i + n, 0, |values| - 1);
  }

  /** Tile (x, y) has been passed by the 3-by-5 sweep around t once the sweep
      reaches column offset dx and row offset dy. */
  predicate Swept(t: Vec3, x: int, y: int, dx: int, dy: int) {
    Near(t, x, y) && (x - t.x < dx || (x - t.x == dx && y - t.y < dy))
  }

  /** Where drawing the block at offset rb from the start block for tile
      (tx, ty) puts a sprite under view v: nowhere when the block's height is
      outside the world, or when it is air and this is a slice-pass redraw. */
  function PlacementAt(v: View, rb: Vec3, tx: int, ty: int, isRedraw: bool): Option<Placement> {
    var y := v.py + rb.y;
    if 0 <= y < WORLD_HEIGHT then
      var s := v.sprites(SpriteKey(v.facing, v.zoom, v.worldId, v.px + rb.x, y, v.pz + rb.z));
      if !s.air || !isRedraw then
        Some(Placement(v.env.drawX(v.zoom, tx) + v.width / 2, v.env.drawY(v.zoom, ty) + v.height / 2, s))
      else None
    else None
  }

  /** Where compositing tile (tx, ty, tz) puts a sprite under view v: nowhere
      when the tile maps to no block. */
  function PlacementOf(v: View, tx: int, ty: int, tz: int, isRedraw: bool): Option<Placement> {
    match v.env.screenTileToBlock(v.facing, Vec3(tx, ty, tz))
    case None => None
    case Some(rb) => PlacementAt(v, rb, tx, ty, isRedraw)
  }

  /** A canvas w pixels wide went from (depth0, pixels0) to (depth1, pixels1)
      by compositing at placement p with draw depth d, and `void` is the
      compositor's answer: true without drawing when there is no placement,
      otherwise whether a void remains under exactly the drawn sprite's
      footprint. */
  ghost predicate Painted(p: Option<Placement>, void: bool, d: int, w: nat,
                          depth0: seq<int>, pixels0: seq<byte>, depth1: seq<int>, pixels1: seq<byte>)
    requires w > 0
  {
    if p.None? then
      void && depth1 == depth0 && pixels1 == pixels0
    else
      var s := p.value.sprite;
      depth1 == PaintedDepth(depth0, w, p.value.x, p.value.y, s, d) &&
      pixels1 == PaintedPixels(pixels0, depth0, w, p.value.x, p.value.y, s, d) &&
      void == HasMoreDepthIn(depth1, w, p.value.x, p.value.y, s.width, s.height)
  }

  /** Log entry e is a compositor call under view v: it drew where v places
      the entry's tile, with the entry's draw depth, and its answer is the
      footprint void test after that draw. */
  ghost predicate Composited(v: View, e: Composite) {
    v.width > 0 && e.effect.placement == PlacementOf(v, e.tx, e.ty, e.tz, e.redraw) &&
    Painted(e.effect.placement, e.void, e.drawDepth, v.width,
            e.effect.depth0, e.effect.pixels0, e.effect.depth1, e.effect.pixels1)
  }

  /** Entry j + 1 of the log starts from the canvas entry j left. */
  ghost predicate Linked(log: seq<Composite>, j: int) {
    0 <= j < |log| - 1 &&
    log[j + 1].effect.depth0 == log[j].effect.depth1 && log[j + 1].effect.pixels0 == log[j].effect.pixels1
  }

  /** The log's entries from index `from` on took the canvas from (depth0,
      pixels0) to (depth1, pixels1), each one starting from the canvas the
      previous one left. */
  ghost predicate Chained(log: seq<Composite>, from: nat,
                          depth0: seq<int>, pixels0: seq<byte>, depth1: seq<int>, pixels1: seq<byte>)
  {
    from <= |log| &&
    (if |log| == from then depth1 == depth0 && pixels1 == pixels0
     else
       log[from].effect.depth0 == depth0 && log[from].effect.pixels0 == pixels0 &&
       log[|log| - 1].effect.depth1 == depth1 && log[|log| - 1].effect.pixels1 == pixels1) &&
    forall j {:trigger Linked(log, j)} :: from <= j < |log| - 1 ==> Linked(log, j)
  }

  /** The log's entries from index `from` on are compositor calls under view
      v that together took the canvas from (depth0, pixels0) to (depth1,
      pixels1). */
  ghost predicate Composites(v: View, log: seq<Composite>, from: nat,
                             depth0: seq<int>, pixels0: seq<byte>, depth1: seq<int>, pixels1: seq<byte>)
  {
    Chained(log, from, depth0, pixels0, depth1, pixels1) &&
    forall j {:trigger Composited(v, log[j])} :: from <= j < |log| ==> Composited(v, log[j])
  }

  /** Appending a call under v that starts from the canvas the log left. */
  lemma CompositesStep(v: View, log: seq<Composite>, from: nat,
                       depth0: seq<int>, pixels0: seq<byte>, depth1: seq<int>, pixels1: seq<byte>, e: Composite)
    requires Composites(v, log, from, depth0, pixels0, depth1, pixels1)
    requires Composited(v, e) && e.effect.depth0 == depth1 && e.effect.pixels0 == pixels1
    ensures Composites(v, log + [e], from, depth0, pixels0, e.effect.depth1, e.effect.pixels1)
  {
    var log' := log + [e];
    forall j | from <= j < |log'| - 1
      ensures Linked(log', j)
    {
      if j < |log| - 1 {
        assert Linked(log, j);
      }
    }
    forall j | from <= j < |log'|
      ensures Composited(v, log'[j])
    {
      if j < |log| {
        assert log'[j] == log[j] && Composited(v, log[j]);
      }
    }
  }

  /** Dropping the entries before `from`: the calls and their effect stay. */
  lemma CompositesSuffix(v: View, log: seq<Composite>, from: nat,
                         depth0: seq<int>, pixels0: seq<byte>, depth1: seq<int>, pixels1: seq<byte>)
    requires Composites(v, log, from, depth0, pixels0, depth1, pixels1)
    ensures Composites(v, log[from..], 0, depth0, pixels0, depth1, pixels1)
  {
    var tail := log[from..];
    forall j | 0 <= j < |tail| - 1
      ensures Linked(tail, j)
    {
      assert Linked(log, from + j);
    }
    forall j | 0 <= j < |tail|
      ensures Composited(v, tail[j])
    {
      assert tail[j] == log[from + j] && Composited(v, log[from + j]);
    }
  }

  /** A slice pass over bounds b at `depth` has handled the first n bitmap
      indices: starting from flags `before` and log `log0`, it composited, as
      redraws in index order, exactly the tiles whose flag was clear, set the
      flag of each one whose compositing left no void, and left every other
      flag as it was. */
  ghost predicate SliceLog(b: Bounds, before: seq<bool>, log0: seq<Composite>, depth: int, n: nat,
                           flags: seq<bool>, log: seq<Composite>)
  {
    n <= |before| && |flags| == |before| && b.NonEmpty() &&
    var u := Unflagged(before, n);
    |log| == |log0| + |u| && log[..|log0|] == log0 &&
    (forall j :: 0 <= j < |u| ==> log[|log0| + j].Is(b.Col(u[j]), b.Row(u[j]), depth, true, ToShort(depth), !flags[u[j]])) &&
    (forall k :: 0 <= k < |before| && (before[k] || k >= n) ==> flags[k] == before[k])
  }

  /** One tile of the slice pass: a flagged index is passed over; an unflagged
      one is composited and flagged unless a void remains. */
  lemma SliceLogStep(b: Bounds, before: seq<bool>, log0: seq<Composite>, depth: int, n: nat,
                     flags: seq<bool>, log: seq<Composite>, void: bool,
                     flags': seq<bool>, log': seq<Composite>)
    requires SliceLog(b, before, log0, depth, n, flags, log) && n < |before|
    requires before[n] ==> flags' == flags && log' == log
    requires !before[n] ==>
               |log'| == |log| + 1 && log'[..|log|] == log &&
               log'[|log|].Is(b.Col(n), b.Row(n), depth, true, ToShort(depth), void) &&
               |flags'| == |flags| && flags'[n] == !void &&
               forall k :: 0 <= k < |flags| && k != n ==> flags'[k] == flags[k]
    ensures SliceLog(b, before, log0, depth, n + 1, flags', log')
  {
    var u := Unflagged(before, n);
    var u' := Unflagged(before, n + 1);
    assert u' == u + (if before[n] then [] else [n]);
    if !before[n] {
      assert log'[..|log0|] == log[..|log0|];
      forall j | 0 <= j < |u'|
        ensures log'[|log0| + j].Is(b.Col(u'[j]), b.Row(u'[j]), depth, true, ToShort(depth), !flags'[u'[j]])
      {
        if j < |u| {
          assert u'[j] == u[j] && u[j] < n;
        }
      }
    }
  }

  /** Every entry a slice pass added is a redraw at its depth. */
  lemma SliceLogEntries(b: Bounds, before: seq<bool>, log0: seq<Composite>, depth: int, n: nat,
                        flags: seq<bool>, log: seq<Composite>)
    requires SliceLog(b, before, log0, depth, n, flags, log)
    ensures |log0| <= |log| && log[..|log0|] == log0
    ensures forall j :: |log0| <= j < |log| ==> log[j].redraw && log[j].tz == depth
    ensures forall k :: 0 <= k < |before| && before[k] ==> flags[k]
  {
    var u := Unflagged(before, n);
    forall j | |log0| <= j < |log|
      ensures log[j].redraw && log[j].tz == depth
    {
      var i := j - |log0|;
      assert 0 <= i < |u|;
      assert log[|log0| + i].Is(b.Col(u[i]), b.Row(u[i]), depth, true, ToShort(depth), !flags[u[i]]);
    }
  }

  /** A finished slice pass over bounds b composited exactly the tiles whose
      flag was clear: every such tile once, never a flagged one, in bitmap
      index order. */
  lemma SliceCompositesClearTiles(b: Bounds, before: seq<bool>, log0: seq<Composite>, depth: int,
                                  flags: seq<bool>, log: seq<Composite>)
    requires SliceLog(b, before, log0, depth, |before|, flags, log) && |before| == b.Len()
    ensures forall k :: 0 <= k < |before| && !before[k] ==>
              exists j :: |log0| <= j < |log| && log[j].tx == b.Col(k) && log[j].ty == b.Row(k)
    ensures forall j :: |log0| <= j < |log| ==>
              b.Contains(log[j].tx, log[j].ty) && !before[b.Index(log[j].tx, log[j].ty)]
    ensures forall j, l :: |log0| <= j < l < |log| ==>
              b.Index(log[j].tx, log[j].ty) < b.Index(log[l].tx, log[l].ty)
  {
    var u := Unflagged(before, |before|);
    UnflaggedComplete(before, |before|);
    UnflaggedIncreasing(before, |before|);
    forall k | 0 <= k < |before| && !before[k]
      ensures exists j :: |log0| <= j < |log| && log[j].tx == b.Col(k) && log[j].ty == b.Row(k)
    {
      var i :| 0 <= i < |u| && u[i] == k;
      assert log[|log0| + i].tx == b.Col(k) && log[|log0| + i].ty == b.Row(k);
    }
    forall j | |log0| <= j < |log|
      ensures b.Contains(log[j].tx, log[j].ty) && b.Index(log[j].tx, log[j].ty) == u[j - |log0|]
    {
      CoordsIndex(b, u[j - |log0|]);
    }
  }

  /** A finished slice pass under view v never flags a tile that v places no
      sprite at: compositing such a tile always reports a void. */
  lemma SliceUnplacedStaysClear(v: View, b: Bounds, before: seq<bool>, depth: int, flags: seq<bool>,
                                log: seq<Composite>, depth0: seq<int>, pixels0: seq<byte>,
                                depth1: seq<int>, pixels1: seq<byte>, k: int)
    requires SliceLog(b, before, [], depth, |before|, flags, log)
    requires Composites(v, log, 0, depth0, pixels0, depth1, pixels1)
    requires 0 <= k < |before| && !before[k] && PlacementOf(v, b.Col(k), b.Row(k), depth, true).None?
    ensures !flags[k]
  {
    var u := Unflagged(before, |before|);
    UnflaggedComplete(before, |before|);
    var j :| 0 <= j < |u| && u[j] == k;
    assert log[j].Is(b.Col(k), b.Row(k), depth, true, ToShort(depth), !flags[k]);
    assert Composited(v, log[j]);
  }

  /** Dropping the last call of a log of calls under v: the rest ends at the
      canvas that call started from. */
  lemma CompositesInit(v: View, log: seq<Composite>, from: nat,
                       depth0: seq<int>, pixels0: seq<byte>, depth1: seq<int>, pixels1: seq<byte>)
    requires Composites(v, log, from, depth0, pixels0, depth1, pixels1) && |log| > from
    ensures Composites(v, log[..|log| - 1], from, depth0, pixels0,
                       log[|log| - 1].effect.depth0, log[|log| - 1].effect.pixels0)
    ensures Composited(v, log[|log| - 1])
    ensures log[|log| - 1].effect.depth1 == depth1 && log[|log| - 1].effect.pixels1 == pixels1
  {
    var init := log[..|log| - 1];
    if |init| > from {
      assert Linked(log, |log| - 2);
    }
    forall j | from <= j < |init| - 1
      ensures Linked(init, j)
    {
      assert Linked(log, j);
    }
    forall j | from <= j < |init|
      ensures Composited(v, init[j])
    {
      assert init[j] == log[j] && Composited(v, log[j]);
    }
    assert Composited(v, log[|log| - 1]);
  }

  /** Calls under v that all draw with depth d change a depth entry, if at
      all, to d, and leave the buffer's size. */
  lemma {:induction false} CompositesDepthFrame(v: View, log: seq<Composite>, from: nat,
                                                depth0: seq<int>, pixels0: seq<byte>,
                                                depth1: seq<int>, pixels1: seq<byte>, d: int)
    requires Composites(v, log, from, depth0, pixels0, depth1, pixels1)
    requires forall j :: from <= j < |log| ==> log[j].drawDepth == d
    ensures |depth1| == |depth0|
    ensures forall k :: 0 <= k < |depth0| ==> depth1[k] == depth0[k] || depth1[k] == d
    decreases |log|
  {
    if |log| > from {
      var e := log[|log| - 1];
      CompositesInit(v, log, from, depth0, pixels0, depth1, pixels1);
      CompositesDepthFrame(v, log[..|log| - 1], from, depth0, pixels0, e.effect.depth0, e.effect.pixels0, d);
    }
  }

  /** A finished slice pass at `depth` under view v changes a depth entry, if
      at all, to the layer's draw depth. */
  lemma SliceDepthFrame(v: View, b: Bounds, before: seq<bool>, depth: int, flags: seq<bool>,
                        log: seq<Composite>, depth0: seq<int>, pixels0: seq<byte>,
                        depth1: seq<int>, pixels1: seq<byte>)
    requires SliceLog(b, before, [], depth, |before|, flags, log)
    requires Composites(v, log, 0, depth0, pixels0, depth1, pixels1)
    ensures |depth1| == |depth0|
    ensures forall k :: 0 <= k < |depth0| ==> depth1[k] == depth0[k] || depth1[k] == ToShort(depth)
  {
    var u := Unflagged(before, |before|);
    forall j | 0 <= j < |log|
      ensures log[j].drawDepth == ToShort(depth)
    {
      assert log[0 + j].Is(b.Col(u[j]), b.Row(u[j]), depth, true, ToShort(depth), !flags[u[j]]);
    }
    CompositesDepthFrame(v, log, 0, depth0, pixels0, depth1, pixels1, ToShort(depth));
  }

  /** A drained tile that v places no sprite at reported a void, so the drain
      cleared the drawn flag of every tile near it. */
  lemma DrainUnplacedClearsNeighbourhood(v: View, b: Bounds, done: set<Vec3>, added: seq<Composite>,
                                         flags0: seq<bool>, flags: seq<bool>, z0: int, z: int, fwd0: bool, fwd: bool,
                                         depth0: seq<int>, pixels0: seq<byte>, depth1: seq<int>, pixels1: seq<byte>,
                                         t: Vec3, k: int)
    requires DrainLog(b, done, added, flags0, flags, z0, z, fwd0, fwd)
    requires Composites(v, added, 0, depth0, pixels0, depth1, pixels1)
    requires t in done && PlacementOf(v, t.x, t.y, t.z, false).None?
    requires 0 <= k < |flags0| && Near(t, b.Col(k), b.Row(k))
    ensures !flags[k] && fwd && z <= t.z
  {
    var i := EntryOf(done, added, t);
    assert Composited(v, added[i]);
  }

  /** Some compositing in the log left a void. */
  predicate AnyVoid(log: seq<Composite>) {
    exists i :: 0 <= i < |log| && log[i].void
  }

  /** The log composites each tile of `done` exactly once (as many entries as
      tiles, all of them tiles of `done`, no tile twice), as a non-redraw at
      the tile's own depth. */
  ghost predicate EachTileOnce(done: set<Vec3>, log: seq<Composite>) {
    |log| == |done| &&
    (forall i :: 0 <= i < |log| ==> TileOf(log[i]) in done) &&
    (forall i, j :: 0 <= i < j < |log| ==> TileOf(log[i]) != TileOf(log[j])) &&
    forall i :: 0 <= i < |log| ==> !log[i].redraw && log[i].drawDepth == ToShort(log[i].tz)
  }

  /** Flags after the log's voids cleared their neighbourhoods. */
  ghost predicate NeighbourhoodsCleared(b: Bounds, log: seq<Composite>, flags0: seq<bool>, flags: seq<bool>)
    requires b.NonEmpty()
  {
    |flags| == |flags0| &&
    forall k :: 0 <= k < |flags0| ==>
      flags[k] == (flags0[k] && forall i :: 0 <= i < |log| && log[i].void ==> !Near(TileOf(log[i]), b.Col(k), b.Row(k)))
  }

  /** The dirty-tile drain has handled the tiles in `done`, appending `added`
      to the log: starting from flags flags0, cursor z0 and forward-render flag
      fwd0, it composited each of them once, as a non-redraw at its own depth;
      every one that left a void cleared the drawn flags of its 15-tile
      neighbourhood, lowered the cursor to its depth and asked for a forward
      render; nothing else changed. */
  ghost predicate DrainLog(b: Bounds, done: set<Vec3>, added: seq<Composite>,
                           flags0: seq<bool>, flags: seq<bool>, z0: int, z: int, fwd0: bool, fwd: bool)
  {
    b.NonEmpty() &&
    EachTileOnce(done, added) &&
    NeighbourhoodsCleared(b, added, flags0, flags) &&
    z == LowestVoidDepth(added, z0) &&
    fwd == (fwd0 || AnyVoid(added))
  }

  /** The tiles of the log's entries. */
  ghost function TilesOf(log: seq<Composite>): set<Vec3> {
    set i | 0 <= i < |log| :: TileOf(log[i])
  }

  /** Entries with pairwise distinct tiles have as many tiles as entries. */
  lemma {:induction false} DistinctTilesCount(log: seq<Composite>)
    requires forall i, j :: 0 <= i < j < |log| ==> TileOf(log[i]) != TileOf(log[j])
    ensures |TilesOf(log)| == |log|
    decreases |log|
  {
    if |log| > 0 {
      var init, last := log[..|log| - 1], TileOf(log[|log| - 1]);
      DistinctTilesCount(init);
      assert TilesOf(log) == TilesOf(init) + {last};
      assert last !in TilesOf(init);
    }
  }

  /** A subset as large as its superset is the superset. */
  lemma SubsetSameSize(a: set<Vec3>, b: set<Vec3>)
    requires a <= b && |a| == |b|
    ensures a == b
  {
    assert b == a + (b - a);
    assert |b - a| == 0;
  }

  /** Every tile of `done` has its entry in a log that composites each tile
      of `done` once. */
  lemma EntryOf(done: set<Vec3>, log: seq<Composite>, t: Vec3) returns (i: int)
    requires EachTileOnce(done, log) && t in done
    ensures 0 <= i < |log| && TileOf(log[i]) == t
  {
    var tiles := TilesOf(log);
    DistinctTilesCount(log);
    SubsetSameSize(tiles, done);
    i :| 0 <= i < |log| && TileOf(log[i]) == t;
  }

  lemma EachTileOnceStep(done: set<Vec3>, log: seq<Composite>, e: Composite)
    requires EachTileOnce(done, log) && TileOf(e) !in done
    requires !e.redraw && e.drawDepth == ToShort(e.tz)
    ensures EachTileOnce(done + {TileOf(e)}, log + [e])
  {
    var log' := log + [e];
    forall i, j | 0 <= i < j < |log'|
      ensures TileOf(log'[i]) != TileOf(log'[j])
    {
      if j == |log| {
        assert TileOf(log'[i]) in done;
      }
    }
  }

  lemma NeighbourhoodsClearedStep(b: Bounds, log: seq<Composite>, flags0: seq<bool>, flags: seq<bool>,
                                  e: Composite, flags': seq<bool>)
    requires b.NonEmpty() && NeighbourhoodsCleared(b, log, flags0, flags) && |flags'| == |flags|
    requires e.void ==> forall k :: 0 <= k < |flags| ==> flags'[k] == (flags[k] && !Near(TileOf(e), b.Col(k), b.Row(k)))
    requires !e.void ==> flags' == flags
    ensures NeighbourhoodsCleared(b, log + [e], flags0, flags')
  {
    var log' := log + [e];
    forall k | 0 <= k < |flags0|
      ensures flags'[k] == (flags0[k] && forall i :: 0 <= i < |log'| && log'[i].void ==> !Near(TileOf(log'[i]), b.Col(k), b.Row(k)))
    {
      assert forall i :: 0 <= i < |log| ==> log'[i] == log[i];
      assert log'[|log|] == e;
    }
  }

  lemma LastStep(log: seq<Composite>, e: Composite, z0: int)
    ensures LowestVoidDepth(log + [e], z0) == if e.void then Min(LowestVoidDepth(log, z0), e.tz) else LowestVoidDepth(log, z0)
    ensures AnyVoid(log + [e]) == (AnyVoid(log) || e.void)
  {
    var log' := log + [e];
    assert log'[..|log|] == log;
    assert forall i :: 0 <= i < |log| ==> log'[i] == log[i];
    assert log'[|log|] == e;
  }

  /** Moving tile t from the remaining dirty tiles to the handled ones keeps
      the two a partition of the dirty set. */
  lemma MoveToDone(remaining: set<Vec3>, done: set<Vec3>, t: Vec3, tiles0: set<Vec3>)
    requires remaining + done == tiles0 && remaining !! done && t in remaining
    ensures (remaining - {t}) + (done + {t}) == tiles0 && (remaining - {t}) !! (done + {t})
    ensures t !in done
  {
  }

  /** Appending to a log that extends log0 by `added`. */
  lemma AppendToAdded(log0: seq<Composite>, added: seq<Composite>, e: Composite)
    ensures (log0 + added) + [e] == log0 + (added + [e])
  {
  }

  /** Before the drain nothing has been handled. */
  lemma DrainLogStart(b: Bounds, flags0: seq<bool>, z0: int, fwd0: bool)
    requires b.NonEmpty()
    ensures DrainLog(b, {}, [], flags0, flags0, z0, z0, fwd0, fwd0)
  {
  }

  /** One tile of the drain. */
  lemma DrainLogStep(b: Bounds, done: set<Vec3>, t: Vec3, added: seq<Composite>,
                     flags0: seq<bool>, flags: seq<bool>, z0: int, z: int, fwd0: bool, fwd: bool,
                     void: bool, e: Composite, flags': seq<bool>, z': int, fwd': bool)
    requires DrainLog(b, done, added, flags0, flags, z0, z, fwd0, fwd) && t !in done && |flags'| == |flags|
    requires e.Is(t.x, t.y, t.z, false, ToShort(t.z), void)
    requires void ==> fwd' && z' == Min(z, t.z) &&
                      forall k :: 0 <= k < |flags| ==> flags'[k] == (flags[k] && !Near(t, b.Col(k), b.Row(k)))
    requires !void ==> flags' == flags && fwd' == fwd && z' == z
    ensures DrainLog(b, done + {t}, added + [e], flags0, flags', z0, z', fwd0, fwd')
  {
    EachTileOnceStep(done, added, e);
    NeighbourhoodsClearedStep(b, added, flags0, flags, e, flags');
    LastStep(added, e, z0);
  }

  /** Relative to the log entries it added, a slice pass is one that started
      from an empty log. */
  lemma SliceLogSuffix(b: Bounds, before: seq<bool>, log0: seq<Composite>, depth: int, n: nat,
                       flags: seq<bool>, log: seq<Composite>)
    requires SliceLog(b, before, log0, depth, n, flags, log)
    ensures SliceLog(b, before, [], depth, n, flags, log[|log0|..])
  {
  }

  /** One step of the forward loop, at layer `depth`: whether it composited
      the layer (a forward render was needed), the drawn flags before and
      after it, the compositor calls it made, the canvas before and after it,
      and the forward flag it left. */
  datatype Pass = Pass(depth: int, rendered: bool, flags0: seq<bool>, flags1: seq<bool>, calls: seq<Composite>,
                       depth0: seq<int>, pixels0: seq<byte>, depth1: seq<int>, pixels1: seq<byte>, forward: bool)

  /** Pass p ran the slice pass over bounds b under view v when it rendered
      and rows are not skipped, and changed nothing otherwise; a rendering
      pass leaves the forward flag saying whether a void remains anywhere,
      one that did not render leaves it clear. */
  ghost predicate PassDone(v: View, b: Bounds, skip: bool, p: Pass) {
    p.forward == (p.rendered && HasVoid(p.depth1)) &&
    if p.rendered && !skip then
      SliceLog(b, p.flags0, [], p.depth, |p.flags0|, p.flags1, p.calls) &&
      Composites(v, p.calls, 0, p.depth0, p.pixels0, p.depth1, p.pixels1)
    else
      p.flags1 == p.flags0 && p.calls == [] && p.depth1 == p.depth0 && p.pixels1 == p.pixels0
  }

  /** The passes ps ran one after the other: the first started from forward
      flag fwd0, flags flags0, log log0 and canvas (depth0, pixels0), each
      later one from the state the one before it left, and the last one left
      flags `flags`, the log `log` (log0 followed by every pass's calls), the
      canvas (depth, pixels) and forward flag `fwd`. */
  ghost predicate PassChain(ps: seq<Pass>,
                            fwd0: bool, flags0: seq<bool>, log0: seq<Composite>, depth0: seq<int>, pixels0: seq<byte>,
                            flags: seq<bool>, log: seq<Composite>, depth: seq<int>, pixels: seq<byte>, fwd: bool)
    decreases |ps|
  {
    if |ps| == 0 then
      fwd == fwd0 && flags == flags0 && log == log0 && depth == depth0 && pixels == pixels0
    else
      var p := ps[|ps| - 1];
      p.flags1 == flags && p.depth1 == depth && p.pixels1 == pixels && p.forward == fwd &&
      |p.calls| <= |log| && log[|log| - |p.calls|..] == p.calls &&
      PassChain(ps[..|ps| - 1], fwd0, flags0, log0, depth0, pixels0,
                p.flags0, log[..|log| - |p.calls|], p.depth0, p.pixels0, p.rendered)
  }

  /** The passes ps, over layers z0, z0 + 1, ... in order, ran one after the
      other (PassChain) under view v over bounds b. */
  ghost predicate Passes(v: View, b: Bounds, skip: bool, ps: seq<Pass>, z0: int,
                         fwd0: bool, flags0: seq<bool>, log0: seq<Composite>, depth0: seq<int>, pixels0: seq<byte>,
                         flags: seq<bool>, log: seq<Composite>, depth: seq<int>, pixels: seq<byte>, fwd: bool)
  {
    PassChain(ps, fwd0, flags0, log0, depth0, pixels0, flags, log, depth, pixels, fwd) &&
    forall i {:trigger PassDone(v, b, skip, ps[i])} :: 0 <= i < |ps| ==>
      ps[i].depth == z0 + i && PassDone(v, b, skip, ps[i])
  }

  /** Appending a pass that starts from the state the others left. */
  lemma PassesStep(v: View, b: Bounds, skip: bool, ps: seq<Pass>, z0: int,
                   fwd0: bool, flags0: seq<bool>, log0: seq<Composite>, depth0: seq<int>, pixels0: seq<byte>,
                   flags: seq<bool>, log: seq<Composite>, depth: seq<int>, pixels: seq<byte>, fwd: bool,
                   p: Pass)
    requires Passes(v, b, skip, ps, z0, fwd0, flags0, log0, depth0, pixels0, flags, log, depth, pixels, fwd)
    requires p.depth == z0 + |ps| && p.rendered == fwd && p.flags0 == flags &&
             p.depth0 == depth && p.pixels0 == pixels && PassDone(v, b, skip, p)
    ensures Passes(v, b, skip, ps + [p], z0, fwd0, flags0, log0, depth0, pixels0,
                   p.flags1, log + p.calls, p.depth1, p.pixels1, p.forward)
  {
    var log', ps' := log + p.calls, ps + [p];
    assert ps'[..|ps|] == ps;
    assert log'[|log'| - |p.calls|..] == p.calls;
    assert log'[..|log'| - |p.calls|] == log;
    forall i | 0 <= i < |ps'|
      ensures ps'[i].depth == z0 + i && PassDone(v, b, skip, ps'[i])
    {
      if i < |ps| {
        assert ps'[i] == ps[i] && PassDone(v, b, skip, ps[i]);
      }
    }
  }

  /** What every sequence of passes keeps: the log only grows, by redraws at
      the passes' depths; no set flag is cleared; when no forward render was
      needed at the start nothing changes; otherwise the forward flag says
      whether a void remains on the canvas. */
  lemma {:induction false} PassesFacts(v: View, b: Bounds, skip: bool, ps: seq<Pass>, z0: int,
                                       fwd0: bool, flags0: seq<bool>, log0: seq<Composite>,
                                       depth0: seq<int>, pixels0: seq<byte>,
                                       flags: seq<bool>, log: seq<Composite>, depth: seq<int>, pixels: seq<byte>,
                                       fwd: bool)
    requires Passes(v, b, skip, ps, z0, fwd0, flags0, log0, depth0, pixels0, flags, log, depth, pixels, fwd)
    ensures |log0| <= |log| && log[..|log0|] == log0
    ensures forall j :: |log0| <= j < |log| ==> log[j].redraw && z0 <= log[j].tz < z0 + |ps|
    ensures |flags| == |flags0| && forall k :: 0 <= k < |flags0| && flags0[k] ==> flags[k]
    ensures !fwd0 ==> !fwd && log == log0 && depth == depth0
    ensures fwd0 && |ps| > 0 ==> fwd == HasVoid(depth)
    decreases |ps|
  {
    if |ps| > 0 {
      var p := ps[|ps| - 1];
      var prior := log[..|log| - |p.calls|];
      var earlier := ps[..|ps| - 1];
      assert p.depth == z0 + |ps| - 1 && PassDone(v, b, skip, p);
      forall i | 0 <= i < |earlier|
        ensures earlier[i].depth == z0 + i && PassDone(v, b, skip, earlier[i])
      {
        assert earlier[i] == ps[i] && PassDone(v, b, skip, ps[i]);
      }
      PassesFacts(v, b, skip, earlier, z0, fwd0, flags0, log0, depth0, pixels0,
                  p.flags0, prior, p.depth0, p.pixels0, p.rendered);
      assert log == prior + p.calls;
      if p.rendered && !skip {
        SliceLogEntries(b, p.flags0, [], p.depth, |p.flags0|, p.flags1, p.calls);
      }
      forall j | |log0| <= j < |log|
        ensures log[j].redraw && z0 <= log[j].tz < z0 + |ps|
      {
        if j >= |prior| {
          assert log[j] == p.calls[j - |prior|];
        } else {
          assert log[j] == prior[j];
        }
      }
    }
  }

  /** The ghost log of compositor calls, kept apart from the display so that
      drawing leaves the display object itself unchanged. */
  class Trace {
    ghost var composites: seq<Composite>

    constructor ()
      ensures composites == []
    {
      composites := [];
    }
  }

  class MaplandsDisplay {
    const env: Env
    const canvas: Canvas
    /** The configured colour of pixels nothing was drawn at. */
    const background: byte

    // Viewport configuration; the start block is (px, py, pz) in worldId.
    var worldId: int
    var px: int
    var py: int
    var pz: int
    var facing: Facing
    var zoom: ZoomLevel
    var finishedRendering: bool

    var blockBounds: BlockBox
    var currentRenderZ: int
    var minimumRenderZ: int
    var maximumRenderZ: int
    var forwardRenderNeeded: bool
    var minCols: int
    var maxCols: int
    var minRows: int
    var maxRows: int
    /** Row-major: tile (x, y) is fully covered and needs no deeper layer. */
    var drawnTiles: array<bool>
    var dirtyTiles: set<Vec3>
    var renderTime: nat
    var menuSelectIndex: int
    /** Number of times the canvas was saved to the cache. */
    var saveCount: nat
    /** Every call of the tile compositor, in order. */
    const trace: Trace

    function TileBounds(): Bounds
      reads this`minCols, this`maxCols, this`minRows, this`maxRows
    {
      Bounds(minCols, maxCols, minRows, maxRows)
    }

    ghost predicate Valid()
      reads this, canvas, canvas.depth
    {
      canvas.Valid() &&
      zoom in env.zoomLevels &&
      TileBounds() == Centred(env.Columns(zoom, canvas.width), env.Rows(zoom, canvas.height)) &&
      drawnTiles.Length == TileBounds().Len() &&
      0 <= menuSelectIndex < MENU_BUTTONS &&
      forall t :: t in dirtyTiles ==> TileBounds().Contains(t.x, t.y)
    }

    /** The renderer was just reset: the depth range runs from the tile rows
        below the start block down to the world floor up to the rows above
        it, the block bounds are the blocks the tile bounds and that range
        cover, and no tick has run since. */
    ghost predicate ViewReset()
      reads this
    {
      minimumRenderZ == minRows - (WORLD_HEIGHT - py) && maximumRenderZ == maxRows + py &&
      blockBounds == env.BlockBounds(facing, BlockBox(minCols, minimumRenderZ, minRows,
                                                      maxCols, maximumRenderZ, maxRows)).Offset(px, py, pz) &&
      renderTime == 0
    }

    /** A display for the given canvas size and viewport, before it is
        attached: nothing drawn, no bitmap, an empty dirty set and log. */
    constructor (env: Env, width: nat, height: nat, background: byte,
                 worldId: int, px: int, py: int, pz: int, facing: Facing, zoom: ZoomLevel,
                 finishedRendering: bool)
      requires width > 0 && height > 0
      ensures canvas.Valid() && fresh(canvas) && canvas.width == width && canvas.height == height
      ensures this.env == env && this.background == background && this.worldId == worldId
      ensures this.px == px && this.py == py && this.pz == pz
      ensures this.facing == facing && this.zoom == zoom && this.finishedRendering == finishedRendering
      ensures trace.composites == [] && saveCount == 0 && menuSelectIndex == 0 && dirtyTiles == {}
    {
      this.env := env;
      this.background := background;
      this.worldId, this.px, this.py, this.pz := worldId, px, py, pz;
      this.facing, this.zoom, this.finishedRendering := facing, zoom, finishedRendering;
      canvas := new Canvas(width, height);
      drawnTiles := new bool[0];
      dirtyTiles := {};
      trace := new Trace();
      renderTime, menuSelectIndex, saveCount := 0, 0, 0;
      blockBounds := BlockBox(0, 0, 0, 0, 0, 0);
      currentRenderZ, minimumRenderZ, maximumRenderZ := 0, 0, 0;
      forwardRenderNeeded := false;
      minCols, maxCols, minRows, maxRows := 0, 0, 0, 0;
    }

    /** Attaching the display: the canvas is filled with the background, then
        restored from the cached snapshot when there is one that fits, and the
        renderer is reset accordingly. */
    method OnAttached(cache: Option<Snapshot>)
      requires canvas.Valid() && zoom in env.zoomLevels && 0 <= menuSelectIndex < MENU_BUTTONS
      modifies this`minCols, this`maxCols, this`minRows, this`maxRows
      modifies this`minimumRenderZ, this`maximumRenderZ, this`blockBounds, this`currentRenderZ
      modifies this`finishedRendering, this`forwardRenderNeeded, this`dirtyTiles, this`drawnTiles
      modifies this`renderTime, drawnTiles, canvas.depth, canvas.pixels
      ensures Valid() && dirtyTiles == {} && forwardRenderNeeded && ViewReset()
      ensures forall k :: 0 <= k < drawnTiles.Length ==> !drawnTiles[k]
      ensures Loadable(cache, canvas.width, canvas.height) ==>
                canvas.depth[..] == cache.value.depths && canvas.pixels[..] == cache.value.colours &&
                currentRenderZ == (if old(finishedRendering) then maximumRenderZ else minimumRenderZ) &&
                finishedRendering == old(finishedRendering)
      ensures !Loadable(cache, canvas.width, canvas.height) ==>
                (forall k :: 0 <= k < canvas.depth.Length ==> canvas.depth[k] == MAX_DEPTH) &&
                (forall k :: 0 <= k < canvas.pixels.Length ==> canvas.pixels[k] == background) &&
                currentRenderZ == minimumRenderZ && !finishedRendering
    {
      canvas.Fill(background);
      if Loadable(cache, canvas.width, canvas.height) {
        canvas.Load(cache.value.colours, cache.value.depths);
        Render(FromCache);
      } else {
        Render(Initialize);
      }
    }

    /** The cache holds a snapshot of the canvas's size. */
    static predicate Loadable(cache: Option<Snapshot>, width: nat, height: nat) {
      cache.Some? &&
      |cache.value.colours| == width * height && |cache.value.depths| == width * height &&
      forall k :: 0 <= k < |cache.value.depths| ==> IsShort(cache.value.depths[k])
    }

    /** Detaching the display saves the canvas to the cache. */
    method OnDetached()
      modifies this`saveCount
      ensures saveCount == old(saveCount) + 1
    {
      saveCount := saveCount + 1;
    }

    /** Resets the renderer: tile bounds, depth range, block bounds, cursor,
        completion flag, dirty set and, unless panning, the drawn-tile bitmap. */
    method Render(mode: RenderMode)
      requires canvas.Valid() && zoom in env.zoomLevels && 0 <= menuSelectIndex < MENU_BUTTONS
      requires mode == Translation ==> Valid()
      modifies this`minCols, this`maxCols, this`minRows, this`maxRows
      modifies this`minimumRenderZ, this`maximumRenderZ, this`blockBounds, this`currentRenderZ
      modifies this`finishedRendering, this`forwardRenderNeeded, this`dirtyTiles, this`drawnTiles
      modifies this`renderTime, drawnTiles, canvas.depth
      ensures Valid()
      ensures maxCols == env.Columns(zoom, canvas.width) && minCols == -maxCols
      ensures maxRows == env.Rows(zoom, canvas.height) && minRows == -maxRows
      ensures ViewReset()
      ensures if mode == FromCache && old(finishedRendering)
              then currentRenderZ == maximumRenderZ && finishedRendering
              else currentRenderZ == minimumRenderZ && !finishedRendering
      ensures forwardRenderNeeded && dirtyTiles == {}
      ensures mode != Translation ==>
                (if old(drawnTiles.Length) == drawnTiles.Length then drawnTiles == old(drawnTiles) else fresh(drawnTiles)) &&
                forall k :: 0 <= k < drawnTiles.Length ==> !drawnTiles[k]
      ensures mode == Translation ==> drawnTiles == old(drawnTiles) && drawnTiles[..] == old(drawnTiles[..])
      ensures mode == Initialize ==> forall k :: 0 <= k < canvas.depth.Length ==> canvas.depth[k] == MAX_DEPTH
      ensures mode != Initialize ==> canvas.depth[..] == old(canvas.depth[..])
    {
      if mode == Initialize {
        canvas.ClearDepthBuffer();
      }
      ResetView(mode == FromCache);
      if mode != Translation {
        ResetDrawnTiles();
      }
    }

    /** Recomputes the tile bounds, the depth range and the block bounds from
        the canvas size, zoom, facing and start block, then puts the cursor at
        the front of the depth range, or at its back when a finished render is
        restored from the cache, and clears the dirty set. */
    method ResetView(fromCache: bool)
      modifies this`minCols, this`maxCols, this`minRows, this`maxRows
      modifies this`minimumRenderZ, this`maximumRenderZ, this`blockBounds
      modifies this`currentRenderZ, this`finishedRendering, this`forwardRenderNeeded
      modifies this`dirtyTiles, this`renderTime
      ensures maxCols == env.Columns(zoom, canvas.width) && minCols == -maxCols
      ensures maxRows == env.Rows(zoom, canvas.height) && minRows == -maxRows
      ensures ViewReset()
      ensures if fromCache && old(finishedRendering)
              then currentRenderZ == maximumRenderZ && finishedRendering
              else currentRenderZ == minimumRenderZ && !finishedRendering
      ensures forwardRenderNeeded && dirtyTiles == {}
    {
      var nrColumns: int := env.Columns(zoom, canvas.width);
      var nrRows: int := env.Rows(zoom, canvas.height);
      var minZ, maxZ := -nrRows - (WORLD_HEIGHT - py), nrRows + py;
      minCols, maxCols := -nrColumns, nrColumns;
      minRows, maxRows := -nrRows, nrRows;
      minimumRenderZ, maximumRenderZ := minZ, maxZ;
      blockBounds := env.BlockBounds(facing, BlockBox(-nrColumns, minZ, -nrRows,
                                         nrColumns, maxZ, nrRows)).Offset(px, py, pz);
      ResetCursor(fromCache, minZ, maxZ);
    }

    /** Puts the cursor at minZ, or at maxZ when a finished render is restored
        from the cache, and clears the dirty set. */
    method ResetCursor(fromCache: bool, minZ: int, maxZ: int)
      modifies this`currentRenderZ, this`finishedRendering, this`forwardRenderNeeded
      modifies this`dirtyTiles, this`renderTime
      ensures if fromCache && old(finishedRendering)
              then currentRenderZ == maxZ && finishedRendering
              else currentRenderZ == minZ && !finishedRendering
      ensures forwardRenderNeeded && dirtyTiles == {} && renderTime == 0
    {
      if fromCache && finishedRendering {
        currentRenderZ := maxZ;
      } else {
        currentRenderZ := minZ;
        finishedRendering := false;
      }
      forwardRenderNeeded := true;
      dirtyTiles := {};
      renderTime := 0;
    }

    /** Clears every drawn flag, reallocating the bitmap when its size no
        longer matches the tile bounds. */
    method ResetDrawnTiles()
      requires minCols <= maxCols && minRows <= maxRows
      modifies this`drawnTiles, drawnTiles
      ensures drawnTiles.Length == (maxRows - minRows + 1) * (maxCols - minCols + 1)
      ensures if old(drawnTiles.Length) == drawnTiles.Length then drawnTiles == old(drawnTiles) else fresh(drawnTiles)
      ensures forall k :: 0 <= k < drawnTiles.Length ==> !drawnTiles[k]
    {
      var len := (maxRows - minRows + 1) * (maxCols - minCols + 1);
      Grid.MulLeq(0, maxRows - minRows + 1, maxCols - minCols + 1);
      if len != drawnTiles.Length {
        drawnTiles := new bool[len](_ => false);
      } else {
        forall k | 0 <= k < drawnTiles.Length {
          drawnTiles[k] := false;
        }
      }
    }

    /** A world change is queued as a dirty tile only when it is in this
        display's world and block bounds and maps to a tile within the tile
        bounds; the tile's depth is not checked. */
    method OnBlockChange(world: int, blockX: int, blockY: int, blockZ: int)
      requires Valid()
      modifies this`dirtyTiles
      ensures Valid()
      ensures var tile := env.blockToScreenTile(facing, Vec3(blockX - px, blockY - py, blockZ - pz));
              dirtyTiles ==
                if world == worldId && blockBounds.Contains(blockX, blockY, blockZ) &&
                   tile.Some? && TileBounds().Contains(tile.value.x, tile.value.y)
                then old(dirtyTiles) + {tile.value}
                else old(dirtyTiles)
    {
      if world == worldId && blockBounds.Contains(blockX, blockY, blockZ) {
        var dx := blockX - px;
        var dy := blockY - py;
        var dz := blockZ - pz;
        var tile := env.blockToScreenTile(facing, Vec3(dx, dy, dz));
        if tile.None? || tile.value.x < minCols || tile.value.x > maxCols ||
           tile.value.y < minRows || tile.value.y > maxRows {
          return;
        }
        dirtyTiles := dirtyTiles + {tile.value};
      }
    }

    /** Clears the drawn flag of tile (tx, ty) when it is in bounds, asks for a
        forward render and rewinds the cursor to tz if that is lower. */
    method InvalidateTile(tx: int, ty: int, tz: int)
      requires Valid()
      modifies drawnTiles, this`forwardRenderNeeded, this`currentRenderZ
      ensures Valid()
      ensures TileBounds().Contains(tx, ty) ==>
                0 <= TileBounds().Index(tx, ty) < drawnTiles.Length &&
                drawnTiles[..] == old(drawnTiles[..])[TileBounds().Index(tx, ty) := false] &&
                forwardRenderNeeded && currentRenderZ == Min(old(currentRenderZ), tz)
      ensures !TileBounds().Contains(tx, ty) ==>
                drawnTiles[..] == old(drawnTiles[..]) &&
                forwardRenderNeeded == old(forwardRenderNeeded) && currentRenderZ == old(currentRenderZ)
    {
      if tx >= minCols && tx <= maxCols && ty >= minRows && ty <= maxRows {
        IndexInRange(TileBounds(), tx, ty);
        var x := tx - minCols;
        var y := ty - minRows;
        drawnTiles[y * (maxCols - minCols + 1) + x] := false;
        forwardRenderNeeded := true;
        if currentRenderZ > tz {
          currentRenderZ := tz;
        }
      }
    }

    /** Invalidates the 15 tiles one column either side and two rows above and
        below the in-bounds tile t, at t's depth. */
    method InvalidateAround(t: Vec3)
      requires Valid() && TileBounds().Contains(t.x, t.y)
      modifies drawnTiles, this`forwardRenderNeeded, this`currentRenderZ
      ensures Valid()
      ensures forall k :: 0 <= k < drawnTiles.Length ==>
                drawnTiles[k] == (old(drawnTiles[k]) && !Near(t, TileBounds().Col(k), TileBounds().Row(k)))
      ensures forwardRenderNeeded && currentRenderZ == Min(old(currentRenderZ), t.z)
    {
      var b := TileBounds();
      var dtx := -1;
      while dtx <= 1
        invariant -1 <= dtx <= 2 && Valid()
        invariant forall k :: 0 <= k < drawnTiles.Length ==>
                    drawnTiles[k] == (old(drawnTiles[k]) && !Swept(t, b.Col(k), b.Row(k), dtx, -2))
        invariant currentRenderZ == old(currentRenderZ) || currentRenderZ == Min(old(currentRenderZ), t.z)
        invariant Swept(t, t.x, t.y, dtx, -2) ==> forwardRenderNeeded && currentRenderZ == Min(old(currentRenderZ), t.z)
      {
        var dty := -2;
        while dty <= 2
          invariant -2 <= dty <= 3 && Valid()
          invariant forall k :: 0 <= k < drawnTiles.Length ==>
                      drawnTiles[k] == (old(drawnTiles[k]) && !Swept(t, b.Col(k), b.Row(k), dtx, dty))
          invariant currentRenderZ == old(currentRenderZ) || currentRenderZ == Min(old(currentRenderZ), t.z)
          invariant Swept(t, t.x, t.y, dtx, dty) ==> forwardRenderNeeded && currentRenderZ == Min(old(currentRenderZ), t.z)
        {
          ghost var before := drawnTiles[..];
          var x, y := t.x + dtx, t.y + dty;
          InvalidateTile(x, y, t.z);
          forall k | 0 <= k < drawnTiles.Length
            ensures drawnTiles[k] == (old(drawnTiles[k]) && !Swept(t, b.Col(k), b.Row(k), dtx, dty + 1))
          {
            CoordsIndex(b, k);
            if b.Contains(x, y) {
              IndexCoords(b, x, y);
            }
            assert drawnTiles[k] == (before[k] && !(b.Contains(x, y) && k == b.Index(x, y)));
          }
          dty := dty + 1;
        }
        dtx := dtx + 1;
      }
    }

    /** The current view with the world's sprites given by `sprites`. */
    function ViewWith(sprites: SpriteKey -> Sprite): View
      reads this`worldId, this`px, this`py, this`pz, this`facing, this`zoom
    {
      View(env, sprites, facing, zoom, worldId, px, py, pz, canvas.width, canvas.height)
    }

    /** Draws the block at offset rb from the start block at tile (tx, ty),
        taking its sprite from `sprites`; returns whether a void remains
        behind it. */
    method DrawBlockAtTile(sprites: SpriteKey -> Sprite, rb: Vec3, tx: int, ty: int, isRedraw: bool)
      returns (void: bool)
      requires Valid()
      modifies canvas.depth, canvas.pixels
      ensures Valid()
      ensures Painted(PlacementAt(ViewWith(sprites), rb, tx, ty, isRedraw), void, canvas.drawDepth, canvas.width,
                      old(canvas.depth[..]), old(canvas.pixels[..]), canvas.depth[..], canvas.pixels[..])
    {
      var x := px + rb.x;
      var y := py + rb.y;
      var z := pz + rb.z;
      if y >= 0 && y < WORLD_HEIGHT {
        var sprite := sprites(SpriteKey(facing, zoom, worldId, x, y, z));
        if !sprite.air || !isRedraw {
          var drawX := env.drawX(zoom, tx) + canvas.width / 2;
          var drawY := env.drawY(zoom, ty) + canvas.height / 2;
          canvas.Draw(sprite, drawX, drawY);
          void := canvas.HasMoreDepth(drawX, drawY, sprite.width, sprite.height);
        } else {
          void := true;
        }
      } else {
        void := true;
      }
    }

    /** Composites tile (tx, ty, tz) at the current draw depth, taking sprites
        from `sprites`; returns whether a void remains behind it (also when
        the tile maps to no block). The call is appended to the log with its
        effect on the canvas. */
    method DrawBlockTile(sprites: SpriteKey -> Sprite, tx: int, ty: int, tz: int, isRedraw: bool)
      returns (void: bool, ghost e: Composite)
      requires Valid()
      modifies canvas.depth, canvas.pixels, trace
      ensures Valid()
      ensures trace.composites == old(trace.composites) + [e]
      ensures e == Composite(tx, ty, tz, isRedraw, canvas.drawDepth, void,
                             Effect(PlacementOf(ViewWith(sprites), tx, ty, tz, isRedraw),
                                    old(canvas.depth[..]), old(canvas.pixels[..]), canvas.depth[..], canvas.pixels[..]))
      ensures Composited(ViewWith(sprites), e)
    {
      ghost var depth0, pixels0 := canvas.depth[..], canvas.pixels[..];
      var rb := env.screenTileToBlock(facing, Vec3(tx, ty, tz));
      if rb.Some? {
        void := DrawBlockAtTile(sprites, rb.value, tx, ty, isRedraw);
      } else {
        void := true;
      }
      e := Composite(tx, ty, tz, isRedraw, canvas.drawDepth, void,
                     Effect(PlacementOf(ViewWith(sprites), tx, ty, tz, isRedraw), depth0, pixels0,
                            canvas.depth[..], canvas.pixels[..]));
      trace.composites := trace.composites + [e];
    }

    /** Composites depth layer `depth` over the whole tile grid, taking sprites
        from `sprites` and skipping tiles already drawn; rows are skipped, all
        or none, by the height test. */
    method RenderSlice(sprites: SpriteKey -> Sprite, depth: int)
      requires Valid()
      modifies canvas, canvas.depth, canvas.pixels, drawnTiles, trace
      ensures Valid()
      ensures canvas.drawDepth == ToShort(depth)
      ensures RowSkipped(0, py) ==> unchanged(trace, drawnTiles, canvas.depth, canvas.pixels)
      ensures !RowSkipped(0, py) ==>
                SliceLog(TileBounds(), old(drawnTiles[..]), old(trace.composites), depth, drawnTiles.Length,
                         drawnTiles[..], trace.composites) &&
                Composites(ViewWith(sprites), trace.composites, |old(trace.composites)|,
                           old(canvas.depth[..]), old(canvas.pixels[..]), canvas.depth[..], canvas.pixels[..])
    {
      ghost var before := drawnTiles[..];
      ghost var log0 := trace.composites;
      ghost var depth0, pixels0 := canvas.depth[..], canvas.pixels[..];
      ghost var v := ViewWith(sprites);
      canvas.SetDrawDepth(depth);
      var b := TileBounds();
      ghost var skip := py < 0 || py > WORLD_HEIGHT;
      RowSkipUniform(0, py);
      IndexInRange(b, minCols, minRows);
      assert SliceLog(b, before, log0, depth, 0, drawnTiles[..], trace.composites);
      var tileIdx := -1;
      var ty := minRows;
      while ty <= maxRows
        invariant minRows <= ty <= maxRows + 1
        invariant Valid() && canvas.drawDepth == ToShort(depth)
        invariant skip ==> tileIdx == -1 && unchanged(trace, drawnTiles, canvas.depth, canvas.pixels)
        invariant !skip ==> tileIdx + 1 == b.Index(minCols, ty) &&
                            SliceLog(b, before, log0, depth, tileIdx + 1, drawnTiles[..], trace.composites) &&
                            Composites(v, trace.composites, |log0|, depth0, pixels0,
                                       canvas.depth[..], canvas.pixels[..])
      {
        var ymin := ty - py;
        var ymax := ty + (WORLD_HEIGHT - py);
        RowSkipUniform(ty, py);
        if ty < ymin || ty > ymax {
          ty := ty + 1;
          continue;
        }
        IndexInRange(b, minCols, ty);
        tileIdx := RenderRow(sprites, v, b, ty, depth, before, log0, depth0, pixels0, tileIdx);
        ty := ty + 1;
      }
      IndexPastLastRow(b);
    }

    /** The inner loop of the slice pass over row ty of bounds b; tileIdx is
        the bitmap index of the last tile handled, before and after the row. */
    method RenderRow(sprites: SpriteKey -> Sprite, ghost v: View, b: Bounds, ty: int, depth: int,
                     ghost before: seq<bool>, ghost log0: seq<Composite>,
                     ghost depth0: seq<int>, ghost pixels0: seq<byte>, tileIdx0: int) returns (tileIdx: int)
      requires Valid() && b == TileBounds() && v == ViewWith(sprites) && canvas.drawDepth == ToShort(depth)
      requires minRows <= ty <= maxRows && tileIdx0 + 1 == b.Index(minCols, ty) && tileIdx0 + 1 >= 0
      requires SliceLog(b, before, log0, depth, tileIdx0 + 1, drawnTiles[..], trace.composites)
      requires Composites(v, trace.composites, |log0|, depth0, pixels0, canvas.depth[..], canvas.pixels[..])
      modifies canvas.depth, canvas.pixels, drawnTiles, trace
      ensures Valid() && canvas.drawDepth == ToShort(depth)
      ensures tileIdx + 1 == b.Index(minCols, ty + 1) && tileIdx + 1 >= 0
      ensures SliceLog(b, before, log0, depth, tileIdx + 1, drawnTiles[..], trace.composites)
      ensures Composites(v, trace.composites, |log0|, depth0, pixels0, canvas.depth[..], canvas.pixels[..])
    {
      tileIdx := tileIdx0;
      var tx := minCols;
      while tx <= maxCols
        invariant minCols <= tx <= maxCols + 1
        invariant Valid() && canvas.drawDepth == ToShort(depth)
        invariant tileIdx + 1 == b.Index(tx, ty) && tileIdx + 1 >= 0
        invariant SliceLog(b, before, log0, depth, tileIdx + 1, drawnTiles[..], trace.composites)
        invariant Composites(v, trace.composites, |log0|, depth0, pixels0,
                             canvas.depth[..], canvas.pixels[..])
      {
        tileIdx := tileIdx + 1;
        IndexCoords(b, tx, ty);
        RenderTile(sprites, v, b, tx, ty, depth, before, log0, depth0, pixels0, tileIdx);
        tx := tx + 1;
      }
      IndexShift(b, minCols, ty, 0, 1);
    }

    /** The body of the slice pass for tile (tx, ty) at bitmap index i:
        composites it unless already drawn, and flags it when no void remains. */
    method RenderTile(sprites: SpriteKey -> Sprite, ghost v: View, b: Bounds, tx: int, ty: int, depth: int,
                      ghost before: seq<bool>, ghost log0: seq<Composite>,
                      ghost depth0: seq<int>, ghost pixels0: seq<byte>, i: nat)
      requires Valid() && b == TileBounds() && v == ViewWith(sprites) && canvas.drawDepth == ToShort(depth)
      requires i < drawnTiles.Length && b.NonEmpty() && b.Col(i) == tx && b.Row(i) == ty
      requires SliceLog(b, before, log0, depth, i, drawnTiles[..], trace.composites)
      requires Composites(v, trace.composites, |log0|, depth0, pixels0, canvas.depth[..], canvas.pixels[..])
      modifies canvas.depth, canvas.pixels, drawnTiles, trace
      ensures Valid() && canvas.drawDepth == ToShort(depth)
      ensures SliceLog(b, before, log0, depth, i + 1, drawnTiles[..], trace.composites)
      ensures Composites(v, trace.composites, |log0|, depth0, pixels0, canvas.depth[..], canvas.pixels[..])
    {
      ghost var flags, log := drawnTiles[..], trace.composites;
      ghost var depth1, pixels1 := canvas.depth[..], canvas.pixels[..];
      if !drawnTiles[i] {
        var void, e := DrawBlockTile(sprites, tx, ty, depth, true);
        if !void {
          drawnTiles[i] := true;
        }
        SliceLogStep(b, before, log0, depth, i, flags, log, void, drawnTiles[..], trace.composites);
        CompositesStep(v, log, |log0|, depth0, pixels0, depth1, pixels1, e);
      } else {
        SliceLogStep(b, before, log0, depth, i, flags, log, false, drawnTiles[..], trace.composites);
      }
    }

    /** Repaints every void pixel with the background colour. */
    method FillHoles()
      requires Valid()
      modifies canvas.pixels
      ensures Valid()
      ensures forall k :: 0 <= k < canvas.pixels.Length ==>
                canvas.pixels[k] == if canvas.depth[k] == MAX_DEPTH then background else old(canvas.pixels[k])
    {
      var w, h := canvas.width, canvas.height;
      ghost var pixels0 := canvas.pixels[..];
      var x := 0;
      while x < w
        invariant 0 <= x <= w && Valid()
        invariant forall k :: 0 <= k < canvas.pixels.Length ==>
                    canvas.pixels[k] == if k % w < x && canvas.depth[k] == MAX_DEPTH then background else pixels0[k]
      {
        FillColumn(x, pixels0);
        x := x + 1;
      }
    }

    /** The inner loop of FillHoles: column x, top to bottom. */
    method FillColumn(x: int, ghost pixels0: seq<byte>)
      requires Valid() && 0 <= x < canvas.width && |pixels0| == canvas.pixels.Length
      requires forall k :: 0 <= k < canvas.pixels.Length ==>
                 canvas.pixels[k] ==
                   if k % canvas.width < x && canvas.depth[k] == MAX_DEPTH then background else pixels0[k]
      modifies canvas.pixels
      ensures Valid()
      ensures forall k :: 0 <= k < canvas.pixels.Length ==>
                canvas.pixels[k] ==
                  if k % canvas.width < x + 1 && canvas.depth[k] == MAX_DEPTH then background else pixels0[k]
    {
      var w, h := canvas.width, canvas.height;
      var y := 0;
      while y < h
        invariant 0 <= y <= h && Valid()
        invariant forall k :: 0 <= k < canvas.pixels.Length ==>
                    canvas.pixels[k] ==
                      if (k % w < x || (k % w == x && k / w < y)) && canvas.depth[k] == MAX_DEPTH
                      then background else pixels0[k]
      {
        Grid.FlatIndex(w, h, x, y);
        if canvas.GetDepth(x, y) == MAX_DEPTH {
          canvas.WritePixel(x, y, background);
        }
        forall k | 0 <= k < canvas.pixels.Length
          ensures canvas.pixels[k] ==
                    if (k % w < x || (k % w == x && k / w < y + 1)) && canvas.depth[k] == MAX_DEPTH
                    then background else pixels0[k]
        {
          Grid.FlatCoords(w, h, k);
        }
        y := y + 1;
      }
      forall k | 0 <= k < canvas.pixels.Length
        ensures (k % w < x || (k % w == x && k / w < h)) == (k % w < x + 1)
      {
        Grid.FlatCoords(w, h, k);
      }
    }

    /** The start of a tick: the dirty-tile drain, then the scheduler, both
        drawing the sprites `sprites` gives for the world as it is at this
        tick. */
    method OnTick(sprites: SpriteKey -> Sprite, inBudget: nat -> bool)
      requires Valid()
      modifies canvas, canvas.depth, canvas.pixels, drawnTiles, trace, this`dirtyTiles
      modifies this`currentRenderZ, this`forwardRenderNeeded, this`finishedRendering, this`saveCount, this`renderTime
      ensures Valid() && dirtyTiles == {}
      ensures old(finishedRendering) ==> finishedRendering && saveCount == old(saveCount)
      ensures saveCount == old(saveCount) || (saveCount == old(saveCount) + 1 && finishedRendering)
    {
      DrainDirtyTiles(sprites);
      ghost var passes := Advance(sprites, inBudget);
    }

    /** Recomposites every dirty tile at its own depth, taking sprites from
        `sprites`; a tile that leaves a void invalidates its neighbourhood.
        Empties the dirty set. */
    method DrainDirtyTiles(sprites: SpriteKey -> Sprite)
      requires Valid()
      modifies canvas, canvas.depth, canvas.pixels, drawnTiles, trace
      modifies this`forwardRenderNeeded, this`currentRenderZ, this`dirtyTiles
      ensures Valid() && dirtyTiles == {}
      ensures |old(trace.composites)| <= |trace.composites| && trace.composites[..|old(trace.composites)|] == old(trace.composites)
      ensures DrainLog(TileBounds(), old(dirtyTiles), trace.composites[|old(trace.composites)|..],
                       old(drawnTiles[..]), drawnTiles[..], old(currentRenderZ), currentRenderZ,
                       old(forwardRenderNeeded), forwardRenderNeeded)
      ensures Composites(ViewWith(sprites), trace.composites, |old(trace.composites)|,
                         old(canvas.depth[..]), old(canvas.pixels[..]), canvas.depth[..], canvas.pixels[..])
    {
      ghost var log0 := trace.composites;
      ghost var added := DrainLoop(sprites, ViewWith(sprites), TileBounds());
      assert trace.composites[|log0|..] == added;
      dirtyTiles := {};
    }

    /** The loop over the dirty set: composites every dirty tile once; the
        ghost result is what it appended to the log. */
    method DrainLoop(sprites: SpriteKey -> Sprite, ghost v: View, b: Bounds) returns (ghost added: seq<Composite>)
      requires Valid() && b == TileBounds() && v == ViewWith(sprites)
      modifies canvas, canvas.depth, canvas.pixels, drawnTiles, trace
      modifies this`forwardRenderNeeded, this`currentRenderZ
      ensures Valid() && trace.composites == old(trace.composites) + added
      ensures DrainLog(b, dirtyTiles, added, old(drawnTiles[..]), drawnTiles[..], old(currentRenderZ), currentRenderZ,
                       old(forwardRenderNeeded), forwardRenderNeeded)
      ensures Composites(v, trace.composites, |old(trace.composites)|,
                         old(canvas.depth[..]), old(canvas.pixels[..]), canvas.depth[..], canvas.pixels[..])
    {
      ghost var tiles0, log0, flags0 := dirtyTiles, trace.composites, drawnTiles[..];
      ghost var z0, fwd0 := currentRenderZ, forwardRenderNeeded;
      ghost var depth0, pixels0 := canvas.depth[..], canvas.pixels[..];
      ghost var done: set<Vec3> := {};
      added := [];
      DrainLogStart(b, flags0, z0, fwd0);
      var remaining := dirtyTiles;
      while remaining != {}
        invariant Valid() && trace.composites == log0 + added
        invariant remaining + done == tiles0 && remaining !! done
        invariant DrainLog(b, done, added, flags0, drawnTiles[..], z0, currentRenderZ, fwd0, forwardRenderNeeded)
        invariant Composites(v, trace.composites, |log0|, depth0, pixels0,
                             canvas.depth[..], canvas.pixels[..])
        decreases remaining
      {
        var t :| t in remaining;
        MoveToDone(remaining, done, t, tiles0);
        var void, e := DrainTile(sprites, v, b, t, done, log0, added, flags0, z0, fwd0, depth0, pixels0);
        added := added + [e];
        remaining := remaining - {t};
        done := done + {t};
      }
    }

    /** The drain's body for dirty tile t: composite it at its own depth and,
        if that leaves a void, invalidate its neighbourhood. */
    method DrainTile(sprites: SpriteKey -> Sprite, ghost v: View, b: Bounds, t: Vec3, ghost done: set<Vec3>,
                     ghost log0: seq<Composite>, ghost added: seq<Composite>,
                     ghost flags0: seq<bool>, ghost z0: int, ghost fwd0: bool, ghost depth0: seq<int>, ghost pixels0: seq<byte>)
      returns (void: bool, ghost e: Composite)
      requires Valid() && b == TileBounds() && v == ViewWith(sprites) && t in dirtyTiles && t !in done
      requires trace.composites == log0 + added
      requires DrainLog(b, done, added, flags0, drawnTiles[..], z0, currentRenderZ, fwd0, forwardRenderNeeded)
      requires Composites(v, trace.composites, |log0|, depth0, pixels0, canvas.depth[..], canvas.pixels[..])
      modifies canvas, canvas.depth, canvas.pixels, drawnTiles, trace
      modifies this`forwardRenderNeeded, this`currentRenderZ
      ensures Valid()
      ensures trace.composites == log0 + (added + [e])
      ensures e.Is(t.x, t.y, t.z, false, ToShort(t.z), void)
      ensures DrainLog(b, done + {t}, added + [e], flags0, drawnTiles[..], z0, currentRenderZ, fwd0, forwardRenderNeeded)
      ensures Composites(v, trace.composites, |log0|, depth0, pixels0, canvas.depth[..], canvas.pixels[..])
    {
      ghost var flags, z, fwd := drawnTiles[..], currentRenderZ, forwardRenderNeeded;
      ghost var depth1, pixels1 := canvas.depth[..], canvas.pixels[..];
      canvas.SetDrawDepth(t.z);
      void, e := DrawBlockTile(sprites, t.x, t.y, t.z, false);
      CompositesStep(v, log0 + added, |log0|, depth0, pixels0, depth1, pixels1, e);
      AppendToAdded(log0, added, e);
      if void {
        InvalidateAround(t);
      }
      DrainLogStep(b, done, t, added, flags0, flags, z0, z, fwd0, fwd,
                   void, e, drawnTiles[..], currentRenderZ, forwardRenderNeeded);
    }

    /** The time-budgeted forward loop: while the cursor is in range, composite
        the cursor's layer if a forward render is needed, then advance the
        cursor; stop after the last layer or once the budget is spent.
        inBudget(k) says whether time remains after k layers of this tick,
        and sprites come from `sprites`. The ghost result records one pass
        per layer the cursor passed. Reaching the end fills the remaining
        voids and records completion once. */
    method Advance(sprites: SpriteKey -> Sprite, inBudget: nat -> bool) returns (ghost passes: seq<Pass>)
      requires Valid()
      modifies canvas, canvas.depth, canvas.pixels, drawnTiles, trace
      modifies this`currentRenderZ, this`forwardRenderNeeded, this`finishedRendering, this`saveCount, this`renderTime
      ensures Valid()
      ensures old(currentRenderZ) > maximumRenderZ ==>
                passes == [] &&
                currentRenderZ == old(currentRenderZ) && trace.composites == old(trace.composites) &&
                forwardRenderNeeded == old(forwardRenderNeeded) &&
                drawnTiles[..] == old(drawnTiles[..]) && canvas.depth[..] == old(canvas.depth[..]) &&
                canvas.pixels[..] == old(canvas.pixels[..]) && finishedRendering == old(finishedRendering) &&
                saveCount == old(saveCount) && renderTime == old(renderTime)
      ensures old(currentRenderZ) <= maximumRenderZ ==>
                old(currentRenderZ) < currentRenderZ <= maximumRenderZ + 1 && renderTime == old(renderTime) + 1 &&
                (forall k :: 1 <= k < currentRenderZ - old(currentRenderZ) ==> inBudget(k)) &&
                (currentRenderZ <= maximumRenderZ ==> !inBudget(currentRenderZ - old(currentRenderZ)))
      ensures old(currentRenderZ) <= maximumRenderZ ==>
                |passes| == currentRenderZ - old(currentRenderZ) &&
                |passes[|passes| - 1].pixels1| == canvas.pixels.Length &&
                Passes(ViewWith(sprites), TileBounds(), RowSkipped(0, py), passes, old(currentRenderZ),
                       old(forwardRenderNeeded), old(drawnTiles[..]), old(trace.composites),
                       old(canvas.depth[..]), old(canvas.pixels[..]),
                       drawnTiles[..], trace.composites, canvas.depth[..], passes[|passes| - 1].pixels1,
                       forwardRenderNeeded)
      ensures currentRenderZ <= maximumRenderZ ==>
                finishedRendering == old(finishedRendering) && saveCount == old(saveCount) &&
                (old(currentRenderZ) <= maximumRenderZ ==> canvas.pixels[..] == passes[|passes| - 1].pixels1)
      ensures old(currentRenderZ) <= maximumRenderZ < currentRenderZ ==>
                finishedRendering && saveCount == old(saveCount) + (if old(finishedRendering) then 0 else 1) &&
                forall k :: 0 <= k < canvas.pixels.Length ==>
                  canvas.pixels[k] == if canvas.depth[k] == MAX_DEPTH then background else passes[|passes| - 1].pixels1[k]
      ensures forall k :: 0 <= k < drawnTiles.Length && old(drawnTiles[k]) ==> drawnTiles[k]
      ensures |old(trace.composites)| <= |trace.composites| && trace.composites[..|old(trace.composites)|] == old(trace.composites)
      ensures forall j :: |old(trace.composites)| <= j < |trace.composites| ==>
                trace.composites[j].redraw && old(currentRenderZ) <= trace.composites[j].tz < currentRenderZ
      ensures !old(forwardRenderNeeded) ==>
                !forwardRenderNeeded && trace.composites == old(trace.composites) && canvas.depth[..] == old(canvas.depth[..])
      ensures old(forwardRenderNeeded) && old(currentRenderZ) <= maximumRenderZ ==>
                forwardRenderNeeded == HasVoid(canvas.depth[..])
    {
      passes := [];
      if currentRenderZ <= maximumRenderZ {
        renderTime := renderTime + 1;
        passes := ForwardLoop(sprites, inBudget);
        if currentRenderZ > maximumRenderZ {
          Finish();
        }
      }
    }

    /** The do-while loop of the scheduler, entered with the cursor in range;
        the ghost result holds one pass per layer. */
    method ForwardLoop(sprites: SpriteKey -> Sprite, inBudget: nat -> bool) returns (ghost passes: seq<Pass>)
      requires Valid() && currentRenderZ <= maximumRenderZ
      modifies canvas, canvas.depth, canvas.pixels, drawnTiles, trace
      modifies this`forwardRenderNeeded, this`currentRenderZ
      ensures Valid()
      ensures old(currentRenderZ) < currentRenderZ <= maximumRenderZ + 1
      ensures forall k :: 1 <= k < currentRenderZ - old(currentRenderZ) ==> inBudget(k)
      ensures currentRenderZ <= maximumRenderZ ==> !inBudget(currentRenderZ - old(currentRenderZ))
      ensures |passes| == currentRenderZ - old(currentRenderZ)
      ensures Passes(ViewWith(sprites), TileBounds(), RowSkipped(0, py), passes, old(currentRenderZ),
                     old(forwardRenderNeeded), old(drawnTiles[..]), old(trace.composites),
                     old(canvas.depth[..]), old(canvas.pixels[..]),
                     drawnTiles[..], trace.composites, canvas.depth[..], canvas.pixels[..], forwardRenderNeeded)
      ensures forall k :: 0 <= k < drawnTiles.Length && old(drawnTiles[k]) ==> drawnTiles[k]
      ensures |old(trace.composites)| <= |trace.composites| && trace.composites[..|old(trace.composites)|] == old(trace.composites)
      ensures forall j :: |old(trace.composites)| <= j < |trace.composites| ==>
                trace.composites[j].redraw && old(currentRenderZ) <= trace.composites[j].tz < currentRenderZ
      ensures !old(forwardRenderNeeded) ==>
                !forwardRenderNeeded && trace.composites == old(trace.composites) && canvas.depth[..] == old(canvas.depth[..])
      ensures old(forwardRenderNeeded) ==> forwardRenderNeeded == HasVoid(canvas.depth[..])
    {
      ghost var z0, log0, flags0, depth0, fwd0 := currentRenderZ, trace.composites, drawnTiles[..], canvas.depth[..], forwardRenderNeeded;
      ghost var pixels0 := canvas.pixels[..];
      ghost var v, b, skip := ViewWith(sprites), TileBounds(), RowSkipped(0, py);
      passes := [];
      var layers: nat := 0;
      var more := true;
      while more
        invariant Valid() && z0 <= currentRenderZ <= maximumRenderZ + 1 && layers == currentRenderZ - z0
        invariant more ==> currentRenderZ <= maximumRenderZ
        invariant forall k :: 1 <= k < layers ==> inBudget(k)
        invariant more && layers > 0 ==> inBudget(layers)
        invariant !more ==> layers > 0 && (currentRenderZ <= maximumRenderZ ==> !inBudget(layers))
        invariant |passes| == layers
        invariant Passes(v, b, skip, passes, z0, fwd0, flags0, log0, depth0, pixels0,
                         drawnTiles[..], trace.composites, canvas.depth[..], canvas.pixels[..], forwardRenderNeeded)
        decreases maximumRenderZ + 1 - currentRenderZ, more
      {
        passes := NextLayer(sprites, v, b, skip, passes, z0, fwd0, flags0, log0, depth0, pixels0);
        layers := layers + 1;
        more := currentRenderZ <= maximumRenderZ && inBudget(layers);
      }
      PassesFacts(v, b, skip, passes, z0, fwd0, flags0, log0, depth0, pixels0,
                  drawnTiles[..], trace.composites, canvas.depth[..], canvas.pixels[..], forwardRenderNeeded);
    }

    /** Renders the cursor's layer and advances the cursor: the passes so far
        are extended by that layer's pass. */
    method NextLayer(sprites: SpriteKey -> Sprite, ghost v: View, ghost b: Bounds, ghost skip: bool,
                     ghost passes: seq<Pass>, ghost z0: int, ghost fwd0: bool, ghost flags0: seq<bool>,
                     ghost log0: seq<Composite>, ghost depth0: seq<int>, ghost pixels0: seq<byte>)
      returns (ghost passes': seq<Pass>)
      requires Valid() && v == ViewWith(sprites) && b == TileBounds() && skip == RowSkipped(0, py)
      requires currentRenderZ == z0 + |passes|
      requires Passes(v, b, skip, passes, z0, fwd0, flags0, log0, depth0, pixels0,
                      drawnTiles[..], trace.composites, canvas.depth[..], canvas.pixels[..], forwardRenderNeeded)
      modifies canvas, canvas.depth, canvas.pixels, drawnTiles, trace
      modifies this`forwardRenderNeeded, this`currentRenderZ
      ensures Valid() && currentRenderZ == old(currentRenderZ) + 1 && |passes'| == |passes| + 1
      ensures Passes(v, b, skip, passes', z0, fwd0, flags0, log0, depth0, pixels0,
                     drawnTiles[..], trace.composites, canvas.depth[..], canvas.pixels[..], forwardRenderNeeded)
    {
      ghost var log, flags, depth, pixels, fwd :=
        trace.composites, drawnTiles[..], canvas.depth[..], canvas.pixels[..], forwardRenderNeeded;
      RenderLayer(sprites);
      ghost var p := Pass(currentRenderZ, fwd, flags, drawnTiles[..], trace.composites[|log|..],
                          depth, pixels, canvas.depth[..], canvas.pixels[..], forwardRenderNeeded);
      PassesStep(v, b, skip, passes, z0, fwd0, flags0, log0, depth0, pixels0,
                 flags, log, depth, pixels, fwd, p);
      assert log + p.calls == trace.composites;
      passes' := passes + [p];
      currentRenderZ := currentRenderZ + 1;
    }

    /** Reaching the end of the depth range: fill the voids with the
        background and, the first time only, record completion and save. */
    method Finish()
      requires Valid()
      modifies canvas.pixels, this`finishedRendering, this`saveCount
      ensures Valid() && finishedRendering
      ensures saveCount == old(saveCount) + (if old(finishedRendering) then 0 else 1)
      ensures forall k :: 0 <= k < canvas.pixels.Length ==>
                canvas.pixels[k] == if canvas.depth[k] == MAX_DEPTH then background else old(canvas.pixels[k])
    {
      FillHoles();
      if !finishedRendering {
        finishedRendering := true;
        saveCount := saveCount + 1;
      }
    }

    /** One step of the forward loop: composites the cursor's layer when a
        forward render is needed and records whether any void remains. */
    method RenderLayer(sprites: SpriteKey -> Sprite)
      requires Valid()
      modifies canvas, canvas.depth, canvas.pixels, drawnTiles, trace, this`forwardRenderNeeded
      ensures Valid()
      ensures |old(trace.composites)| <= |trace.composites| && trace.composites[..|old(trace.composites)|] == old(trace.composites)
      ensures PassDone(ViewWith(sprites), TileBounds(), RowSkipped(0, py),
                       Pass(currentRenderZ, old(forwardRenderNeeded), old(drawnTiles[..]), drawnTiles[..],
                            trace.composites[|old(trace.composites)|..],
                            old(canvas.depth[..]), old(canvas.pixels[..]), canvas.depth[..], canvas.pixels[..],
                            forwardRenderNeeded))
    {
      if forwardRenderNeeded {
        ghost var log, flags := trace.composites, drawnTiles[..];
        ghost var depth0, pixels0 := canvas.depth[..], canvas.pixels[..];
        RenderSlice(sprites, currentRenderZ);
        if !RowSkipped(0, py) {
          SliceLogSuffix(TileBounds(), flags, log, currentRenderZ, drawnTiles.Length, drawnTiles[..], trace.composites);
          CompositesSuffix(ViewWith(sprites), trace.composites, |log|, depth0, pixels0, canvas.depth[..], canvas.pixels[..]);
        }
        forwardRenderNeeded := canvas.HasMoreDepthAnywhere();
      }
    }

    /** Shifts every drawn depth by -dty as a 16-bit value; voids stay voids. */
    method ShiftDepths(dty: int)
      requires Valid()
      modifies canvas.depth
      ensures Valid()
      ensures canvas.depth[..] == ShiftedDepths(old(canvas.depth[..]), dty)
    {
      ghost var depth0 := canvas.depth[..];
      var buffer := canvas.depth;
      for i := 0 to buffer.Length
        invariant forall j :: 0 <= j < i ==> buffer[j] == ShiftedDepths(depth0, dty)[j]
        invariant forall j :: i <= j < buffer.Length ==> buffer[j] == depth0[j]
      {
        if buffer[i] != MAX_DEPTH {
          buffer[i] := ToShort(buffer[i] - dty);
        }
      }
      assert canvas.depth[..] == ShiftedDepths(depth0, dty);
    }

    /** The drawn-tile bitmap after a pan by (dtx, dty) tiles: a fresh bitmap
        of the same length holding each flag at its moved position when that
        lies in the kept window, and false everywhere else. */
    method RemapDrawnTiles(dtx: int, dty: int) returns (moved: array<bool>)
      requires Valid()
      ensures fresh(moved)
      ensures moved[..] == Remapped(drawnTiles[..], TileBounds(), dtx, dty)
    {
      var b := TileBounds();
      var w := b.Window(dtx, dty);
      IndexInRange(b, minCols, minRows);
      moved := new bool[drawnTiles.Length](_ => false);
      RemapStart(drawnTiles[..], b, dtx, dty, moved[..]);
      var tileIdx := -1;
      var y := minRows;
      while y <= maxRows
        invariant minRows <= y <= maxRows + 1 && tileIdx + 1 == b.Index(minCols, y) && tileIdx + 1 >= 0
        invariant RemapProgress(drawnTiles[..], b, dtx, dty, moved[..], tileIdx + 1)
      {
        var x := minCols;
        while x <= maxCols
          invariant minCols <= x <= maxCols + 1 && tileIdx + 1 == b.Index(x, y) && tileIdx + 1 >= 0
          invariant RemapProgress(drawnTiles[..], b, dtx, dty, moved[..], tileIdx + 1)
        {
          tileIdx := tileIdx + 1;
          IndexInRange(b, x, y);
          ghost var cur := moved[..];
          var value := drawnTiles[tileIdx];
          var mx := x + dtx;
          var my := y + dty;
          if mx >= w.minCols && mx <= w.maxCols && my >= w.minRows && my <= w.maxRows {
            WindowInBounds(b, dtx, dty, mx, my);
            IndexInRange(b, mx, my);
            IndexShift(b, x, y, dtx, dty);
            var index := tileIdx;
            index := index + dty * (maxCols - minCols + 1) + dtx;
            moved[index] := value;
          }
          RemapStep(drawnTiles[..], b, dtx, dty, x, y, cur, moved[..]);
          x := x + 1;
        }
        IndexShift(b, minCols, y, 0, 1);
        y := y + 1;
      }
      RemapComplete(drawnTiles[..], b, dtx, dty, moved[..]);
    }

    /** Pans the view by (dtx, dty) tiles, moving the start block by
        (modX, modZ): moves the canvas pixels by the matching screen offset,
        remaps the drawn-tile bitmap, shifts the depths when moving vertically,
        and resets the renderer for translation. */
    method MoveTiles(dtx: int, dty: int, modX: int, modZ: int)
      requires Valid()
      modifies canvas.depth, canvas.pixels, this`drawnTiles, this`px, this`pz
      modifies this`minCols, this`maxCols, this`minRows, this`maxRows
      modifies this`minimumRenderZ, this`maximumRenderZ, this`blockBounds, this`currentRenderZ
      modifies this`finishedRendering, this`forwardRenderNeeded, this`dirtyTiles, this`renderTime
      ensures Valid() && fresh(drawnTiles)
      ensures px == old(px) + modX && pz == old(pz) + modZ
      ensures TileBounds() == old(TileBounds())
      ensures drawnTiles[..] == Remapped(old(drawnTiles[..]), TileBounds(), dtx, dty)
      ensures var sx := env.screenX(zoom, dtx) - env.screenX(zoom, 0);
              var sy := env.screenY(zoom, dty) - env.screenY(zoom, 0);
              var moved := Moved(old(canvas.depth[..]), canvas.width, canvas.height, sx, sy, MAX_DEPTH);
              canvas.depth[..] == (if dty != 0 then ShiftedDepths(moved, dty) else moved) &&
              canvas.pixels[..] == Moved(old(canvas.pixels[..]), canvas.width, canvas.height, sx, sy, TRANSPARENT)
      ensures currentRenderZ == minimumRenderZ && !finishedRendering && forwardRenderNeeded && dirtyTiles == {}
      ensures ViewReset()
    {
      var sx, sy := env.screenX(zoom, dtx) - env.screenX(zoom, 0), env.screenY(zoom, dty) - env.screenY(zoom, 0);
      MoveCanvas(sx, sy, dty);
      var moved := RemapDrawnTiles(dtx, dty);
      drawnTiles := moved;
      px := px + modX;
      pz := pz + modZ;
      // Rendering for translation keeps depths and drawn flags, so it is
      // the view reset alone (see Render).
      ResetView(false);
    }

    /** Moves the canvas contents by (sx, sy) pixels and, when the pan is
        vertical (dty != 0), shifts the drawn depths by -dty. */
    method MoveCanvas(sx: int, sy: int, dty: int)
      requires Valid()
      modifies canvas.depth, canvas.pixels
      ensures Valid()
      ensures var moved := Moved(old(canvas.depth[..]), canvas.width, canvas.height, sx, sy, MAX_DEPTH);
              canvas.depth[..] == (if dty != 0 then ShiftedDepths(moved, dty) else moved)
      ensures canvas.pixels[..] == Moved(old(canvas.pixels[..]), canvas.width, canvas.height, sx, sy, TRANSPARENT)
    {
      canvas.MovePixels(sx, sy);
      if dty != 0 {
        ShiftDepths(dty);
      }
    }

    /** Selects menu button `index`, wrapped around the button count. */
    method SetMenuIndex(index: int)
      requires Valid()
      modifies this`menuSelectIndex
      ensures Valid() && menuSelectIndex == index % MENU_BUTTONS
    {
      var i := WrapMenuIndex(index, MENU_BUTTONS);
      if menuSelectIndex != i {
        menuSelectIndex := i;
      }
    }

    /** Moves n steps through the zoom levels, limited to the first and last,
        and renders from scratch. */
    method Zoom(n: int)
      requires Valid()
      modifies this`zoom, this`minCols, this`maxCols, this`minRows, this`maxRows
      modifies this`minimumRenderZ, this`maximumRenderZ, this`blockBounds, this`currentRenderZ
      modifies this`finishedRendering, this`forwardRenderNeeded, this`dirtyTiles, this`drawnTiles
      modifies this`renderTime, drawnTiles, canvas.depth
      ensures Valid()
      ensures zoom == env.zoomLevels[Clamp(FirstIndex(env.zoomLevels, old(zoom)) + n, 0, |env.zoomLevels| - 1)]
      ensures currentRenderZ == minimumRenderZ && !finishedRendering && forwardRenderNeeded && dirtyTiles == {}
      ensures ViewReset()
      ensures forall k :: 0 <= k < drawnTiles.Length ==> !drawnTiles[k]
      ensures forall k :: 0 <= k < canvas.depth.Length ==> canvas.depth[k] == MAX_DEPTH
    {
      var idx := ZoomIndex(env.zoomLevels, zoom, n);
      zoom := env.zoomLevels[idx];
      Render(Initialize);
    }

    /** Rotates the view by n quarter turns and renders from scratch. */
    method Rotate(n: int)
      requires Valid()
      modifies this`facing, this`minCols, this`maxCols, this`minRows, this`maxRows
      modifies this`minimumRenderZ, this`maximumRenderZ, this`blockBounds, this`currentRenderZ
      modifies this`finishedRendering, this`forwardRenderNeeded, this`dirtyTiles, this`drawnTiles
      modifies this`renderTime, drawnTiles, canvas.depth
      ensures Valid()
      ensures facing == env.rotate(old(facing), n * 2)
      ensures currentRenderZ == minimumRenderZ && !finishedRendering && forwardRenderNeeded && dirtyTiles == {}
      ensures ViewReset()
      ensures forall k :: 0 <= k < drawnTiles.Length ==> !drawnTiles[k]
      ensures forall k :: 0 <= k < canvas.depth.Length ==> canvas.depth[k] == MAX_DEPTH
    {
      facing := env.rotate(facing, n * 2);
      Render(Initialize);
    }
  }
}
