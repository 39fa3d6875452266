# Maplands isometric renderer: a verified model

This project models the incremental renderer behind a Maplands map display
(`MaplandsDisplay`). The display draws an isometric view of the world onto a
map canvas one depth layer at a time, front to back. Each canvas pixel has a
16-bit depth. The value `MAX_DEPTH` marks a *void*, a pixel nothing has been
drawn at yet. The display keeps:

- the tile bounds `minCols..maxCols` by `minRows..maxRows`, symmetric about
  the centre tile;
- the render cursor `currentRenderZ` inside the depth range
  `minimumRenderZ..maximumRenderZ`;
- `forwardRenderNeeded`, which says whether the current layer still has voids,
  and the persisted `finishedRendering` flag;
- the row-major `drawnTiles` bitmap, where a set flag means "fully covered, no
  deeper layer needed";
- the `dirtyTiles` set of tiles changed in the world since the last tick.

The model is imperative, like the source:

- `MaplandsDisplay` is a class over those fields. Its methods update them in
  place. Each method's `modifies` clauses name what it may change, and its
  postconditions say what those fields hold afterwards. Some contracts state
  relations rather than values: the drain picks its tiles in no fixed order,
  and the scheduler's passes are described through the ghost log below.
- The canvas is a `Canvas` class.
  - Its depth and colour buffers are arrays.
  - Sprite drawing, the footprint void test and pixel shifting are specified
    by functions on `seq`s (`PaintedDepth`, `HasMoreDepthIn`, `Moved`).
- A ghost log `Trace.composites` records every call of the tile compositor
  (`drawBlockTile`), in order. Each entry holds the tile, the draw depth, the
  answer "a void remains", where the current view places the sprite (if
  anywhere), and the depth and colour buffers before and after the call
  (`Composited`). The contracts of the slice pass, the dirty-tile drain and
  the scheduler are stated over this log, together with the flags, the cursor
  and the canvas contents. Their entries form a chain from the old canvas to
  the new one (`Composites`). The scheduler also returns one ghost `Pass`
  record per layer (`Passes`).

Files:

- `grid.dfy`: row-major flat indexing.
- `tiles.dfy`: tile bounds, bitmap index, the pan window and remap, the
  clear-tile list, the invalidation neighbourhood.
- `canvas.dfy`: the depth canvas.
- `maplands.dfy`: the display.

The collaborators the renderer calls but whose code is not part of this model
are fields of a constant `Env` record of functions. Nothing is assumed about
them. They are:

- the tile/block mapping (`MapUtil.screenTileToBlock` / `blockToScreenTile`),
  returning an `Option`;
- the zoom geometry (columns, rows, draw and screen offsets);
- the block-bounds computation;
- `FaceUtil.rotate`.

The sprite source reflects the world as it is when a tick runs. It is a
parameter `sprites` of `OnTick` and of every method that draws, so each tick
may see a different world.

The time budget of a tick is a parameter `inBudget(k)`: whether time remains
after k layers.

Three behaviours of the source worth noting:

- `drawBlockTile` reports "void remains" (`true`) when the tile maps to no
  block (MaplandsDisplay.java:349-351).
- The air sprite is skipped without drawing on slice-pass redraws
  (`isRedraw == true`). It is still drawn by the dirty-tile drain, which
  passes `false` (370).
- The row test of `renderSlice` (518-522) does not depend on the row. It
  skips every row when the start block's height is below 0 or above 256, and
  otherwise skips none (`Tiles.RowSkipUniform`). Skipped rows do not advance
  the bitmap index.

Notes on the modelled canvas:

- `MapCanvas` is not part of this model. Its behaviour is modelled as:
  - `draw` has a depth test. Each pixel the sprite covers, clipped to the
    canvas, takes the sprite's colour and the draw depth when the depth it
    holds is the draw depth or farther. A void is the farthest depth. Nearer
    pixels are kept. So a deeper layer never paints over what a nearer layer
    drew, and re-rendering a layer over a restored image keeps the image;
  - `hasMoreDepth` asks whether any pixel of the clipped footprint is a void;
  - `movePixels` fills the uncovered area with voids and transparent colour.
- `MAX_DEPTH` is 32767 (`Short.MAX_VALUE`).
- Depths are 16-bit values. The Java decrement `buffer[i] -= dty` of a
  `short` wraps, and the model says so explicitly (`ToShort`).
- Java's `drawnTiles == null` before the first render is the initial
  zero-length array. After any render its length is at least one.

## Model

| member | source | states |
|---|---|---|
| Maplands.MaplandsDisplay.constructor | src/main/java/com/bergerkiller/bukkit/maplands/MaplandsDisplay.java:118-123 | a new display holds the configured start block, world, facing, zoom and finished flag, a valid canvas of the given size, an empty dirty set and log, and no saves |
| Maplands.MaplandsDisplay.OnAttached | src/main/java/com/bergerkiller/bukkit/maplands/MaplandsDisplay.java:56-99 | attaching fills the canvas with the background colour, then restores the cached colours and depths and renders FROM_CACHE when a snapshot of the right size exists, otherwise renders INITIALIZE; afterwards the display is valid, the depth range, block bounds and render time are reset (`ViewReset`), every drawn flag is clear, the cursor is at the back of the range only for a restored finished render |
| Maplands.MaplandsDisplay.OnDetached | src/main/java/com/bergerkiller/bukkit/maplands/MaplandsDisplay.java:102-107 | detaching saves the canvas once (save counter + 1) |
| Maplands.MaplandsDisplay.Render | src/main/java/com/bergerkiller/bukkit/maplands/MaplandsDisplay.java:118-190 | the reset: bounds are ±columns and ±rows of the zoom for the canvas size; minimumRenderZ = minRows - (256 - py), maximumRenderZ = maxRows + py, block bounds recomputed from them and offset by the start block, render time 0 (`ViewReset`); cursor = maximumRenderZ only for FROM_CACHE with the finished flag, else minimumRenderZ with the flag cleared; forward render needed, dirty set empty; unless TRANSLATION the bitmap has length rows*columns and is all false, and is the same array exactly when its length already matched (a fresh one otherwise); for TRANSLATION it is untouched; only INITIALIZE voids the depth buffer |
| Maplands.MaplandsDisplay.ResetView | src/main/java/com/bergerkiller/bukkit/maplands/MaplandsDisplay.java:153-176 | the bounds, depth range, block bounds (`ViewReset`) and cursor part of the reset, with the same equations as Render |
| Maplands.MaplandsDisplay.ResetCursor | src/main/java/com/bergerkiller/bukkit/maplands/MaplandsDisplay.java:168-176 | cursor at the back only when restoring a finished render from the cache, otherwise at the front with the finished flag cleared; forward render needed, dirty set empty |
| Maplands.MaplandsDisplay.ResetDrawnTiles | src/main/java/com/bergerkiller/bukkit/maplands/MaplandsDisplay.java:180-187 | the bitmap has length rows*columns and every flag is clear; the same array is kept exactly when its length already matched, otherwise a fresh one is allocated |
| Maplands.MaplandsDisplay.OnBlockChange | src/main/java/com/bergerkiller/bukkit/maplands/MaplandsDisplay.java:200-212 | the dirty set gains the mapped tile exactly when the world matches, the block bounds contain the block, the mapping is defined and the tile's x and y are within the bounds (its depth is not checked); otherwise the set is unchanged |
| Maplands.MaplandsDisplay.InvalidateTile | src/main/java/com/bergerkiller/bukkit/maplands/MaplandsDisplay.java:214-224 | for an in-bounds tile exactly the flag at its row-major index is cleared, a forward render is requested and the cursor becomes min(cursor, tz); out of bounds nothing changes |
| Maplands.MaplandsDisplay.InvalidateAround | src/main/java/com/bergerkiller/bukkit/maplands/MaplandsDisplay.java:555-559 | exactly the flags of the 3-by-5 neighbourhood (±1 column, ±2 rows) are cleared, the rest are kept; a forward render is requested and the cursor becomes min(cursor, the tile's depth) |
| Maplands.MaplandsDisplay.DrawBlockAtTile | src/main/java/com/bergerkiller/bukkit/maplands/MaplandsDisplay.java:364-404 | the canvas changes exactly as `PlacementAt` places the block (`Painted`): nowhere when the block's height is outside [0, 256) or the block is air on a redraw, and then the result is true and nothing changes; otherwise the brush sprite is painted at the zoom's draw position plus half the canvas size, at the draw depth, and the result is whether a void remains under exactly its footprint |
| Maplands.MaplandsDisplay.DrawBlockTile | src/main/java/com/bergerkiller/bukkit/maplands/MaplandsDisplay.java:345-352 | the log gains exactly one entry, recording the tile, redraw flag, draw depth, result, placement and the buffers before and after; the placement is none when the tile maps to no block (result true, canvas unchanged), otherwise as DrawBlockAtTile on the mapped block (`Composited`) |
| Maplands.MaplandsDisplay.RenderSlice | src/main/java/com/bergerkiller/bukkit/maplands/MaplandsDisplay.java:514-533 | sets the draw depth; when rows are skipped nothing else changes; otherwise the log gains one redraw at this depth for each tile whose flag was clear, in index order, each such flag ends set exactly when no void remained, every other flag is kept, and the new entries are compositor calls under the current view that, one after the other, took the canvas from its old to its new contents |
| Maplands.MaplandsDisplay.RenderRow | src/main/java/com/bergerkiller/bukkit/maplands/MaplandsDisplay.java:524-531 | one row of the slice pass advances the bitmap index by the row width, extends the slice log accordingly, and keeps the chain of compositor effects ending at the current canvas |
| Maplands.MaplandsDisplay.RenderTile | src/main/java/com/bergerkiller/bukkit/maplands/MaplandsDisplay.java:525-530 | a flagged tile is passed over; a clear one is composited as a redraw and flagged when no void remains; the call's effect extends the chain ending at the current canvas |
| Maplands.SliceLogStep | src/main/java/com/bergerkiller/bukkit/maplands/MaplandsDisplay.java:525-530 | one tile of the slice pass preserves the slice-log invariant |
| Maplands.SliceLogEntries | src/main/java/com/bergerkiller/bukkit/maplands/MaplandsDisplay.java:524-531 | a slice pass only appends to the log, only redraws at its depth, and never clears a flag that was set |
| Maplands.SliceCompositesClearTiles | src/main/java/com/bergerkiller/bukkit/maplands/MaplandsDisplay.java:516-533 | a finished slice pass composited every tile that was clear, never a tile that was flagged, in strictly increasing bitmap-index order (so each tile once) |
| Maplands.SliceUnplacedStaysClear | src/main/java/com/bergerkiller/bukkit/maplands/MaplandsDisplay.java:525-530 | a finished slice pass never flags a tile the view places no sprite at, because compositing it reports a void |
| Maplands.SliceDepthFrame | src/main/java/com/bergerkiller/bukkit/maplands/MaplandsDisplay.java:515-530 | a finished slice pass changes a depth entry, if at all, to the layer's 16-bit draw depth, and keeps the buffer's size |
| Maplands.CompositesDepthFrame | src/main/java/com/bergerkiller/bukkit/maplands/MaplandsDisplay.java:394 | compositor calls that all draw at one draw depth change a depth entry, if at all, to that depth |
| Maplands.CompositesStep | src/main/java/com/bergerkiller/bukkit/maplands/MaplandsDisplay.java:525-530 | appending a call that starts from the canvas the log left extends the chain to that call's result |
| Maplands.CompositesInit | src/main/java/com/bergerkiller/bukkit/maplands/MaplandsDisplay.java:525-530 | dropping the last call of a chain leaves a chain ending at the canvas that call started from, and the call itself is a compositor call |
| Maplands.CompositesSuffix | src/main/java/com/bergerkiller/bukkit/maplands/MaplandsDisplay.java:514-533 | the entries after a given point of a chain form a chain on their own |
| Tiles.UnflaggedComplete | src/main/java/com/bergerkiller/bukkit/maplands/MaplandsDisplay.java:524-526 | the list of clear indices the pass visits contains every clear index |
| Tiles.UnflaggedIncreasing | src/main/java/com/bergerkiller/bukkit/maplands/MaplandsDisplay.java:524-526 | the clear indices are visited in strictly increasing order |
| Tiles.RowSkipUniform | src/main/java/com/bergerkiller/bukkit/maplands/MaplandsDisplay.java:518-522 | the row test skips a row iff startY < 0 or startY > 256, whatever the row |
| Maplands.MaplandsDisplay.OnTick | src/main/java/com/bergerkiller/bukkit/maplands/MaplandsDisplay.java:549-594 | after a tick the dirty set is empty; a finished render stays finished with no new save; at most one save happens, and only together with the finished flag |
| Maplands.MaplandsDisplay.DrainDirtyTiles | src/main/java/com/bergerkiller/bukkit/maplands/MaplandsDisplay.java:551-563 | the dirty set ends empty; the log gains exactly one non-redraw composite per dirty tile, at the tile's own depth; each that left a void cleared its 3-by-5 neighbourhood's flags; the cursor is the lowest such depth (or unchanged); a forward render is requested iff one was or some tile left a void; the new entries are compositor calls under the current view chained from the old canvas to the new one |
| Maplands.MaplandsDisplay.DrainLoop | src/main/java/com/bergerkiller/bukkit/maplands/MaplandsDisplay.java:552-561 | the loop over the dirty set: afterwards the drain invariant holds for the whole set and the new entries chain the old canvas to the new one |
| Maplands.MaplandsDisplay.DrainTile | src/main/java/com/bergerkiller/bukkit/maplands/MaplandsDisplay.java:553-560 | one dirty tile: composited as a non-redraw at its own depth and, on a void, its neighbourhood invalidated; preserves the drain invariant and extends the chain of compositor effects |
| Maplands.LowestVoidDepth | src/main/java/com/bergerkiller/bukkit/maplands/MaplandsDisplay.java:555-559 | the cursor after the drain is at most the old cursor and at most every void tile's depth, and equals one of them |
| Maplands.EachTileOnceStep | src/main/java/com/bergerkiller/bukkit/maplands/MaplandsDisplay.java:552-554 | compositing a new dirty tile keeps "each handled tile composited exactly once" |
| Maplands.NeighbourhoodsClearedStep | src/main/java/com/bergerkiller/bukkit/maplands/MaplandsDisplay.java:554-559 | invalidating the neighbourhood of a void tile keeps the flags equal to the initial flags minus every void tile's neighbourhood |
| Maplands.LastStep | src/main/java/com/bergerkiller/bukkit/maplands/MaplandsDisplay.java:554-559 | appending a composite lowers the drain cursor to its depth exactly when it left a void, and adds it to "some void" |
| Maplands.DrainLogStart | src/main/java/com/bergerkiller/bukkit/maplands/MaplandsDisplay.java:551-552 | before the drain nothing is handled and the state is the initial one |
| Maplands.DrainLogStep | src/main/java/com/bergerkiller/bukkit/maplands/MaplandsDisplay.java:552-561 | one tile of the drain preserves the whole drain invariant |
| Maplands.EntryOf | src/main/java/com/bergerkiller/bukkit/maplands/MaplandsDisplay.java:552-554 | every tile of the drained set has its entry in the log |
| Maplands.DrainUnplacedClearsNeighbourhood | src/main/java/com/bergerkiller/bukkit/maplands/MaplandsDisplay.java:553-559 | a drained tile the view places no sprite at reported a void, so every flag of its 3-by-5 neighbourhood ends clear, a forward render is requested and the cursor is at most its depth |
| Maplands.MaplandsDisplay.Advance | src/main/java/com/bergerkiller/bukkit/maplands/MaplandsDisplay.java:565-594 | with the cursor past the range nothing changes and no pass is recorded; otherwise the cursor advances by at least one and never past maximumRenderZ + 1, every layer before the last was in budget and it stops early only when the budget is spent; one pass is recorded per layer passed, each at its depth, starting from the state the previous one left (`Passes`): a rendering pass ran the slice pass under the current view from the previous canvas, flags and log, and every pass sets the forward flag to whether a void remains (clear when no render was needed); reaching the end finishes once (flag set, one save only if not finished before) and paints every void pixel of the last pass's canvas with the background; flags are never cleared; the log only gains redraws at depths the cursor passed |
| Maplands.MaplandsDisplay.ForwardLoop | src/main/java/com/bergerkiller/bukkit/maplands/MaplandsDisplay.java:569-574 | the do-while cursor loop: advances by at least one, stops at maximumRenderZ + 1 or when the budget is spent, and records one chained pass per layer (`Passes`); never clears a flag, logs only redraws at depths it passed, and ends with the forward flag saying whether a void remains |
| Maplands.MaplandsDisplay.NextLayer | src/main/java/com/bergerkiller/bukkit/maplands/MaplandsDisplay.java:570-574 | one turn of the loop extends the recorded passes by the cursor's layer and advances the cursor by one |
| Maplands.MaplandsDisplay.RenderLayer | src/main/java/com/bergerkiller/bukkit/maplands/MaplandsDisplay.java:570-573 | the layer's pass (`PassDone`): when a forward render is needed and rows are not skipped, the slice pass at the cursor's depth is recorded (flags and log as in RenderSlice, the entries chained from the old canvas to the new one); otherwise flags, log and canvas are unchanged; the forward flag becomes whether any void remains, and stays clear when no render was needed |
| Maplands.PassesStep | src/main/java/com/bergerkiller/bukkit/maplands/MaplandsDisplay.java:569-574 | appending a pass that starts from the state the recorded passes left keeps the pass chain |
| Maplands.PassesFacts | src/main/java/com/bergerkiller/bukkit/maplands/MaplandsDisplay.java:569-574 | over any recorded passes: the log only grows, by redraws at the passes' depths; flags are never cleared; without a forward render at the start nothing changes; otherwise the forward flag says whether a void remains |
| Maplands.MaplandsDisplay.Finish | src/main/java/com/bergerkiller/bukkit/maplands/MaplandsDisplay.java:576-591 | void pixels get the background and all others are kept; the finished flag is set and the save happens only the first time |
| Maplands.MaplandsDisplay.FillHoles | src/main/java/com/bergerkiller/bukkit/maplands/MaplandsDisplay.java:578-584 | exactly the void pixels are painted with the background colour |
| Maplands.MaplandsDisplay.FillColumn | src/main/java/com/bergerkiller/bukkit/maplands/MaplandsDisplay.java:579-583 | one column of the fill, top to bottom |
| Maplands.MaplandsDisplay.MoveTiles | src/main/java/com/bergerkiller/bukkit/maplands/MaplandsDisplay.java:272-329 | a pan keeps the bounds, moves the start block by (modX, modZ), moves the canvas by the zoom's screen offset of the tile delta, replaces the bitmap by a fresh remapped one, shifts depths when dty != 0, and resets for translation: cursor at the front, forward render needed, dirty set empty, depth range, block bounds and render time recomputed (`ViewReset`) |
| Maplands.MaplandsDisplay.RemapDrawnTiles | src/main/java/com/bergerkiller/bukkit/maplands/MaplandsDisplay.java:297-311 | the new bitmap is fresh, has the same length, and equals the remap function of the old one |
| Tiles.RemappedMoves | src/main/java/com/bergerkiller/bukkit/maplands/MaplandsDisplay.java:282-312 | new[(x+dtx, y+dty)] = old[(x, y)] exactly when the target lies in the window shrunk on the leading edge (+dtx+1, +dtx-1, +dty+7, +dty-5); every other in-bounds target is false |
| Tiles.WindowInBounds | src/main/java/com/bergerkiller/bukkit/maplands/MaplandsDisplay.java:282-308 | every target in the shrunk window, and its source, lies inside the bounds, so every index the remap reads or writes is in range |
| Tiles.PanThereAndBack | src/main/java/com/bergerkiller/bukkit/maplands/MaplandsDisplay.java:297-312 | panning and panning back never sets a flag that was clear |
| Tiles.RemapStart | src/main/java/com/bergerkiller/bukkit/maplands/MaplandsDisplay.java:297-298 | the all-false new bitmap has visited no source index |
| Tiles.RemapStep | src/main/java/com/bergerkiller/bukkit/maplands/MaplandsDisplay.java:301-309 | copying one flag to its target keeps the remap loop invariant |
| Tiles.RemapComplete | src/main/java/com/bergerkiller/bukkit/maplands/MaplandsDisplay.java:311-312 | once every source index is visited, the new bitmap is the remap of the old one |
| Tiles.IndexCoords | src/main/java/com/bergerkiller/bukkit/maplands/MaplandsDisplay.java:215-218 | an in-bounds tile's row-major index is inside the bitmap and gives the tile back |
| Tiles.IndexInRange | src/main/java/com/bergerkiller/bukkit/maplands/MaplandsDisplay.java:215-218 | an in-bounds tile's index is inside the bitmap |
| Tiles.CoordsIndex | src/main/java/com/bergerkiller/bukkit/maplands/MaplandsDisplay.java:299-302 | the running index of the row/column loops is the row-major index of the tile visited |
| Tiles.IndexShift | src/main/java/com/bergerkiller/bukkit/maplands/MaplandsDisplay.java:306-307 | adding dty rows and dtx columns to the index is the index of the moved tile |
| Maplands.MaplandsDisplay.ShiftDepths | src/main/java/com/bergerkiller/bukkit/maplands/MaplandsDisplay.java:315-322 | every non-void depth is decreased by dty as a 16-bit value; voids stay voids |
| Maplands.MaplandsDisplay.MoveCanvas | src/main/java/com/bergerkiller/bukkit/maplands/MaplandsDisplay.java:274-277 | the canvas is moved by the pixel offset; depths are then shifted only when dty != 0 |
| Maplands.ShiftedDepthsRoundTrip | src/main/java/com/bergerkiller/bukkit/maplands/MaplandsDisplay.java:315-322 | shifting by dty and then by -dty restores the buffer when no depth wraps or lands on the void value |
| DepthCanvas.ToShort | src/main/java/com/bergerkiller/bukkit/maplands/MaplandsDisplay.java:319 | the narrowing is a 16-bit value congruent to its input modulo 65536, and is the identity on 16-bit values |
| DepthCanvas.MovedAt | src/main/java/com/bergerkiller/bukkit/maplands/MaplandsDisplay.java:274-277 | after a pixel shift, pixel (c, r) holds the old pixel (c - dx, r - dy) when that is on the canvas and the fill value otherwise |
| DepthCanvas.OpaqueDrawLeavesNoVoid | src/main/java/com/bergerkiller/bukkit/maplands/MaplandsDisplay.java:394-397 | drawing a sprite that covers its whole footprint, at a draw depth nearer than the void depth, leaves no void there (each pixel takes the draw depth or already held a nearer one), so the tile can be flagged |
| DepthCanvas.Canvas.Draw | src/main/java/com/bergerkiller/bukkit/maplands/MaplandsDisplay.java:392-394 | the layer's `draw(sprite, draw_x, draw_y)` with a depth test: a pixel the sprite covers, clipped to the canvas, takes the sprite's colour and the draw depth exactly when its depth is the draw depth or farther (voids included); nearer pixels and uncovered pixels are kept |
| DepthCanvas.Canvas.HasMoreDepth | src/main/java/com/bergerkiller/bukkit/maplands/MaplandsDisplay.java:397 | true iff some pixel of the clipped footprint is a void |
| DepthCanvas.Canvas.HasMoreDepthAnywhere | src/main/java/com/bergerkiller/bukkit/maplands/MaplandsDisplay.java:572 | true iff some pixel of the canvas is a void |
| DepthCanvas.Canvas.SetDrawDepth | src/main/java/com/bergerkiller/bukkit/maplands/MaplandsDisplay.java:515 | the draw depth becomes the layer's depth as a 16-bit value |
| DepthCanvas.Canvas.GetDepth | src/main/java/com/bergerkiller/bukkit/maplands/MaplandsDisplay.java:580 | the depth of a pixel is a 16-bit value |
| DepthCanvas.Canvas.WritePixel | src/main/java/com/bergerkiller/bukkit/maplands/MaplandsDisplay.java:581 | exactly one pixel's colour changes |
| DepthCanvas.Canvas.MovePixels | src/main/java/com/bergerkiller/bukkit/maplands/MaplandsDisplay.java:274-277 | colours and depths are shifted by the pixel offset, the uncovered area becomes transparent and void |
| DepthCanvas.Canvas.ClearDepthBuffer | src/main/java/com/bergerkiller/bukkit/maplands/MaplandsDisplay.java:148-150 | every pixel becomes a void |
| DepthCanvas.Canvas.Fill | src/main/java/com/bergerkiller/bukkit/maplands/MaplandsDisplay.java:57 | every pixel gets the background colour |
| DepthCanvas.Canvas.Load | src/main/java/com/bergerkiller/bukkit/maplands/MaplandsDisplay.java:92 | the canvas holds exactly the cached colours and depths |
| Maplands.MaplandsDisplay.SetMenuIndex | src/main/java/com/bergerkiller/bukkit/maplands/MaplandsDisplay.java:423-436 | the selected button is index mod 4 |
| Maplands.WrapMenuIndex | src/main/java/com/bergerkiller/bukkit/maplands/MaplandsDisplay.java:424-429 | adding or subtracting n until in range yields index mod n, in 0..n-1 |
| Maplands.MaplandsDisplay.Zoom | src/main/java/com/bergerkiller/bukkit/maplands/MaplandsDisplay.java:438-448 | the zoom moves n steps through the level list, clamped to its ends, and the display renders from scratch (all flags clear, all depths void, cursor at the front, depth range, block bounds and render time reset) |
| Maplands.ZoomIndex | src/main/java/com/bergerkiller/bukkit/maplands/MaplandsDisplay.java:439-445 | the new index is the current level's first position plus n, clamped to the list |
| Maplands.FirstIndex | src/main/java/com/bergerkiller/bukkit/maplands/MaplandsDisplay.java:441-444 | the position of the first occurrence of the level |
| Maplands.MaplandsDisplay.Rotate | src/main/java/com/bergerkiller/bukkit/maplands/MaplandsDisplay.java:450-455 | the facing is rotated by 2n steps and the display renders from scratch (all flags clear, all depths void, cursor at the front, depth range, block bounds and render time reset) |

## Left out

- Lighting of sprites (MaplandsDisplay.java:374-392) is left out. It is a floating-point light factor from a world chunk query, and it does not change the occlusion answer.
- Menus are left out: buttons, menu visibility, menu ticks, `onKeyPressed` dispatch and `onRightClick`. These are user interface. The index arithmetic of `setMenuIndex` and `zoom` is modelled.
- The player fallback when no map world is configured (121-136) is left out. It is a host lookup. The start block, world, facing and zoom are plain fields.
- The static display registry and its delayed `Task` (597-617) are left out. They are host scheduling and global state.
- Cache I/O is reduced to two things. Saving is a counter (`saveCount`). Loading is an optional `Snapshot` given to `OnAttached`.
- `getTileAt` and `getBlockAt` (483-507) are left out. They are lookups for click handling and do not touch the renderer state.
- The host's coordinate mapping, zoom geometry, block-bounds computation and face rotation are not part of this model. They are functions in `Env`, and no round trip is assumed between the two mappings. The sprite source is the parameter `sprites`. The brush mask (145, 151) is not modelled.
- DepthCanvas.Canvas.Draw: `MapCanvas` is not part of this model. Its `draw` is modelled as writing the covered pixels whose depth is not nearer than the draw depth. The renderer's use of the canvas implies this: it draws front to back and keeps numeric depths, which it shifts on a pan (315-322). Which pixels a sprite covers is the sprite's `covers` predicate. A draw never turns a pixel back into a void. So removing a block cannot reveal a void in the model, and the drain reports one only where the footprint already had one.
- The wall-clock time budget (566, 574) is the parameter `inBudget`. It is checked after each layer, as in the source.
- The iteration order of the dirty `HashSet` is arbitrary: the model picks some remaining tile.
- Maplands.MaplandsDisplay.InvalidateAround: requires its centre tile to be in bounds. This holds for every dirty tile, since only in-bounds tiles are queued (`Valid`). It is what lets the contract promise a forward render and a lowered cursor.
- Maplands.MaplandsDisplay.MoveTiles: calls the view reset (`ResetView(false)`) that `Render(Translation)` consists of, instead of `Render` itself. For translation the render reset keeps the depths and the drawn flags, so the two are the same.
- Maplands.MaplandsDisplay.OnTick: states the drain's and the scheduler's guarantees through `DrainDirtyTiles` and `Advance`, and only the end-to-end save and finish facts itself.
- Integer widths: tile and block coordinates are unbounded integers. No Java `int` overflow is modelled, because coordinates stay far below 2^31. Depths use explicit 16-bit wrap-around.
