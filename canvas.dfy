/** The map canvas with its per-pixel depth channel: a row-major colour buffer
    and a row-major buffer of 16-bit depth values, where MAX_DEPTH means that
    nothing has been drawn at that pixel yet (a void). */
module DepthCanvas {
  import Grid

  /** A map colour. */
  newtype byte = x: int | 0 <= x < 256

  /** The depth of a pixel nothing has been drawn at: the largest 16-bit value. */
  const MAX_DEPTH: int := 32767

  /** The colour of a pixel the canvas has no content for. */
  const TRANSPARENT: byte := 0

  predicate IsShort(v: int) {
    -32768 <= v <= 32767
  }

  /** Narrowing of an int to a 16-bit two's-complement value. */
  function ToShort(v: int): (r: int)
    ensures IsShort(r)
    ensures (v - r) % 65536 == 0
    ensures IsShort(v) ==> r == v
  {
    (v + 32768) % 65536 - 32768
  }

  /** A block sprite: its footprint size, which pixels of the footprint a draw
      writes (the sprite's opaque pixels inside the tile's brush mask), and
      their colours. The air sprite is flagged. */
  datatype Sprite = Sprite(air: bool, width: nat, height: nat,
                           covers: (int, int) -> bool, colour: (int, int) -> byte)

  /** Pixel k of a canvas of row width w lies in the rw-by-rh rectangle at (x, y). */
  predicate InRect(w: nat, k: int, x: int, y: int, rw: int, rh: int)
    requires w > 0
  {
    x <= k % w < x + rw && y <= k / w < y + rh
  }

  /** Drawing sprite s at (x, y) writes pixel k. */
  predicate Covers(w: nat, k: int, x: int, y: int, s: Sprite)
    requires w > 0
  {
    InRect(w, k, x, y, s.width, s.height) && s.covers(k % w - x, k / w - y)
  }

  /** Drawing s at (x, y) with draw depth d over the depth buffer buf writes
      pixel k: the sprite covers it, and what it holds is not nearer than d. */
  predicate Writes(buf: seq<int>, w: nat, k: int, x: int, y: int, s: Sprite, d: int)
    requires w > 0
  {
    0 <= k < |buf| && Covers(w, k, x, y, s) && d <= buf[k]
  }

  /** The depth buffer after drawing s at (x, y) with draw depth d. */
  function PaintedDepth(buf: seq<int>, w: nat, x: int, y: int, s: Sprite, d: int): (r: seq<int>)
    requires w > 0
    ensures |r| == |buf|
  {
    seq(|buf|, k requires 0 <= k < |buf| => if Writes(buf, w, k, x, y, s, d) then d else buf[k])
  }

  /** The colour buffer after drawing s at (x, y) with draw depth d over the
      depth buffer depth. */
  function PaintedPixels(buf: seq<byte>, depth: seq<int>, w: nat, x: int, y: int, s: Sprite, d: int): (r: seq<byte>)
    requires w > 0
    ensures |r| == |buf|
  {
    seq(|buf|, k requires 0 <= k < |buf| =>
      if Writes(depth, w, k, x, y, s, d) then s.colour(k % w - x, k / w - y) else buf[k])
  }

  /** Some pixel of the rw-by-rh rectangle at (x, y), clipped to the canvas,
      is still a void. */
  predicate HasMoreDepthIn(buf: seq<int>, w: nat, x: int, y: int, rw: int, rh: int)
    requires w > 0
  {
    exists k :: 0 <= k < |buf| && InRect(w, k, x, y, rw, rh) && buf[k] == MAX_DEPTH
  }

  /** Some pixel of the canvas is still a void. */
  predicate HasVoid(buf: seq<int>) {
    exists k :: 0 <= k < |buf| && buf[k] == MAX_DEPTH
  }

  /** A w-by-h buffer shifted by (dx, dy) pixels: pixels moved off the canvas
      are lost, and the uncovered area gets `fill`. */
  function Moved<T>(buf: seq<T>, w: nat, h: nat, dx: int, dy: int, fill: T): (r: seq<T>)
    requires w > 0 && |buf| == w * h
    ensures |r| == |buf|
  {
    seq(|buf|, k requires 0 <= k < |buf| =>
      var c, row := k % w - dx, k / w - dy;
      if 0 <= c < w && 0 <= row < h then
        Grid.FlatInRange(w, h, c, row);
        buf[row * w + c]
      else fill)
  }

  /** Shifting moves every pixel by exactly (dx, dy), with no wrap-around: the
      pixel at (c, r) comes from (c - dx, r - dy) when that is on the canvas and
      is `fill` otherwise. */
  lemma MovedAt<T>(buf: seq<T>, w: nat, h: nat, dx: int, dy: int, fill: T, c: int, r: int)
    requires w > 0 && |buf| == w * h
    requires 0 <= c < w && 0 <= r < h
    ensures 0 <= r * w + c < |buf|
    ensures 0 <= c - dx < w && 0 <= r - dy < h ==>
              0 <= (r - dy) * w + (c - dx) < |buf| &&
              Moved(buf, w, h, dx, dy, fill)[r * w + c] == buf[(r - dy) * w + (c - dx)]
    ensures !(0 <= c - dx < w && 0 <= r - dy < h) ==> Moved(buf, w, h, dx, dy, fill)[r * w + c] == fill
  {
    Grid.FlatIndex(w, h, c, r);
    if 0 <= c - dx < w && 0 <= r - dy < h {
      Grid.FlatInRange(w, h, c - dx, r - dy);
    }
  }

  /** Drawing a sprite that covers every pixel of its footprint, at a depth
      nearer than the void depth, leaves no void under that footprint: each
      pixel either takes the draw depth or already held a nearer one. */
  lemma OpaqueDrawLeavesNoVoid(buf: seq<int>, w: nat, x: int, y: int, s: Sprite, d: int)
    requires w > 0 && d < MAX_DEPTH
    requires forall i, j :: 0 <= i < s.width && 0 <= j < s.height ==> s.covers(i, j)
    ensures !HasMoreDepthIn(PaintedDepth(buf, w, x, y, s, d), w, x, y, s.width, s.height)
  {
    var painted := PaintedDepth(buf, w, x, y, s, d);
    forall k | 0 <= k < |painted| && InRect(w, k, x, y, s.width, s.height)
      ensures painted[k] != MAX_DEPTH
    {
      assert s.covers(k % w - x, k / w - y);
    }
  }

  /** The pixel+depth raster surface. */
  class Canvas {
    const width: nat
    const height: nat
    const depth: array<int>
    const pixels: array<byte>
    /** The depth value subsequent draws write. */
    var drawDepth: int

    ghost predicate Valid()
      reads this, depth
    {
      width > 0 && height > 0 &&
      depth.Length == width * height && pixels.Length == width * height &&
      IsShort(drawDepth) &&
      forall k :: 0 <= k < depth.Length ==> IsShort(depth[k])
    }

    /** A fresh canvas: every pixel transparent and void. */
    constructor (w: nat, h: nat)
      requires w > 0 && h > 0
      ensures Valid() && width == w && height == h
      ensures fresh(depth) && fresh(pixels)
      ensures forall k :: 0 <= k < depth.Length ==> depth[k] == MAX_DEPTH
      ensures forall k :: 0 <= k < pixels.Length ==> pixels[k] == TRANSPARENT
    {
      width, height := w, h;
      depth := new int[w * h](_ => MAX_DEPTH);
      pixels := new byte[w * h](_ => TRANSPARENT);
      drawDepth := 0;
    }

    /** Sets the depth that subsequent draws write, narrowed to 16 bits. */
    method SetDrawDepth(z: int)
      requires Valid()
      modifies this`drawDepth
      ensures Valid() && drawDepth == ToShort(z)
    {
      drawDepth := ToShort(z);
    }

    /** The layer's `draw(sprite, x, y)`: draws sprite s with its top-left
        corner at (x, y), clipped to the canvas, with a depth test. A pixel the
        sprite covers takes the sprite's colour and the current draw depth when
        the depth it holds is the draw depth or farther (a void is farthest);
        a nearer pixel, and every pixel the sprite does not cover, is kept. */
    method Draw(s: Sprite, x: int, y: int)
      requires Valid()
      modifies depth, pixels
      ensures Valid()
      ensures depth[..] == PaintedDepth(old(depth[..]), width, x, y, s, drawDepth)
      ensures pixels[..] == PaintedPixels(old(pixels[..]), old(depth[..]), width, x, y, s, drawDepth)
    {
      forall k | 0 <= k < pixels.Length && Writes(depth[..], width, k, x, y, s, drawDepth) {
        pixels[k] := s.colour(k % width - x, k / width - y);
      }
      forall k | 0 <= k < depth.Length && Covers(width, k, x, y, s) && drawDepth <= depth[k] {
        depth[k] := drawDepth;
      }
    }

    /** Whether a void remains in the w-by-h rectangle at (x, y). */
    method HasMoreDepth(x: int, y: int, w: int, h: int) returns (r: bool)
      requires Valid()
      ensures r == HasMoreDepthIn(depth[..], width, x, y, w, h)
    {
      r := false;
      var k := 0;
      while k < depth.Length && !r
        invariant 0 <= k <= depth.Length
        invariant r ==> HasMoreDepthIn(depth[..], width, x, y, w, h)
        invariant !r ==> forall j :: 0 <= j < k ==> !(InRect(width, j, x, y, w, h) && depth[j] == MAX_DEPTH)
      {
        if InRect(width, k, x, y, w, h) && depth[k] == MAX_DEPTH {
          assert depth[..][k] == MAX_DEPTH;
          r := true;
        }
        k := k + 1;
      }
    }

    /** Whether a void remains anywhere on the canvas. */
    method HasMoreDepthAnywhere() returns (r: bool)
      requires Valid()
      ensures r == HasVoid(depth[..])
    {
      r := false;
      var k := 0;
      while k < depth.Length && !r
        invariant 0 <= k <= depth.Length
        invariant r ==> HasVoid(depth[..])
        invariant !r ==> forall j :: 0 <= j < k ==> depth[j] != MAX_DEPTH
      {
        if depth[k] == MAX_DEPTH {
          assert depth[..][k] == MAX_DEPTH;
          r := true;
        }
        k := k + 1;
      }
    }

    /** Depth at pixel (x, y). */
    function GetDepth(x: int, y: int): (d: int)
      requires Valid() && 0 <= x < width && 0 <= y < height
      reads this, depth
      ensures IsShort(d)
    {
      Grid.FlatInRange(width, height, x, y);
      depth[y * width + x]
    }

    /** Sets the colour of pixel (x, y) and nothing else. */
    method WritePixel(x: int, y: int, c: byte)
      requires Valid() && 0 <= x < width && 0 <= y < height
      modifies pixels
      ensures Valid()
      ensures 0 <= y * width + x < pixels.Length
      ensures pixels[..] == old(pixels[..])[y * width + x := c]
    {
      Grid.FlatInRange(width, height, x, y);
      pixels[y * width + x] := c;
    }

    /** Shifts colours and depths by (dx, dy) pixels; the uncovered area is
        transparent and void. */
    method MovePixels(dx: int, dy: int)
      requires Valid()
      modifies depth, pixels
      ensures Valid()
      ensures depth[..] == Moved(old(depth[..]), width, height, dx, dy, MAX_DEPTH)
      ensures pixels[..] == Moved(old(pixels[..]), width, height, dx, dy, TRANSPARENT)
    {
      var nd := Moved(depth[..], width, height, dx, dy, MAX_DEPTH);
      var np := Moved(pixels[..], width, height, dx, dy, TRANSPARENT);
      forall k | 0 <= k < |nd|
        ensures IsShort(nd[k])
      {
        var c, row := k % width - dx, k / width - dy;
        if 0 <= c < width && 0 <= row < height {
          Grid.FlatInRange(width, height, c, row);
          assert nd[k] == depth[row * width + c];
        }
      }
      forall k | 0 <= k < depth.Length {
        depth[k] := nd[k];
      }
      forall k | 0 <= k < pixels.Length {
        pixels[k] := np[k];
      }
    }

    /** Marks every pixel a void. */
    method ClearDepthBuffer()
      requires Valid()
      modifies depth
      ensures Valid()
      ensures forall k :: 0 <= k < depth.Length ==> depth[k] == MAX_DEPTH
    {
      forall k | 0 <= k < depth.Length {
        depth[k] := MAX_DEPTH;
      }
    }

    /** Paints every pixel colour c; depths are kept. */
    method Fill(c: byte)
      requires Valid()
      modifies pixels
      ensures Valid()
      ensures forall k :: 0 <= k < pixels.Length ==> pixels[k] == c
    {
      forall k | 0 <= k < pixels.Length {
        pixels[k] := c;
      }
    }

    /** Replaces the contents with a stored snapshot. */
    method Load(colours: seq<byte>, depths: seq<int>)
      requires Valid()
      requires |colours| == pixels.Length && |depths| == depth.Length
      requires forall k :: 0 <= k < |depths| ==> IsShort(depths[k])
      modifies depth, pixels
      ensures Valid()
      ensures depth[..] == depths && pixels[..] == colours
    {
      forall k | 0 <= k < depth.Length {
        depth[k] := depths[k];
      }
      forall k | 0 <= k < pixels.Length {
        pixels[k] := colours[k];
      }
    }
  }
}
