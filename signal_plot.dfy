// The integer raster helpers of the signal demo (q31_starter.cpp): `set_px`,
// `fill_rect`, the 5x7 bitmap font of `draw_char5x7` and Bresenham's
// `draw_line`, all writing in place into an RGB byte buffer of W x H pixels
// (three bytes per pixel, rows top to bottom).  `clampv` and
// `reflect_index` are shared with the image demo and live in Helpers.
//
// Every drawing method is specified byte by byte: a byte holds the colour
// channel it belongs to when its pixel is in the drawn shape, and keeps its
// old value otherwise.

module SignalPlot {

  import opened Arith
  import opened Helpers

  datatype Option<T> = None | Some(value: T)

  /** What `std::vector<uint8_t>(W * H * 3)` provides: three bytes per pixel. */
  predicate Canvas(len: int, W: int, H: int)
  {
    W >= 0 && H >= 0 && len == W * H * 3
  }

  predicate InImage(x: int, y: int, W: int, H: int)
  {
    0 <= x < W && 0 <= y < H
  }

  /** The pixel (column, row) that byte `i` of a W-wide buffer belongs to. */
  function PixelOf(i: int, W: int): (int, int)
  {
    if W <= 0 then (-1, -1) else ((i / 3) % W, (i / 3) / W)
  }

  /** The colour component stored in byte `i`: red, green and blue in turn. */
  function Color(i: int, r: byte, g: byte, b: byte): byte
  {
    var channel := i % 3;
    if channel == 0 then r else if channel == 1 then g else b
  }

  /** Every byte of a canvas belongs to a pixel of the image. */
  lemma BytePixelInImage(i: int, W: int, H: int)
    requires Canvas(W * H * 3, W, H) && 0 <= i < W * H * 3
    ensures W > 0 && InImage(PixelOf(i, W).0, PixelOf(i, W).1, W, H)
  {
    var q := i / 3;
    DivModUnique(i, 3, q, i % 3);
    assert W > 0;
    var row, col := q / W, q % W;
    DivModUnique(q, W, row, col);
    MulMonotone(H, row, W);
  }

  /** The bytes of pixel (x, y) are the three from index (y * W + x) * 3 on,
      and the first of them holds red. */
  lemma {:induction false} PixelBytes(i: int, W: int, x: int, y: int)
    requires W > 0 && 0 <= x < W && 0 <= y && 0 <= i
    ensures PixelOf(i, W) == (x, y) <==> (y * W + x) * 3 <= i < (y * W + x) * 3 + 3
    ensures PixelOf(i, W) == (x, y) ==> i % 3 == i - (y * W + x) * 3
  {
    var base := (y * W + x) * 3;
    var q := i / 3;
    DivModUnique(i, 3, q, i % 3);
    GridIndexInverse(y, x, W);
    if base <= i < base + 3 {
      DivModUnique(i, 3, y * W + x, i - base);
    }
    if PixelOf(i, W) == (x, y) {
      DivModUnique(q, W, q / W, q % W);
      assert q == y * W + x;
    }
  }

  /** The first byte of an in-image pixel and the two after it lie in the canvas. */
  lemma PixelInCanvas(x: int, y: int, W: int, H: int)
    requires InImage(x, y, W, H)
    ensures 0 <= (y * W + x) * 3 && (y * W + x) * 3 + 2 < W * H * 3
  {
    GridIndex(y, x, W, H);
  }

  /** `set_px`: pixel (x, y) takes colour (r, g, b) when it lies in the image;
      no other byte changes, and nothing at all for a pixel outside. */
  method SetPx(im: array<byte>, W: int, H: int, x: int, y: int, r: byte, g: byte, b: byte)
    requires Canvas(im.Length, W, H)
    modifies im
    ensures forall i :: 0 <= i < im.Length ==>
      im[i] == if PixelOf(i, W) == (x, y) then Color(i, r, g, b) else old(im[i])
    ensures !InImage(x, y, W, H) ==> im[..] == old(im[..])
  {
    if x < 0 || y < 0 || x >= W || y >= H {
      forall i | 0 <= i < im.Length
        ensures PixelOf(i, W) != (x, y)
      {
        BytePixelInImage(i, W, H);
      }
      return;
    }
    PixelInCanvas(x, y, W, H);
    var idx := (y * W + x) * 3;
    im[idx] := r;
    im[idx + 1] := g;
    im[idx + 2] := b;
    forall i | 0 <= i < im.Length
      ensures im[i] == if PixelOf(i, W) == (x, y) then Color(i, r, g, b) else old(im[i])
    {
      PixelBytes(i, W, x, y);
    }
  }

  // ---------------------------------------------------------------------
  // Rectangles

  /** Pixel p lies in the w x h rectangle whose top-left corner is (x0, y0). */
  predicate InRect(p: (int, int), x0: int, y0: int, w: int, h: int)
  {
    x0 <= p.0 < x0 + w && y0 <= p.1 < y0 + h
  }

  /** `fill_rect`: every pixel of the rectangle that lies in the image takes
      colour (r, g, b); every other byte keeps its value.  An empty or
      negative width or height draws nothing. */
  method FillRect(im: array<byte>, W: int, H: int, x0: int, y0: int, w: int, h: int, r: byte, g: byte, b: byte)
    requires Canvas(im.Length, W, H)
    modifies im
    ensures forall i :: 0 <= i < im.Length ==>
      im[i] == if InRect(PixelOf(i, W), x0, y0, w, h) then Color(i, r, g, b) else old(im[i])
  {
    var y := 0;
    while y < h
      invariant 0 <= y && (y <= h || y == 0)
      invariant forall i :: 0 <= i < im.Length ==>
        im[i] == if InRect(PixelOf(i, W), x0, y0, w, y) then Color(i, r, g, b) else old(im[i])
    {
      var x := 0;
      while x < w
        invariant 0 <= x && (x <= w || x == 0)
        invariant forall i :: 0 <= i < im.Length ==>
          im[i] == if InRect(PixelOf(i, W), x0, y0, w, y) || InRect(PixelOf(i, W), x0, y0 + y, x, 1)
                   then Color(i, r, g, b) else old(im[i])
      {
        SetPx(im, W, H, x0 + x, y0 + y, r, g, b);
        x := x + 1;
      }
      y := y + 1;
    }
  }

  // ---------------------------------------------------------------------
  // The 5x7 bitmap font

  /** The glyph rows of the legend letters, top row first; bit 4 is the
      leftmost column.  Other characters have no glyph. */
  function Glyph(ch: char): Option<seq<bv8>>
  {
    match ch
    case 'C' => Some([0x0E, 0x11, 0x10, 0x10, 0x10, 0x11, 0x0E])
    case 'N' => Some([0x11, 0x19, 0x15, 0x13, 0x11, 0x11, 0x11])
    case 'B' => Some([0x1E, 0x11, 0x11, 0x1E, 0x11, 0x11, 0x1E])
    case 'W' => Some([0x11, 0x11, 0x11, 0x15, 0x15, 0x15, 0x0A])
    case 'M' => Some([0x11, 0x1B, 0x15, 0x15, 0x11, 0x11, 0x11])
    case _ => None
  }

  /** The bit of column `col`: `1u << (4 - col)`, the leftmost column being bit 4. */
  function Mask(col: int): bv8
    requires 0 <= col < 5
  {
    if col == 0 then 0x10 else if col == 1 then 0x08 else if col == 2 then 0x04 else if col == 3 then 0x02 else 0x01
  }

  lemma MaskIsShift(col: int)
    requires 0 <= col < 5
    ensures Mask(col) == 1 << (4 - col)
  {
  }

  /** `G[row] & (1u << (4 - col))`: the cell (row, col) of the glyph is inked. */
  predicate Inked(rows: seq<bv8>, row: int, col: int)
    requires 0 <= row < |rows| && 0 <= col < 5
  {
    rows[row] & Mask(col) != 0
  }

  lemma GlyphHeight(ch: char)
    ensures Glyph(ch).Some? ==> |Glyph(ch).value| == 7
  {
  }

  /** Pixel p is an inked cell of the glyph of `ch` drawn with its top-left corner at (x, y). */
  predicate InGlyph(ch: char, x: int, y: int, p: (int, int))
  {
    match Glyph(ch)
    case None => false
    case Some(rows) => GlyphCell(rows, x, y, p)
  }

  /** Pixel p is an inked cell of the glyph `rows` placed at (x, y). */
  predicate GlyphCell(rows: seq<bv8>, x: int, y: int, p: (int, int))
  {
    0 <= p.1 - y < |rows| && 0 <= p.0 - x < 5 && Inked(rows, p.1 - y, p.0 - x)
  }

  /** The glyphs as pictures, '#' for ink: an independent statement of the font. */
  function Picture(ch: char): seq<string>
  {
    match ch
    case 'C' => [" ### ", "#   #", "#    ", "#    ", "#    ", "#   #", " ### "]
    case 'N' => ["#   #", "##  #", "# # #", "#  ##", "#   #", "#   #", "#   #"]
    case 'B' => ["#### ", "#   #", "#   #", "#### ", "#   #", "#   #", "#### "]
    case 'W' => ["#   #", "#   #", "#   #", "# # #", "# # #", "# # #", " # # "]
    case 'M' => ["#   #", "## ##", "# # #", "# # #", "#   #", "#   #", "#   #"]
    case _ => []
  }

  /** The bitmap rows spell the pictures: cell (row, col) is inked exactly
      where the picture has '#', and no glyph row has ink beyond its five
      columns. */
  lemma GlyphMatchesPicture(ch: char, row: int, col: int)
    requires Glyph(ch).Some? && 0 <= row < 7 && 0 <= col < 5
    ensures |Glyph(ch).value| == 7 == |Picture(ch)| && |Picture(ch)[row]| == 5
    ensures Glyph(ch).value[row] < 0x20
    ensures Inked(Glyph(ch).value, row, col) <==> Picture(ch)[row][col] == '#'
  {
    assert ch == 'C' || ch == 'N' || ch == 'B' || ch == 'W' || ch == 'M';
    assert col == 0 || col == 1 || col == 2 || col == 3 || col == 4;
    assert row == 0 || row == 1 || row == 2 || row == 3 || row == 4 || row == 5 || row == 6;
  }

  /** Pixel p is an inked glyph cell among the first k cells, counted row
      by row, of the glyph `rows` placed at (x, y). */
  predicate GlyphDone(rows: seq<bv8>, x: int, y: int, p: (int, int), k: int)
  {
    0 <= p.1 - y < |rows| && 0 <= p.0 - x < 5 && (p.1 - y) * 5 + (p.0 - x) < k
    && Inked(rows, p.1 - y, p.0 - x)
  }

  /** Visiting cell (row, col) adds that pixel when it is inked, and no other. */
  lemma GlyphDoneNext(rows: seq<bv8>, x: int, y: int, p: (int, int), row: int, col: int)
    requires 0 <= row < |rows| && 0 <= col < 5
    ensures GlyphDone(rows, x, y, p, row * 5 + (col + 1))
      <==> GlyphDone(rows, x, y, p, row * 5 + col) || (p == (x + col, y + row) && Inked(rows, row, col))
  {
  }

  /** The bytes of `s` are those of `before`, except that the bytes of the
      first k glyph cells that are inked hold colour (r, g, b). */
  predicate GlyphPainted(s: seq<byte>, before: seq<byte>, W: int, rows: seq<bv8>, x: int, y: int, k: int, r: byte, g: byte, b: byte)
  {
    |s| == |before|
    && forall i :: 0 <= i < |s| ==>
      s[i] == if GlyphDone(rows, x, y, PixelOf(i, W), k) then Color(i, r, g, b) else before[i]
  }

  /** The body of the inner loop of `draw_char5x7`: cell (row, col) is
      painted when its bit is set. */
  method InkCell(im: array<byte>, W: int, H: int, x: int, y: int, G: seq<bv8>, row: int, col: int, r: byte, g: byte, b: byte, ghost before: seq<byte>)
    requires Canvas(im.Length, W, H) && 0 <= row < |G| && 0 <= col < 5
    requires GlyphPainted(im[..], before, W, G, x, y, row * 5 + col, r, g, b)
    modifies im
    ensures GlyphPainted(im[..], before, W, G, x, y, row * 5 + (col + 1), r, g, b)
  {
    ghost var prev := im[..];
    MaskIsShift(col);
    if G[row] & (1 << (4 - col)) != 0 {
      SetPx(im, W, H, x + col, y + row, r, g, b);
    }
    forall i | 0 <= i < im.Length
      ensures im[i] == if GlyphDone(G, x, y, PixelOf(i, W), row * 5 + (col + 1)) then Color(i, r, g, b) else before[i]
    {
      GlyphDoneNext(G, x, y, PixelOf(i, W), row, col);
      assert prev[i] == if GlyphDone(G, x, y, PixelOf(i, W), row * 5 + col) then Color(i, r, g, b) else before[i];
    }
  }

  /** The loops of `draw_char5x7` over the 7 rows and 5 columns of glyph `G`. */
  method DrawGlyph(im: array<byte>, W: int, H: int, x: int, y: int, G: seq<bv8>, r: byte, g: byte, b: byte)
    requires Canvas(im.Length, W, H) && |G| == 7
    modifies im
    ensures forall i :: 0 <= i < im.Length ==>
      im[i] == if GlyphCell(G, x, y, PixelOf(i, W)) then Color(i, r, g, b) else old(im[i])
  {
    ghost var before := im[..];
    for row := 0 to 7
      invariant GlyphPainted(im[..], before, W, G, x, y, row * 5, r, g, b)
    {
      for col := 0 to 5
        invariant GlyphPainted(im[..], before, W, G, x, y, row * 5 + col, r, g, b)
      {
        InkCell(im, W, H, x, y, G, row, col, r, g, b, before);
      }
    }
    forall i | 0 <= i < im.Length
      ensures im[i] == if GlyphCell(G, x, y, PixelOf(i, W)) then Color(i, r, g, b) else before[i]
    {
      assert GlyphDone(G, x, y, PixelOf(i, W), 35) == GlyphCell(G, x, y, PixelOf(i, W));
    }
  }

  /** `draw_char5x7`: the inked cells of the glyph of `ch`, placed at
      (x, y), take colour (r, g, b) where they fall in the image; nothing
      else changes, and nothing at all for a character without a glyph. */
  method DrawChar5x7(im: array<byte>, W: int, H: int, x: int, y: int, ch: char, r: byte, g: byte, b: byte)
    requires Canvas(im.Length, W, H)
    modifies im
    ensures forall i :: 0 <= i < im.Length ==>
      im[i] == if InGlyph(ch, x, y, PixelOf(i, W)) then Color(i, r, g, b) else old(im[i])
    ensures Glyph(ch).None? ==> im[..] == old(im[..])
  {
    var glyph := Glyph(ch);
    if glyph.None? {
      return;
    }
    GlyphHeight(ch);
    DrawGlyph(im, W, H, x, y, glyph.value, r, g, b);
  }

  // ---------------------------------------------------------------------
  // Bresenham's line

  /** The error term of the walk after X steps along x and Y steps along y
      on a line spanning a columns and b rows: it starts at a - b, a step
      along x adds -b and a step along y adds a. */
  function LineErr(a: int, b: int, X: int, Y: int): int
  {
    a * (1 + Y) - b * (1 + X)
  }

  /** A step along x adds -b to the error term, a step along y adds a. */
  lemma LineErrSteps(a: int, b: int, X: int, Y: int)
    ensures LineErr(a, b, X + 1, Y) == LineErr(a, b, X, Y) - b
    ensures LineErr(a, b, X, Y + 1) == LineErr(a, b, X, Y) + a
  {
  }

  /** The coordinate reached from `from` after `steps` unit steps toward
      `to` (`x0 += sx` with `sx = x0 < x1 ? 1 : -1`). */
  function Toward(from: int, to: int, steps: int): int
  {
    if from < to then from + steps else from - steps
  }

  /** Before the end is reached, at least one coordinate steps, and neither
      steps past the end. */
  lemma LineStep(a: int, b: int, X: int, Y: int)
    requires 0 <= X <= a && 0 <= Y <= b && !(X == a && Y == b)
    ensures 2 * LineErr(a, b, X, Y) >= -b || 2 * LineErr(a, b, X, Y) <= a
    ensures 2 * LineErr(a, b, X, Y) >= -b ==> X < a
    ensures 2 * LineErr(a, b, X, Y) <= a ==> Y < b
  {
    if X == a {
      MulAtMost(1 + Y, b, a);
      assert a * (1 + Y) <= a * b;
      assert b * (1 + X) == b + a * b;
    }
    if Y == b {
      MulAtMost(1 + X, a, b);
      assert b * (1 + X) <= a * b;
      assert a * (1 + Y) == a + a * b;
    }
  }

  /** The pixels the loop of `draw_line` paints, in order, from the point
      reached after X steps along x and Y steps along y up to (x1, y1). */
  function LineFrom(x0: int, y0: int, x1: int, y1: int, X: nat, Y: nat): seq<(int, int)>
    requires X <= Abs(x1 - x0) && Y <= Abs(y1 - y0)
    decreases Abs(x1 - x0) - X + Abs(y1 - y0) - Y
  {
    var a: int, b: int := Abs(x1 - x0), Abs(y1 - y0);
    var p := (Toward(x0, x1, X), Toward(y0, y1, Y));
    if X == a && Y == b then [p]
    else
      var e2 := 2 * LineErr(a, b, X, Y);
      LineStep(a, b, X, Y);
      [p] + LineFrom(x0, y0, x1, y1, if e2 >= -b then X + 1 else X, if e2 <= a then Y + 1 else Y)
  }

  /** One iteration of the loop of `draw_line`, seen on the walk: the pixel
      reached is painted and the walk goes on from the next one. */
  lemma LineFromUnfold(x0: int, y0: int, x1: int, y1: int, X: int, Y: int)
    requires 0 <= X <= Abs(x1 - x0) && 0 <= Y <= Abs(y1 - y0)
    ensures var a: int, b: int, p := Abs(x1 - x0), Abs(y1 - y0), (Toward(x0, x1, X), Toward(y0, y1, Y));
      var e2 := 2 * LineErr(a, b, X, Y);
      if X == a && Y == b then LineFrom(x0, y0, x1, y1, X, Y) == [p]
      else
        (e2 >= -b ==> X < a) && (e2 <= a ==> Y < b)
        && LineFrom(x0, y0, x1, y1, X, Y)
           == [p] + LineFrom(x0, y0, x1, y1, if e2 >= -b then X + 1 else X, if e2 <= a then Y + 1 else Y)
  {
    if !(X == Abs(x1 - x0) && Y == Abs(y1 - y0)) {
      LineStep(Abs(x1 - x0), Abs(y1 - y0), X, Y);
    }
  }

  /** One iteration of the loop of `draw_line` on its state: with error
      term `err`, the step counts move to (X', Y'), the error term moves by
      -b for a step along x and by a for a step along y, and the walk from
      (X, Y) is the pixel reached followed by the walk from (X', Y'). */
  lemma LineAdvance(x0: int, y0: int, x1: int, y1: int, X: int, Y: int, err: int) returns (X': int, Y': int)
    requires 0 <= X <= Abs(x1 - x0) && 0 <= Y <= Abs(y1 - y0)
    requires err == LineErr(Abs(x1 - x0), Abs(y1 - y0), X, Y)
    requires !(X == Abs(x1 - x0) && Y == Abs(y1 - y0))
    ensures X' == (if 2 * err >= -(Abs(y1 - y0) as int) then X + 1 else X)
    ensures Y' == (if 2 * err <= Abs(x1 - x0) then Y + 1 else Y)
    ensures 0 <= X' <= Abs(x1 - x0) && 0 <= Y' <= Abs(y1 - y0)
    ensures LineErr(Abs(x1 - x0), Abs(y1 - y0), X', Y')
         == err + (if X' > X then -(Abs(y1 - y0) as int) else 0) + (if Y' > Y then Abs(x1 - x0) else 0)
    ensures LineFrom(x0, y0, x1, y1, X, Y)
         == [(Toward(x0, x1, X), Toward(y0, y1, Y))] + LineFrom(x0, y0, x1, y1, X', Y')
  {
    var a: int, b: int := Abs(x1 - x0), Abs(y1 - y0);
    LineStep(a, b, X, Y);
    X' := if 2 * err >= -b then X + 1 else X;
    Y' := if 2 * err <= a then Y + 1 else Y;
    LineErrSteps(a, b, X, Y);
    LineErrSteps(a, b, X', Y);
  }

  /** The pixels `draw_line` paints from (x0, y0) to (x1, y1). */
  function Line(x0: int, y0: int, x1: int, y1: int): seq<(int, int)>
  {
    LineFrom(x0, y0, x1, y1, 0, 0)
  }

  /** Two pixels touch: they differ, by at most one step along each axis. */
  predicate Adjacent(p: (int, int), q: (int, int))
  {
    p != q && -1 <= q.0 - p.0 <= 1 && -1 <= q.1 - p.1 <= 1
  }

  function Min(a: int, b: int): int { if a <= b then a else b }
  function Max(a: int, b: int): int { if a <= b then b else a }

  /** p lies in the bounding box of the segment from (x0, y0) to (x1, y1). */
  predicate InBox(p: (int, int), x0: int, y0: int, x1: int, y1: int)
  {
    Min(x0, x1) <= p.0 <= Max(x0, x1) && Min(y0, y1) <= p.1 <= Max(y0, y1)
  }

  /** The walk from any reached point: it starts there, ends at (x1, y1),
      moves between touching pixels and stays in the bounding box. */
  lemma {:induction false} LineFromShape(x0: int, y0: int, x1: int, y1: int, X: nat, Y: nat)
    requires X <= Abs(x1 - x0) && Y <= Abs(y1 - y0)
    ensures var ps := LineFrom(x0, y0, x1, y1, X, Y);
      |ps| >= 1
      && ps[0] == (Toward(x0, x1, X), Toward(y0, y1, Y))
      && ps[|ps| - 1] == (x1, y1)
      && (forall k :: 0 <= k < |ps| - 1 ==> Adjacent(ps[k], ps[k + 1]))
      && (forall k :: 0 <= k < |ps| ==> InBox(ps[k], x0, y0, x1, y1))
    decreases Abs(x1 - x0) - X + Abs(y1 - y0) - Y
  {
    var ps := LineFrom(x0, y0, x1, y1, X, Y);
    if X == Abs(x1 - x0) && Y == Abs(y1 - y0) {
      LineFromUnfold(x0, y0, x1, y1, X, Y);
    } else {
      var X', Y' := LineAdvance(x0, y0, x1, y1, X, Y, LineErr(Abs(x1 - x0), Abs(y1 - y0), X, Y));
      LineFromShape(x0, y0, x1, y1, X', Y');
      var rest := LineFrom(x0, y0, x1, y1, X', Y');
      assert ps == [ps[0]] + rest;
      forall k | 0 <= k < |ps| - 1
        ensures Adjacent(ps[k], ps[k + 1])
      {
        if k > 0 {
          assert ps[k] == rest[k - 1] && ps[k + 1] == rest[k];
        }
      }
      forall k | 0 <= k < |ps|
        ensures InBox(ps[k], x0, y0, x1, y1)
      {
        if k > 0 {
          assert ps[k] == rest[k - 1];
        }
      }
    }
  }

  /** `draw_line` paints both end points, in one connected run of touching
      pixels that never leaves the segment's bounding box. */
  lemma LineShape(x0: int, y0: int, x1: int, y1: int)
    ensures var ps := Line(x0, y0, x1, y1);
      |ps| >= 1 && ps[0] == (x0, y0) && ps[|ps| - 1] == (x1, y1)
      && (forall k :: 0 <= k < |ps| - 1 ==> Adjacent(ps[k], ps[k + 1]))
      && (forall k :: 0 <= k < |ps| ==> InBox(ps[k], x0, y0, x1, y1))
  {
    LineFromShape(x0, y0, x1, y1, 0, 0);
  }

  /** A horizontal line paints every pixel between its end points, once each. */
  lemma {:induction false} HorizontalLine(x0: int, y: int, x1: int, X: nat)
    requires x0 <= x1 && X <= x1 - x0
    ensures LineFrom(x0, y, x1, y, X, 0) == seq(x1 - x0 - X + 1, k => (x0 + X + k, y))
    decreases x1 - x0 - X
  {
    if X < x1 - x0 {
      HorizontalLine(x0, y, x1, X + 1);
    }
  }

  lemma AppendRegroup<T>(s: seq<T>, p: T, t: seq<T>)
    ensures s + ([p] + t) == (s + [p]) + t
  {
  }

  /** The bytes of `s` are those of `before`, except that the bytes of the
      pixels in `painted` hold colour (r, g, b). */
  predicate LinePainted(s: seq<byte>, before: seq<byte>, W: int, painted: seq<(int, int)>, r: byte, g: byte, b: byte)
  {
    |s| == |before|
    && forall i :: 0 <= i < |s| ==>
      s[i] == if PixelOf(i, W) in painted then Color(i, r, g, b) else before[i]
  }

  /** `set_px` on the next pixel of the walk. */
  method PaintNext(im: array<byte>, W: int, H: int, x: int, y: int, r: byte, g: byte, b: byte,
                   ghost before: seq<byte>, ghost painted: seq<(int, int)>)
    requires Canvas(im.Length, W, H) && LinePainted(im[..], before, W, painted, r, g, b)
    modifies im
    ensures LinePainted(im[..], before, W, painted + [(x, y)], r, g, b)
  {
    ghost var prev := im[..];
    SetPx(im, W, H, x, y, r, g, b);
    forall i | 0 <= i < im.Length
      ensures im[i] == if PixelOf(i, W) in painted + [(x, y)] then Color(i, r, g, b) else before[i]
    {
      assert prev[i] == if PixelOf(i, W) in painted then Color(i, r, g, b) else before[i];
    }
  }

  /** `draw_line`: set_px on each pixel of the walk, ending at (x1, y1).
      The pixels of the walk take colour (r, g, b) where they fall in the
      image; every other byte keeps its value. */
  method DrawLine(im: array<byte>, W: int, H: int, x0: int, y0: int, x1: int, y1: int, r: byte, g: byte, b: byte)
    requires Canvas(im.Length, W, H)
    modifies im
    ensures forall i :: 0 <= i < im.Length ==>
      im[i] == if PixelOf(i, W) in Line(x0, y0, x1, y1) then Color(i, r, g, b) else old(im[i])
  {
    var dx, sx := Abs(x1 - x0), if x0 < x1 then 1 else -1;
    var dy: int, sy := -(Abs(y1 - y0) as int), if y0 < y1 then 1 else -1;
    var err := dx + dy;
    var x, y := x0, y0;
    ghost var X, Y := 0, 0;
    ghost var painted: seq<(int, int)> := [];
    ghost var rest := Line(x0, y0, x1, y1);
    ghost var before := im[..];
    while true
      invariant 0 <= X <= Abs(x1 - x0) && 0 <= Y <= Abs(y1 - y0)
      invariant x == Toward(x0, x1, X) && y == Toward(y0, y1, Y)
      invariant err == LineErr(Abs(x1 - x0), Abs(y1 - y0), X, Y)
      invariant rest == LineFrom(x0, y0, x1, y1, X, Y)
      invariant painted + rest == Line(x0, y0, x1, y1)
      invariant LinePainted(im[..], before, W, painted, r, g, b)
      decreases dx - X + -dy - Y
    {
      PaintNext(im, W, H, x, y, r, g, b, before, painted);
      ghost var p := (x, y);
      if x == x1 && y == y1 {
        LineFromUnfold(x0, y0, x1, y1, X, Y);
        painted := painted + [p];
        break;
      }
      var e2 := 2 * err;
      ghost var X', Y' := LineAdvance(x0, y0, x1, y1, X, Y, err);
      if e2 >= dy {
        err := err + dy;
        x := x + sx;
      }
      if e2 <= dx {
        err := err + dx;
        y := y + sy;
      }
      X, Y := X', Y';
      ghost var next := LineFrom(x0, y0, x1, y1, X, Y);
      AppendRegroup(painted, p, next);
      painted, rest := painted + [p], next;
    }
  }
}
