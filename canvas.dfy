/** The raster-editing state of the canvas widget: the image, the mask, the
    undo stack and the two mask flags, with the operations that change them. */
module CanvasModel {
  import opened Colors
  import opened Raster
  import opened UndoStack

  /** An image handed in from outside (a pasted selection). */
  datatype Surface = Surface(width: nat, height: nat, pixels: seq<Color>)

  /** What `pixel` consults of the mask: whether gating is on and the mask's
      pixels. */
  datatype Gate = Gate(enabled: bool, mask: seq<Color>)

  /** The two raster slots and the mask flags, as one value. */
  datatype MaskView = MaskView(image: seq<Color>, mask: seq<Color>, flag: bool, enabled: bool)

  /** The contents of the mask, wherever it currently sits: while painting on
      the mask (`flag`) it is held in the image slot. */
  function MaskSide(v: MaskView): seq<Color>
  {
    if v.flag then v.image else v.mask
  }

  /** The picture being edited, wherever it currently sits. */
  function PictureSide(v: MaskView): seq<Color>
  {
    if v.flag then v.mask else v.image
  }

  /** `paint_on_mask`: swap the slots, negate the flag, and enable gating
      exactly when leaving mask painting. */
  function Toggled(v: MaskView): (t: MaskView)
    ensures t.image == v.mask && t.mask == v.image
    ensures MaskSide(t) == MaskSide(v) && PictureSide(t) == PictureSide(v)
    ensures t.flag == !v.flag && t.enabled == v.flag
  {
    MaskView(v.mask, v.image, !v.flag, v.flag)
  }

  /** Toggling twice restores both slots and the flag; gating is left on
      exactly when the first toggle ended mask painting. */
  lemma ToggledTwice(v: MaskView)
    ensures Toggled(Toggled(v)) == MaskView(v.image, v.mask, v.flag, !v.flag)
  {
  }

  /** `clear_mask`: reset whichever slot holds the mask to the marker colour. */
  function MaskCleared(v: MaskView): (t: MaskView)
    ensures MaskSide(t) == seq(|MaskSide(v)|, _ => MaskMarker)
    ensures PictureSide(t) == PictureSide(v)
    ensures t.flag == v.flag && t.enabled == v.enabled
  {
    var marker := seq(|MaskSide(v)|, _ => MaskMarker);
    if v.flag then v.(image := marker) else v.(mask := marker)
  }

  /** How many pixels of `s` have colour `c`. */
  function CountOf(s: seq<Color>, c: Color): (n: nat)
    ensures n <= |s|
  {
    if s == [] then 0 else CountOf(s[..|s| - 1], c) + (if s[|s| - 1] == c then 1 else 0)
  }

  /** Pixels that do not become `c` cannot raise its count. */
  lemma {:induction false} CountNoMore(a: seq<Color>, b: seq<Color>, c: Color)
    requires |a| == |b|
    requires forall p :: 0 <= p < |b| && b[p] == c ==> a[p] == c
    ensures CountOf(b, c) <= CountOf(a, c)
  {
    if a != [] {
      CountNoMore(a[..|a| - 1], b[..|b| - 1], c);
    }
  }

  /** ... and one pixel that stops being `c` lowers it. */
  lemma {:induction false} CountLess(a: seq<Color>, b: seq<Color>, c: Color, w: nat)
    requires |a| == |b| && w < |a| && a[w] == c && b[w] != c
    requires forall p :: 0 <= p < |b| && b[p] == c ==> a[p] == c
    ensures CountOf(b, c) < CountOf(a, c)
  {
    var n := |a| - 1;
    if w == n {
      CountNoMore(a[..n], b[..n], c);
    } else {
      CountLess(a[..n], b[..n], c, w);
    }
  }

  /** Row-major layout: row y of a width-w, height-h raster occupies the
      indices w * y up to w * y + w, inside the store ... */
  lemma RowMajorInRange(w: nat, h: nat, y: int)
    requires 0 <= y < h
    ensures 0 <= w * y && w * y + w <= w * h
  {
    MulLe(y + 1, h, w);
    assert (y + 1) * w == w * y + w;
  }

  /** ... and distinct pixels have distinct indices. */
  lemma RowMajorDistinct(w: nat, x1: int, y1: int, x2: int, y2: int)
    requires 0 <= x1 < w && 0 <= x2 < w && 0 <= y1 && 0 <= y2
    requires w * y1 + x1 == w * y2 + x2
    ensures x1 == x2 && y1 == y2
  {
    if y1 < y2 {
      MulLe(y1 + 1, y2, w);
      assert false;
    } else if y2 < y1 {
      MulLe(y2 + 1, y1, w);
      assert false;
    }
  }

  /** The store read as h rows of w colours each, top row first: the
      picture the row-major store encodes. */
  function Rows(s: seq<Color>, w: nat, h: nat): (rows: seq<seq<Color>>)
    requires |s| == w * h
    ensures |rows| == h
    ensures forall k :: 0 <= k < h ==> |rows[k]| == w
    decreases h
  {
    if h == 0 then []
    else
      assert w * h == w * (h - 1) + w;
      [s[..w]] + Rows(s[w..], w, h - 1)
  }

  /** Cell w * y + x of the store is column x of row y of the picture. */
  lemma {:induction false} RowsCell(s: seq<Color>, w: nat, h: nat, x: int, y: int)
    requires |s| == w * h && 0 <= x < w && 0 <= y < h
    ensures w * y + x < |s| && Rows(s, w, h)[y][x] == s[w * y + x]
    decreases h
  {
    RowMajorInRange(w, h, y);
    var rest := s[w..];
    assert w * h == w * (h - 1) + w;
    assert Rows(s, w, h) == [s[..w]] + Rows(rest, w, h - 1);
    if y == 0 {
      assert w * y == 0;
    } else {
      RowsCell(rest, w, h - 1, x, y - 1);
      var i := w * (y - 1) + x;
      assert w * y + x == w + i;
      assert rest[i] == s[w + i];
    }
  }

  /** orbimage's `Image::set`: every pixel becomes `c`. */
  method SetAll(a: array<Color>, c: Color)
    modifies a
    ensures a[..] == seq(a.Length, _ => c)
  {
    forall i | 0 <= i < a.Length {
      a[i] := c;
    }
  }

  /** Whole-image assignment `*dst = src.clone()`. */
  method CopyInto(dst: array<Color>, src: seq<Color>)
    requires |src| == dst.Length
    modifies dst
    ensures dst[..] == src
  {
    forall i | 0 <= i < dst.Length {
      dst[i] := src[i];
    }
  }

  class Canvas {
    const width: nat
    const height: nat
    /** The crate-wide undo depth `UNDODEPTH`. */
    const depth: nat
    /** The surface's own pixel write, orbclient's blend of the colour handed
        to it over the pixel it replaces. */
    const write: (Color, Color) -> Color

    var image: array<Color>
    var mask: array<Color>
    /** Snapshots, oldest first. */
    var undo: seq<seq<Color>>
    var maskFlag: bool
    var maskEnabled: bool

    ghost predicate Valid()
      reads this
    {
      image.Length == width * height && mask.Length == width * height && image != mask &&
      1 <= depth && 1 <= |undo| <= depth &&
      forall k :: 0 <= k < |undo| ==> |undo[k]| == width * height
    }

    ghost function View(): MaskView
      reads this, image, mask
    {
      MaskView(image[..], mask[..], maskFlag, maskEnabled)
    }

    /** The mask as `pixel` sees it now. */
    function Gating(): Gate
      reads this, mask
    {
      Gate(maskEnabled, mask[..])
    }

    /** `from_image`: the undo stack starts with one blank snapshot, the mask
        is filled with the marker, and both flags are off. */
    constructor FromImage(pixels: seq<Color>, width: nat, height: nat, depth: nat, write: (Color, Color) -> Color)
      requires |pixels| == width * height && depth >= 1
      ensures Valid() && fresh(image) && fresh(mask)
      ensures this.width == width && this.height == height && this.depth == depth && this.write == write
      ensures image[..] == pixels && mask[..] == seq(|pixels|, _ => MaskMarker)
      ensures undo == [seq(|pixels|, _ => Blank)]
      ensures !maskFlag && !maskEnabled
    {
      this.width, this.height, this.depth, this.write := width, height, depth, write;
      image := new Color[|pixels|](k requires 0 <= k < |pixels| => pixels[k]);
      mask := new Color[|pixels|](_ => MaskMarker);
      undo := [seq(|pixels|, _ => Blank)];
      maskFlag, maskEnabled := false, false;
    }

    predicate InBounds(x: int, y: int)
    {
      0 <= x < width && 0 <= y < height
    }

    /** The store index of (x, y). */
    function Index(x: int, y: int): (p: nat)
      requires InBounds(x, y)
      ensures p < width * height
    {
      RowMajorInRange(width, height, y);
      width * y + x
    }

    /** The first index of row y. */
    function RowStart(y: int): (p: nat)
      requires 0 <= y < height
      ensures p + width <= width * height
    {
      RowMajorInRange(width, height, y);
      width * y
    }

    /** `pixcol`: the colour at (x, y). */
    function Pixcol(x: int, y: int): (col: Color)
      reads this, image
      requires Valid() && InBounds(x, y)
      ensures col == Rows(image[..], width, height)[y][x]
    {
      RowsCell(image[..], width, height, x, y);
      image[Index(x, y)]
    }

    /** Each pixel of the raster has its own cell: reading (x, y) reads
        nothing that another in-bounds pixel would. */
    lemma PixcolDistinct(x1: int, y1: int, x2: int, y2: int)
      requires InBounds(x1, y1) && InBounds(x2, y2) && (x1, y1) != (x2, y2)
      ensures Index(x1, y1) != Index(x2, y2)
    {
      if Index(x1, y1) == Index(x2, y2) {
        RowMajorDistinct(width, x1, y1, x2, y2);
      }
    }

    /** The colour `pixel` hands to the surface's write at store index p. */
    static function Handed(g: Gate, p: nat, c: Color): Color
      requires p < |g.mask|
    {
      if g.enabled then Masked(c, g.mask[p].r) else c
    }

    /** With gating on, the handed colour keeps r, g, b and takes the mask's
        red channel ANDed with the alpha; with gating off it is unchanged. */
    static lemma HandedGates(g: Gate, p: nat, c: Color)
      requires p < |g.mask|
      ensures Handed(g, p, c).r == c.r && Handed(g, p, c).g == c.g && Handed(g, p, c).b == c.b
      ensures g.enabled ==> Handed(g, p, c).a == g.mask[p].r & c.a
      ensures !g.enabled ==> Handed(g, p, c) == c
    {
    }

    /** The store after `pixel(x, y, c)`: only (x, y) is written, and only
        when it lies on the surface. */
    function Painted(g: Gate, s: seq<Color>, x: int, y: int, c: Color): (r: seq<Color>)
      requires |s| == width * height && |g.mask| == width * height
      ensures |r| == |s|
    {
      if InBounds(x, y) then
        var p := Index(x, y);
        s[p := write(s[p], Handed(g, p, c))]
      else s
    }

    /** The store after plotting `pts` in order. */
    function PaintedAll(g: Gate, s: seq<Color>, pts: seq<Point>, c: Color): (r: seq<Color>)
      requires |s| == width * height && |g.mask| == width * height
      ensures |r| == |s|
    {
      PaintedPrefix(g, s, pts, |pts|, c)
    }

    /** The store after plotting the first n points of `pts` in order. */
    function PaintedPrefix(g: Gate, s: seq<Color>, pts: seq<Point>, n: nat, c: Color): (r: seq<Color>)
      requires |s| == width * height && |g.mask| == width * height && n <= |pts|
      ensures |r| == |s|
      decreases n
    {
      if n == 0 then s
      else Painted(g, PaintedPrefix(g, s, pts, n - 1, c), pts[n - 1].x, pts[n - 1].y, c)
    }

    /** Plotting a prefix only looks at that prefix. */
    lemma {:induction false} PaintedPrefixOfAppend(g: Gate, s: seq<Color>, a: seq<Point>, b: seq<Point>, n: nat, c: Color)
      requires |s| == width * height && |g.mask| == width * height && n <= |a|
      ensures PaintedPrefix(g, s, a + b, n, c) == PaintedPrefix(g, s, a, n, c)
      decreases n
    {
      if n > 0 {
        PaintedPrefixOfAppend(g, s, a, b, n - 1, c);
      }
    }

    /** Whether plotting `pt` writes store index p. */
    predicate Hits(pt: Point, p: nat)
    {
      InBounds(pt.x, pt.y) && Index(pt.x, pt.y) == p
    }

    lemma PaintedAllAppend(g: Gate, s: seq<Color>, a: seq<Point>, b: seq<Point>, c: Color)
      requires |s| == width * height && |g.mask| == width * height
      ensures PaintedAll(g, s, a + b, c) == PaintedAll(g, PaintedAll(g, s, a, c), b, c)
    {
      PaintedPrefixOfAppend(g, s, a, b, |a|, c);
      PaintedSuffix(g, s, a, b, |b|, c);
    }

    lemma {:induction false} PaintedSuffix(g: Gate, s: seq<Color>, a: seq<Point>, b: seq<Point>, k: nat, c: Color)
      requires |s| == width * height && |g.mask| == width * height && k <= |b|
      requires PaintedPrefix(g, s, a + b, |a|, c) == PaintedAll(g, s, a, c)
      ensures PaintedPrefix(g, s, a + b, |a| + k, c) == PaintedPrefix(g, PaintedAll(g, s, a, c), b, k, c)
      decreases k
    {
      if k > 0 {
        PaintedSuffix(g, s, a, b, k - 1, c);
        assert (a + b)[|a| + k - 1] == b[k - 1];
      }
    }

    /** Drawing writes nothing but the pixels its points land on. */
    lemma PaintedAllUntouched(g: Gate, s: seq<Color>, pts: seq<Point>, c: Color, p: nat)
      requires |s| == width * height && |g.mask| == width * height && p < |s|
      requires forall k :: 0 <= k < |pts| ==> !Hits(pts[k], p)
      ensures PaintedAll(g, s, pts, c)[p] == s[p]
    {
      PaintedPrefixUntouched(g, s, pts, |pts|, c, p);
    }

    lemma {:induction false} PaintedPrefixUntouched(g: Gate, s: seq<Color>, pts: seq<Point>, n: nat, c: Color, p: nat)
      requires |s| == width * height && |g.mask| == width * height && p < |s| && n <= |pts|
      requires forall k :: 0 <= k < n ==> !Hits(pts[k], p)
      ensures PaintedPrefix(g, s, pts, n, c)[p] == s[p]
      decreases n
    {
      if n > 0 {
        PaintedPrefixUntouched(g, s, pts, n - 1, c, p);
      }
    }

    /** Where the surface's write replaces outright at full alpha (as
        orbclient's does) and the mask does not gate, `pixel` with an opaque
        colour stores exactly that colour. */
    lemma PaintedOpaque(g: Gate, s: seq<Color>, x: int, y: int, c: Color)
      requires |s| == width * height && |g.mask| == width * height && InBounds(x, y) && c.a == 255
      requires forall o: Color, d: Color :: d.a == 255 ==> write(o, d) == d
      requires !g.enabled || g.mask[Index(x, y)].r == 255
      ensures Painted(g, s, x, y, c)[Index(x, y)] == c
    {
    }

    /** Reading a pixel back after `pixel`: (x, y) holds the write of the
        handed colour over what was there, every other pixel is as before. */
    lemma PaintedReadBack(g: Gate, s: seq<Color>, x: int, y: int, c: Color, x2: int, y2: int)
      requires |s| == width * height && |g.mask| == width * height && InBounds(x2, y2)
      ensures (x2, y2) == (x, y) ==>
        Painted(g, s, x, y, c)[Index(x2, y2)] == write(s[Index(x, y)], Handed(g, Index(x, y), c))
      ensures (x2, y2) != (x, y) ==> Painted(g, s, x, y, c)[Index(x2, y2)] == s[Index(x2, y2)]
    {
      if InBounds(x, y) && (x2, y2) != (x, y) {
        PixcolDistinct(x, y, x2, y2);
      }
    }

    /** `pixel`: the masked write. */
    method Pixel(x: int, y: int, c: Color)
      requires Valid()
      modifies image
      ensures image[..] == Painted(Gating(), old(image[..]), x, y, c)
    {
      if InBounds(x, y) {
        var p := Index(x, y);
        var color := c;
        if maskEnabled {
          var alphaMask := mask[p].r;
          color := Color(c.r, c.g, c.b, alphaMask & c.a);
        }
        image[p] := write(image[p], color);
      }
    }

    /** Plot points in order through `pixel`. */
    method PlotAll(pts: seq<Point>, c: Color)
      requires Valid()
      modifies image
      ensures image[..] == PaintedAll(Gating(), old(image[..]), pts, c)
    {
      for k := 0 to |pts|
        invariant image[..] == PaintedPrefix(Gating(), old(image[..]), pts, k, c)
      {
        Pixel(pts[k].x, pts[k].y, c);
      }
    }

    /** `line`: the Bresenham line through `pixel`. */
    method Line(x1: int, y1: int, x2: int, y2: int, c: Color) returns (ghost plotted: seq<Point>)
      requires Valid()
      modifies image
      ensures image[..] == PaintedAll(Gating(), old(image[..]), plotted, c)
      ensures |plotted| >= 1 && plotted[0] == Point(x1, y1) && plotted[|plotted| - 1] == Point(x2, y2)
      ensures forall k :: 0 <= k < |plotted| - 1 ==>
        plotted[k] != Point(x2, y2) && Adjacent(plotted[k], plotted[k + 1])
      ensures forall k :: 0 <= k < |plotted| ==> InBox(plotted[k], x1, y1, x2, y2)
      ensures Abs(x2 - x1) + 1 <= |plotted| && Abs(y2 - y1) + 1 <= |plotted|
      ensures |plotted| <= Abs(x2 - x1) + Abs(y2 - y1) + 1
      ensures y1 == y2 ==> plotted == Row(x1, x2, y1)
    {
      var pts := LinePoints(x1, y1, x2, y2);
      PlotAll(pts, c);
      plotted := pts;
    }

    /** `line` with both ends on row y: it plots the row from xa to xb. */
    method Span(xa: int, xb: int, y: int, c: Color)
      requires Valid()
      modifies image
      ensures image[..] == PaintedAll(Gating(), old(image[..]), Row(xa, xb, y), c)
    {
      var plotted := Line(xa, y, xb, y, c);
    }

    /** `line4points`: the span from x0 - x to x0 + x on row y0 + y and,
        unless y is 0, its mirror on row y0 - y. */
    method Line4Points(x0: int, y0: int, x: int, y: int, c: Color) returns (ghost plotted: seq<Point>)
      requires Valid()
      modifies image
      ensures image[..] == PaintedAll(Gating(), old(image[..]), plotted, c)
      ensures plotted == SpanPair(x0, y0, Point(x, y))
    {
      Span(x0 - x, x + x0, y0 + y, c);
      ghost var upperDone := image[..];
      if y != 0 {
        Span(x0 - x, x + x0, y0 - y, c);
      }
      SpanPairPainted(Gating(), old(image[..]), upperDone, image[..], x0, y0, x, y, c);
      plotted := SpanPair(x0, y0, Point(x, y));
    }

    /** Plotting a span pair is plotting its upper row, then its lower row
        unless the pair has a single row. */
    lemma SpanPairPainted(g: Gate, s: seq<Color>, mid: seq<Color>, s': seq<Color>, x0: int, y0: int, x: int, y: int, c: Color)
      requires |s| == width * height && |g.mask| == width * height
      requires mid == PaintedAll(g, s, Row(x0 - x, x + x0, y0 + y), c)
      requires y == 0 ==> s' == mid
      requires y != 0 ==> s' == PaintedAll(g, mid, Row(x0 - x, x + x0, y0 - y), c)
      ensures s' == PaintedAll(g, s, SpanPair(x0, y0, Point(x, y)), c)
    {
      if y != 0 {
        PaintedAllAppend(g, s, Row(x0 - x, x + x0, y0 + y), Row(x0 - x, x + x0, y0 - y), c);
      }
    }

    /** `circle`: the sign of the radius picks the mode.  Positive draws the
        8-fold symmetric midpoint outline, negative fills spans, zero plots
        the centre only.  Every point lies within the radius on both axes
        and inside the circle of radius |radius| + 1/2. */
    method Circle(x0: int, y0: int, radius: int, c: Color) returns (ghost plotted: seq<Point>)
      requires Valid()
      modifies image
      ensures image[..] == PaintedAll(Gating(), old(image[..]), plotted, c)
      ensures radius == 0 ==> plotted == [Point(x0, y0)]
      ensures radius != 0 ==> forall k :: 0 <= k < |plotted| ==> NearDisc(plotted[k], x0, y0, Abs(radius))
      ensures radius > 0 ==> exists steps :: IsOutline(plotted, x0, y0, radius, steps)
      ensures radius < 0 ==> exists calls :: IsFilledDisc(plotted, x0, y0, Abs(radius), calls)
    {
      if radius > 0 {
        plotted := CircleOutline(x0, y0, radius, c);
      } else if radius < 0 {
        ghost var calls;
        plotted, calls := CircleFilled(x0, y0, -radius, c);
      } else {
        Pixel(x0, y0, c);
        plotted := [Point(x0, y0)];
      }
    }

    /** `plotted` is the outline of offsets `steps`: eight symmetric points
        per offset, the offsets one per row from (radius, 0) up to the
        diagonal, x never growing and each offset inside radius + 1/2. */
    ghost predicate IsOutline(plotted: seq<Point>, x0: int, y0: int, radius: nat, steps: seq<Point>)
    {
      plotted == OutlinePoints(x0, y0, steps) && |steps| >= 1 && steps[0] == Point(radius, 0) &&
      (forall k :: 0 <= k < |steps| ==> steps[k].y == k && steps[k].y <= steps[k].x <= radius) &&
      (forall k :: 0 <= k < |steps| - 1 ==> StepDown(steps[k], steps[k + 1])) &&
      (forall k :: 0 <= k < |steps| ==> InsideOutline(steps[k], radius)) &&
      steps[|steps| - 1].x <= steps[|steps| - 1].y + 1
    }

    /** `plotted` is the filled disc of `line4points` arguments `calls`: the
        spans of each call in order, the calls starting at (radius, 0),
        within 0..radius on both axes, inside radius + 1/2, and ending next
        to the diagonal. */
    ghost predicate IsFilledDisc(plotted: seq<Point>, x0: int, y0: int, radius: nat, calls: seq<Point>)
    {
      plotted == FilledPoints(x0, y0, calls) && |calls| >= 1 && calls[0] == Point(radius, 0) &&
      (forall k :: 0 <= k < |calls| ==> 0 <= calls[k].x <= radius && 0 <= calls[k].y <= radius) &&
      (forall k :: 0 <= k < |calls| ==>
        calls[k].x * calls[k].x + calls[k].y * calls[k].y < radius * radius + radius) &&
      Abs(calls[|calls| - 1].x - calls[|calls| - 1].y) <= 1
    }

    /** The outline branch of `circle`. */
    method CircleOutline(x0: int, y0: int, radius: nat, c: Color) returns (ghost plotted: seq<Point>)
      requires Valid() && radius > 0
      modifies image
      ensures image[..] == PaintedAll(Gating(), old(image[..]), plotted, c)
      ensures forall k :: 0 <= k < |plotted| ==> NearDisc(plotted[k], x0, y0, radius)
      ensures exists steps :: IsOutline(plotted, x0, y0, radius, steps)
    {
      var steps := MidpointSteps(radius);
      OutlineNearDisc(x0, y0, radius, steps);
      var pts := OutlinePoints(x0, y0, steps);
      PlotAll(pts, c);
      plotted := pts;
      assert IsOutline(plotted, x0, y0, radius, steps);
    }

    /** The filled branch of `circle`, for a radius of magnitude `r`. */
    method CircleFilled(x0: int, y0: int, r: nat, c: Color) returns (ghost plotted: seq<Point>, ghost calls: seq<Point>)
      requires Valid() && r > 0
      modifies image
      ensures image[..] == PaintedAll(Gating(), old(image[..]), plotted, c)
      ensures IsFilledDisc(plotted, x0, y0, r, calls)
      ensures forall k :: 0 <= k < |plotted| ==> NearDisc(plotted[k], x0, y0, r)
    {
      var args := FilledSteps(r);
      plotted := PlotSpans(x0, y0, args, c);
      calls := args;
      FilledNearDisc(x0, y0, r, calls);
    }

    /** The `line4points` calls of the filled loop, made in order. */
    method PlotSpans(x0: int, y0: int, calls: seq<Point>, c: Color) returns (ghost plotted: seq<Point>)
      requires Valid()
      modifies image
      ensures image[..] == PaintedAll(Gating(), old(image[..]), plotted, c)
      ensures plotted == FilledPoints(x0, y0, calls)
    {
      plotted := [];
      for k := 0 to |calls|
        invariant image[..] == PaintedAll(Gating(), old(image[..]), plotted, c)
        invariant plotted == FilledPoints(x0, y0, calls[..k])
      {
        var call := calls[k];
        var more := Line4Points(x0, y0, call.x, call.y, c);
        PaintedAllAppend(Gating(), old(image[..]), plotted, more, c);
        FilledPointsStep(x0, y0, calls, k);
        plotted := plotted + more;
      }
      assert calls[..|calls|] == calls;
    }

    lemma FilledPointsStep(x0: int, y0: int, calls: seq<Point>, k: nat)
      requires k < |calls|
      ensures FilledPoints(x0, y0, calls[..k + 1]) == FilledPoints(x0, y0, calls[..k]) + SpanPair(x0, y0, calls[k])
    {
      assert calls[..k + 1][..k] == calls[..k];
    }

    /** `undo_save`: push a copy of the image, dropping the oldest snapshot
        past the depth limit. */
    method UndoSave()
      requires Valid()
      modifies this`undo
      ensures Valid()
      ensures undo == Pushed(old(undo), image[..], depth)
    {
      undo := undo + [image[..]];
      if |undo| > depth {
        undo := undo[1..];
      }
    }

    /** `undo`: with more than one snapshot, the image becomes the top one and
        it is popped; otherwise nothing happens. */
    method Undo()
      requires Valid()
      modifies this`undo, image
      ensures Valid()
      ensures (image[..], undo) == Undone(old(undo), old(image[..]))
    {
      var l := |undo|;
      if l > 1 {
        CopyInto(image, undo[l - 1]);
        undo := undo[..l - 1];
      }
    }

    /** `clear`: save for undo, then paint the whole image opaque white. */
    method Clear()
      requires Valid()
      modifies this`undo, image
      ensures Valid()
      ensures undo == Pushed(old(undo), old(image[..]), depth)
      ensures image[..] == seq(image.Length, _ => White)
    {
      UndoSave();
      SetAll(image, White);
    }

    /** `fill`: save for undo, then run the surface's own fill, which is
        passed in since its body is not part of this model. */
    method Fill(x: int, y: int, c: Color, imageFill: (seq<Color>, int, int, Color) -> seq<Color>)
      requires Valid() && |imageFill(image[..], x, y, c)| == image.Length
      modifies this`undo, image
      ensures Valid()
      ensures undo == Pushed(old(undo), old(image[..]), depth)
      ensures image[..] == imageFill(old(image[..]), x, y, c)
    {
      UndoSave();
      var filled := imageFill(image[..], x, y, c);
      CopyInto(image, filled);
    }

    /** `interact_circle`: save for undo, then run the surface's interactive
        circle.  What it draws depends on the window's events, so it is
        passed in as the store it leaves behind. */
    method InteractCircle(x: int, y: int, c: Color, imageInteract: (seq<Color>, int, int, Color) -> seq<Color>)
      requires Valid() && |imageInteract(image[..], x, y, c)| == image.Length
      modifies this`undo, image
      ensures Valid()
      ensures undo == Pushed(old(undo), old(image[..]), depth)
      ensures image[..] == imageInteract(old(image[..]), x, y, c)
    {
      UndoSave();
      var drawn := imageInteract(image[..], x, y, c);
      CopyInto(image, drawn);
    }

    /** `paste_selection`: save for undo, then run the surface's own paste,
        passed in like the fill. */
    method PasteSelection(x: int, y: int, opacity: Byte, newImage: Surface,
                          imagePaste: (seq<Color>, int, int, Byte, Surface) -> seq<Color>)
      requires Valid() && |imagePaste(image[..], x, y, opacity, newImage)| == image.Length
      modifies this`undo, image
      ensures Valid()
      ensures undo == Pushed(old(undo), old(image[..]), depth)
      ensures image[..] == imagePaste(old(image[..]), x, y, opacity, newImage)
    {
      UndoSave();
      var pasted := imagePaste(image[..], x, y, opacity, newImage);
      CopyInto(image, pasted);
    }

    /** `enable_mask`. */
    method EnableMask(status: bool)
      modifies this`maskEnabled
      ensures maskEnabled == status
    {
      maskEnabled := status;
    }

    /** `paint_on_mask`: swap the contents of image and mask and flip the
        flags; the undo stack is untouched. */
    method PaintOnMask()
      requires Valid()
      modifies this`maskFlag, this`maskEnabled, image, mask
      ensures Valid() && undo == old(undo)
      ensures View() == Toggled(old(View()))
    {
      var image2 := image[..];
      CopyInto(image, mask[..]);
      CopyInto(mask, image2);
      if maskFlag {
        maskFlag := false;
        EnableMask(true);
      } else {
        maskFlag := true;
        EnableMask(false);
      }
    }

    /** `clear_mask`: reset the slot holding the mask to the marker colour. */
    method ClearMask()
      requires Valid()
      modifies image, mask
      ensures Valid() && undo == old(undo)
      ensures View() == MaskCleared(old(View()))
    {
      if maskFlag {
        SetAll(image, MaskMarker);
      } else {
        SetAll(mask, MaskMarker);
      }
    }

    // ---------------------------------------------------------------
    // Scanline flood fill

    /** The colour a fill write leaves on a pixel of colour `oldColor`. */
    function Filled(g: Gate, p: nat, newColor: Color, oldColor: Color): Color
      requires p < |g.mask|
    {
      write(oldColor, Handed(g, p, newColor))
    }

    /** The fill makes progress: on every pixel of `s` that has `oldColor`, a
        fill write leaves another colour. */
    ghost predicate FillChanges(g: Gate, s: seq<Color>, oldColor: Color, newColor: Color)
    {
      |s| == |g.mask| &&
      forall p :: 0 <= p < |s| && s[p] == oldColor ==> Filled(g, p, newColor, oldColor) != oldColor
    }

    /** Fill writes keep the progress condition: they create no `oldColor`
        pixels. */
    lemma FillChangesKept(g: Gate, a: seq<Color>, b: seq<Color>, oldColor: Color, newColor: Color)
      requires FillChanges(g, a, oldColor, newColor) && FilledFrom(g, a, b, oldColor, newColor)
      ensures FillChanges(g, b, oldColor, newColor)
    {
    }

    /** `after` differs from `before` only by fill writes, each on a pixel that
        had `oldColor`. */
    ghost predicate FilledFrom(g: Gate, before: seq<Color>, after: seq<Color>, oldColor: Color, newColor: Color)
    {
      |before| == |g.mask| && |after| == |g.mask| &&
      forall p :: 0 <= p < |before| ==>
        after[p] == before[p] || (before[p] == oldColor && after[p] == Filled(g, p, newColor, oldColor))
    }

    lemma FilledFromTrans(g: Gate, a: seq<Color>, b: seq<Color>, c: seq<Color>, oldColor: Color, newColor: Color)
      requires FillChanges(g, a, oldColor, newColor)
      requires FilledFrom(g, a, b, oldColor, newColor) && FilledFrom(g, b, c, oldColor, newColor)
      ensures FilledFrom(g, a, c, oldColor, newColor)
    {
    }

    /** A pixel without `oldColor` is never written by the fill. */
    lemma FilledFromKeeps(g: Gate, a: seq<Color>, b: seq<Color>, oldColor: Color, newColor: Color)
      requires FilledFrom(g, a, b, oldColor, newColor)
      ensures forall p :: 0 <= p < |a| && a[p] != oldColor ==> b[p] == a[p]
    {
    }

    /** Fill writes never create `oldColor` pixels. */
    lemma FilledFromCount(g: Gate, a: seq<Color>, b: seq<Color>, oldColor: Color, newColor: Color)
      requires FillChanges(g, a, oldColor, newColor) && FilledFrom(g, a, b, oldColor, newColor)
      ensures CountOf(b, oldColor) <= CountOf(a, oldColor)
    {
      CountNoMore(a, b, oldColor);
    }

    /** The end of the run of `c` on row `base` starting at column x. */
    function RunRight(s: seq<Color>, base: nat, x: nat, c: Color): (r: nat)
      reads this
      requires x <= width && base + width <= |s|
      ensures x <= r <= width
      ensures forall p :: base + x <= p < base + r ==> s[p] == c
      ensures r < width ==> s[base + r] != c
      decreases width - x
    {
      if x == width || s[base + x] != c then x else RunRight(s, base, x + 1, c)
    }

    /** A column inside the row that still shows `c` where the run has got to
        lies inside the run. */
    lemma RunRightPast(s: seq<Color>, base: nat, x: nat, x1: nat, c: Color)
      requires x <= x1 < width && base + width <= |s|
      requires x1 <= RunRight(s, base, x, c) && s[base + x1] == c
      ensures x1 < RunRight(s, base, x, c)
    {
    }

    /** The leftward counterpart of RunRightPast. */
    lemma RunLeftPast(s: seq<Color>, base: nat, x: nat, x1: nat, c: Color)
      requires x1 < x && base + x <= |s|
      requires RunLeft(s, base, x, c) <= x1 + 1 && s[base + x1] == c
      ensures RunLeft(s, base, x, c) <= x1
    {
    }

    /** The start of the run of `c` on row `base` ending just before column x. */
    function RunLeft(s: seq<Color>, base: nat, x: nat, c: Color): (l: nat)
      requires base + x <= |s|
      ensures l <= x
      ensures forall p :: base + l <= p < base + x ==> s[p] == c
      ensures l > 0 ==> s[base + l - 1] != c
      decreases x
    {
      if x == 0 || s[base + x - 1] != c then x else RunLeft(s, base, x - 1, c)
    }

    /** `fill_mask`: flood fill from (x, y) over the colour found there. */
    method FillMask(x: int, y: int, color: Color)
      requires Valid() && InBounds(x, y)
      requires Pixcol(x, y) != color ==> FillChanges(Gating(), image[..], Pixcol(x, y), color)
      modifies image
      ensures FilledFrom(Gating(), old(image[..]), image[..], old(Pixcol(x, y)), color)
      ensures old(Pixcol(x, y)) != color ==> Pixcol(x, y) != old(Pixcol(x, y))
    {
      var rgba := Pixcol(x, y);
      FloodFillScanline(x, y, color, rgba);
    }

    /** `flood_fill_scanline`: fill the run of `oldColor` through (x, y) on
        its row, then seed the rows above and below from every column of the
        run that now shows the colour the seed received. */
    method FloodFillScanline(x: int, y: int, newColor: Color, oldColor: Color)
      requires Valid() && InBounds(x, y)
      requires oldColor != newColor ==> FillChanges(Gating(), image[..], oldColor, newColor)
      modifies image
      ensures FilledFrom(Gating(), old(image[..]), image[..], oldColor, newColor)
      ensures oldColor == newColor || old(image[Index(x, y)]) != oldColor ==> image[..] == old(image[..])
      ensures oldColor != newColor && old(image[Index(x, y)]) == oldColor ==>
        forall p :: RowStart(y) + RunLeft(old(image[..]), RowStart(y), x, oldColor) <= p
                      < RowStart(y) + RunRight(old(image[..]), RowStart(y), x, oldColor)
          ==> image[p] == Filled(Gating(), p, newColor, oldColor)
      decreases CountOf(image[..], oldColor), 2
    {
      if oldColor == newColor {
        return;
      }
      if Pixcol(x, y) != oldColor {
        return;
      }
      ghost var entry := image[..];
      var resColor, lo, hi := FillSeedRun(x, y, newColor, oldColor);
      ghost var run := image[..];
      FillChangesKept(Gating(), entry, run, oldColor, newColor);
      SeedRows(x, y, resColor, newColor, oldColor, CountOf(entry, oldColor));
      FilledFromTrans(Gating(), entry, run, image[..], oldColor, newColor);
      FilledFromKeeps(Gating(), run, image[..], oldColor, newColor);
    }

    /** The row part of `flood_fill_scanline`: fill rightwards from the seed,
        note the colour the seed received, then fill leftwards.  Exactly the
        maximal run of `oldColor` through the seed, store indices lo up to
        hi, is written. */
    method FillSeedRun(x: int, y: int, newColor: Color, oldColor: Color)
      returns (resColor: Color, ghost lo: nat, ghost hi: nat)
      requires Valid() && InBounds(x, y) && Pixcol(x, y) == oldColor
      requires oldColor != newColor && FillChanges(Gating(), image[..], oldColor, newColor)
      modifies image
      ensures lo == RowStart(y) + RunLeft(old(image[..]), RowStart(y), x, oldColor)
      ensures hi == RowStart(y) + RunRight(old(image[..]), RowStart(y), x, oldColor)
      ensures resColor == Filled(Gating(), Index(x, y), newColor, oldColor) && resColor == Pixcol(x, y)
      ensures FillSpan(Gating(), old(image[..]), image[..], lo, hi, newColor, oldColor)
      ensures FilledFrom(Gating(), old(image[..]), image[..], oldColor, newColor)
      ensures CountOf(image[..], oldColor) < CountOf(old(image[..]), oldColor)
    {
      ghost var entry := image[..];
      ghost var base := RowStart(y);
      hi := FillRight(x, y, newColor, oldColor);
      resColor := Pixcol(x, y);
      ghost var mid := image[..];
      RunLeftSame(entry, mid, base, x, oldColor);
      lo := FillLeft(x, y, newColor, oldColor);
      FillSpanJoin(Gating(), entry, mid, image[..], lo, base + x, hi, newColor, oldColor);
      FillSpanFilledFrom(Gating(), entry, image[..], lo, hi, newColor, oldColor);
      CountLess(entry, image[..], oldColor, base + x);
    }

    /** The rightward loop: fill from column x while the row shows `oldColor`. */
    method FillRight(x: int, y: int, newColor: Color, oldColor: Color) returns (ghost hi: nat)
      requires Valid() && InBounds(x, y)
      modifies image
      ensures hi == RowStart(y) + RunRight(old(image[..]), RowStart(y), x, oldColor)
      ensures FillSpan(Gating(), old(image[..]), image[..], RowStart(y) + x, hi, newColor, oldColor)
    {
      ghost var base := RowStart(y);
      hi := base + RunRight(image[..], base, x, oldColor);
      var w := width as int;
      var x1 := x;
      while x1 < w && Pixcol(x1, y) == oldColor
        invariant x <= x1 && base + x1 <= hi
        invariant FillSpan(Gating(), old(image[..]), image[..], base + x, base + x1, newColor, oldColor)
      {
        FillRightStep(x, y, x1, newColor, oldColor, old(image[..]), hi);
        x1 := x1 + 1;
      }
    }

    /** One pass of the rightward loop: column x1 still shows `oldColor`, so
        it lies inside the run and its fill write extends the span. */
    method FillRightStep(x: int, y: int, x1: int, newColor: Color, oldColor: Color,
                         ghost entry: seq<Color>, ghost hi: nat)
      requires Valid() && InBounds(x, y) && x <= x1 < width && Pixcol(x1, y) == oldColor
      requires |entry| == image.Length && hi == RowStart(y) + RunRight(entry, RowStart(y), x, oldColor)
      requires RowStart(y) + x1 <= hi
      requires FillSpan(Gating(), entry, image[..], RowStart(y) + x, RowStart(y) + x1, newColor, oldColor)
      modifies image
      ensures RowStart(y) + x1 + 1 <= hi
      ensures FillSpan(Gating(), entry, image[..], RowStart(y) + x, RowStart(y) + x1 + 1, newColor, oldColor)
    {
      ghost var base := RowStart(y);
      FillSpanRight(Gating(), entry, image[..], base + x, base + x1, newColor, oldColor);
      RunRightPast(entry, base, x, x1, oldColor);
      FillPixel(x1, y, newColor, oldColor);
    }

    /** The leftward loop: fill from column x - 1 down while the row shows
        `oldColor`. */
    method FillLeft(x: int, y: int, newColor: Color, oldColor: Color) returns (ghost lo: nat)
      requires Valid() && InBounds(x, y)
      modifies image
      ensures lo == RowStart(y) + RunLeft(old(image[..]), RowStart(y), x, oldColor)
      ensures FillSpan(Gating(), old(image[..]), image[..], lo, RowStart(y) + x, newColor, oldColor)
    {
      ghost var base := RowStart(y);
      lo := base + RunLeft(image[..], base, x, oldColor);
      var x1 := x - 1;
      while x1 >= 0 && Pixcol(x1, y) == oldColor
        invariant lo <= base + x1 + 1 && x1 <= x - 1
        invariant FillSpan(Gating(), old(image[..]), image[..], base + x1 + 1, base + x, newColor, oldColor)
      {
        FillLeftStep(x, y, x1, newColor, oldColor, old(image[..]), lo);
        x1 := x1 - 1;
      }
    }

    /** One pass of the leftward loop: column x1 still shows `oldColor`, so
        it lies inside the run and its fill write extends the span. */
    method FillLeftStep(x: int, y: int, x1: int, newColor: Color, oldColor: Color,
                        ghost entry: seq<Color>, ghost lo: nat)
      requires Valid() && InBounds(x, y) && 0 <= x1 < x && Pixcol(x1, y) == oldColor
      requires |entry| == image.Length && lo == RowStart(y) + RunLeft(entry, RowStart(y), x, oldColor)
      requires lo <= RowStart(y) + x1 + 1
      requires FillSpan(Gating(), entry, image[..], RowStart(y) + x1 + 1, RowStart(y) + x, newColor, oldColor)
      modifies image
      ensures lo <= RowStart(y) + x1
      ensures FillSpan(Gating(), entry, image[..], RowStart(y) + x1, RowStart(y) + x, newColor, oldColor)
    {
      ghost var base := RowStart(y);
      FillSpanLeft(Gating(), entry, image[..], base + x1 + 1, base + x, newColor, oldColor);
      RunLeftPast(entry, base, x, x1, oldColor);
      FillPixel(x1, y, newColor, oldColor);
    }

    /** One fill write through `pixel`: the pixel at store index
        RowStart(y) + x gets its fill colour and no other pixel changes. */
    method FillPixel(x: int, y: int, newColor: Color, oldColor: Color)
      requires Valid() && InBounds(x, y) && Pixcol(x, y) == oldColor
      modifies image
      ensures Index(x, y) == RowStart(y) + x
      ensures image[..] == old(image[..])[RowStart(y) + x := Filled(old(Gating()), RowStart(y) + x, newColor, oldColor)]
    {
      Pixel(x, y, newColor);
    }

    /** `after` is `before` with exactly the store indices lo up to hi
        overwritten by fill writes. */
    ghost predicate FillSpan(g: Gate, before: seq<Color>, after: seq<Color>, lo: nat, hi: nat,
                             newColor: Color, oldColor: Color)
    {
      |before| == |g.mask| && |after| == |g.mask| && lo <= hi <= |after| &&
      (forall p :: lo <= p < hi ==> after[p] == Filled(g, p, newColor, oldColor)) &&
      (forall p :: 0 <= p < |after| && !(lo <= p < hi) ==> after[p] == before[p])
    }

    /** A fill write just right of the span extends it by one. */
    lemma FillSpanRight(g: Gate, before: seq<Color>, mid: seq<Color>, lo: nat, hi: nat,
                        newColor: Color, oldColor: Color)
      requires FillSpan(g, before, mid, lo, hi, newColor, oldColor) && hi < |mid|
      ensures mid[hi] == before[hi]
      ensures FillSpan(g, before, mid[hi := Filled(g, hi, newColor, oldColor)], lo, hi + 1, newColor, oldColor)
    {
    }

    /** A fill write just left of the span extends it by one. */
    lemma FillSpanLeft(g: Gate, before: seq<Color>, mid: seq<Color>, lo: nat, hi: nat,
                       newColor: Color, oldColor: Color)
      requires FillSpan(g, before, mid, lo, hi, newColor, oldColor) && 0 < lo
      ensures mid[lo - 1] == before[lo - 1]
      ensures FillSpan(g, before, mid[lo - 1 := Filled(g, lo - 1, newColor, oldColor)], lo - 1, hi, newColor, oldColor)
    {
    }

    /** Adjacent spans written one after the other make one span. */
    lemma FillSpanJoin(g: Gate, a: seq<Color>, b: seq<Color>, c: seq<Color>, lo: nat, mid: nat, hi: nat,
                       newColor: Color, oldColor: Color)
      requires FillSpan(g, a, b, mid, hi, newColor, oldColor)
      requires FillSpan(g, b, c, lo, mid, newColor, oldColor)
      ensures FillSpan(g, a, c, lo, hi, newColor, oldColor)
    {
    }

    /** A span written over pixels that all had `oldColor` is made of fill
        writes. */
    lemma FillSpanFilledFrom(g: Gate, a: seq<Color>, b: seq<Color>, lo: nat, hi: nat,
                             newColor: Color, oldColor: Color)
      requires FillSpan(g, a, b, lo, hi, newColor, oldColor)
      requires forall p :: lo <= p < hi ==> a[p] == oldColor
      ensures FilledFrom(g, a, b, oldColor, newColor)
    {
    }

    /** The leftward run only depends on the pixels left of the seed. */
    lemma {:induction false} RunLeftSame(s1: seq<Color>, s2: seq<Color>, base: nat, x: nat, c: Color)
      requires base + x <= |s1| && base + x <= |s2|
      requires forall p :: base <= p < base + x ==> s1[p] == s2[p]
      ensures RunLeft(s1, base, x, c) == RunLeft(s2, base, x, c)
      decreases x
    {
      if x > 0 {
        RunLeftSame(s1, s2, base, x - 1, c);
      }
    }

    /** The seeding part of `flood_fill_scanline`: the row above from the
        seed rightwards, then leftwards, then the row below likewise. */
    method SeedRows(x: int, y: int, resColor: Color, newColor: Color, oldColor: Color, ghost bound: nat)
      requires Valid() && InBounds(x, y)
      requires oldColor != newColor && FillChanges(Gating(), image[..], oldColor, newColor)
      requires CountOf(image[..], oldColor) < bound
      modifies image
      ensures FilledFrom(Gating(), old(image[..]), image[..], oldColor, newColor)
      decreases bound, 1
    {
      ghost var run := image[..];
      SeedNeighbours(x, y, y - 1, 1, resColor, newColor, oldColor, bound);
      FilledFromCount(Gating(), run, image[..], oldColor, newColor);
      FillChangesKept(Gating(), run, image[..], oldColor, newColor);
      ghost var mid := image[..];
      SeedNeighbours(x - 1, y, y - 1, -1, resColor, newColor, oldColor, bound);
      FilledFromTrans(Gating(), run, mid, image[..], oldColor, newColor);
      FilledFromCount(Gating(), run, image[..], oldColor, newColor);
      FillChangesKept(Gating(), run, image[..], oldColor, newColor);
      mid := image[..];
      SeedNeighbours(x, y, y + 1, 1, resColor, newColor, oldColor, bound);
      FilledFromTrans(Gating(), run, mid, image[..], oldColor, newColor);
      FilledFromCount(Gating(), run, image[..], oldColor, newColor);
      FillChangesKept(Gating(), run, image[..], oldColor, newColor);
      mid := image[..];
      SeedNeighbours(x - 1, y, y + 1, -1, resColor, newColor, oldColor, bound);
      FilledFromTrans(Gating(), run, mid, image[..], oldColor, newColor);
    }

    /** One of the four seeding loops of `flood_fill_scanline`: walk row y
        from `start` in direction `step` while it shows `resColor`, and fill
        from every column whose pixel on row `ny` still has `oldColor`. */
    method SeedNeighbours(start: int, y: int, ny: int, step: int, resColor: Color,
                          newColor: Color, oldColor: Color, ghost bound: nat)
      requires Valid() && 0 <= y < height && -1 <= start <= width && (step == 1 || step == -1)
      requires oldColor != newColor && FillChanges(Gating(), image[..], oldColor, newColor)
      requires CountOf(image[..], oldColor) < bound
      modifies image
      ensures FilledFrom(Gating(), old(image[..]), image[..], oldColor, newColor)
      decreases bound, 0
    {
      var x1 := start;
      while 0 <= x1 < width && Pixcol(x1, y) == resColor
        invariant -1 <= x1 <= width
        invariant FilledFrom(Gating(), old(image[..]), image[..], oldColor, newColor)
        invariant CountOf(image[..], oldColor) < bound
        decreases if step == 1 then width - x1 else x1 + 1
      {
        if 0 <= ny < height && Pixcol(x1, ny) == oldColor {
          ghost var before := image[..];
          FillChangesKept(Gating(), old(image[..]), before, oldColor, newColor);
          FloodFillScanline(x1, ny, newColor, oldColor);
          FilledFromTrans(Gating(), old(image[..]), before, image[..], oldColor, newColor);
          FilledFromCount(Gating(), before, image[..], oldColor, newColor);
        }
        x1 := x1 + step;
      }
    }
  }
}
