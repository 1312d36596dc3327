# pastel canvas core, modelled in Dafny

This project models the raster-editing core of the pastel paint program, the
`Canvas` type of `src/canvas.rs`. A canvas holds a `width × height` image of
RGBA colours (stored row-major, pixel (x, y) at index `width*y + x`), a mask
of the same size, a bounded undo stack of image snapshots, and two flags:
`mask_flag` (the mask is currently swapped into the image slot for painting)
and `mask_enabled` (writes are gated by the mask).

The model is imperative, as the source is. `CanvasModel.Canvas` is a class
whose `image` and `mask` are arrays the methods update in place, and whose
undo stack and flags are fields the methods reassign. Each method's
postcondition ties the new state to a specification function of the old
state. The properties are then proved about those functions. Those
functions do not read the heap: the mask gating a write enters them as a
`Gate` value (the `mask_enabled` flag and the mask's contents), which the
class reads off its fields.

- `Colors`: the colour datatype (four 8-bit channels), orbclient's packed
  `0xAARRGGBB` word, and the mask's alpha gate (bitwise AND of the mask's red
  channel with the colour's alpha).
- `UndoStack`: `undo_save` and `undo` as functions on a sequence of
  snapshots. This covers the depth bound, save-then-undo, runs of saves and
  runs of undos.
- `Raster`: the integer rasterisers as point generators. These are the
  Bresenham loop of `line` and the outline and filled loops of `circle`,
  with their bounds, adjacency and termination arguments.
- `Swizzle`: the byte reorders of `save` (export to RGBA) and
  `trans_from_slice` (import back to colours), with their round trips.
- `CanvasModel`: the `Canvas` class: construction, the masked `pixel` write,
  undo, clear, the mask toggle and clear, `line`, `line4points`, `circle`,
  and the recursive scanline flood fill.

The surface's own pixel write (orbclient's alpha-blending `Image::pixel`) is
not part of this model. It is the canvas parameter `write(old, handed)`.
The properties speak about the colour handed to it. The crate-wide
`UNDODEPTH` is the canvas parameter `depth` (at least 1).

Two behaviours of the code that the model reproduces exactly:
- `undo` assigns the popped top snapshot to the image (src/canvas.rs:374-375),
  not the entry below it. Since `undo_save` pushes the image as it was before
  an edit, this restores the state before the most recent saved edit.
- `line` starts its error term at `(if dx > dy {dx} else {-dy}) / 2`
  (truncating division) and then compares `2 * err`. As a consequence a 45° line of even length is drawn as a
  staircase: (0,0) to (4,4) plots 9 points. The model states the bounds that
  hold for every line: between `max(|dx|, |dy|) + 1` and `|dx| + |dy| + 1`
  points, each step to an adjacent pixel.

## Model

| member | source | states |
|---|---|---|
| Colors.Pack | src/canvas.rs:725-729 | the packed word a colour is compared by unpacks to the same colour, with alpha in the top byte |
| Colors.PackInjective | src/canvas.rs:732-735 | two packed words are equal exactly when the colours are equal, so the flood fill's comparisons of `.data` are colour comparisons |
| Colors.Gate | src/canvas.rs:451-455 | the gated alpha is at most the mask value and at most the alpha; a mask red of 255 passes the alpha, 0 blocks it, and alpha 0 stays 0 |
| Colors.Masked | src/canvas.rs:451-455 | the gated colour keeps red, green and blue, and its alpha is the gate of the mask red and the incoming alpha |
| Swizzle.Reordered | src/canvas.rs:81-89 | the exported buffer has one quad per complete input quad (a trailing partial quad is dropped), and a quad [b0, b1, b2, b3] comes out as [b2, b1, b0, b3] |
| Swizzle.SaveReorder | src/canvas.rs:81-89 | the export loop emits bytes [2],[1],[0],[3] of each quad, i.e. exactly `Reordered(buf)`; it needs at least 4 bytes because `len() - 4` underflows |
| Swizzle.ReorderInvolutive | src/canvas.rs:81-89 | reordering twice gives back every complete quad |
| Swizzle.LayoutIsLittleEndian | src/canvas.rs:72-77 | the in-memory bytes of a colour are its packed word in little-endian order: b, g, r, a |
| Swizzle.ExportIsRgba | src/canvas.rs:72-89 | the export of the in-memory bytes is exactly r, g, b, a per pixel, the layout `image::RGBA(8)` expects |
| Swizzle.Imported | src/canvas.rs:253-267 | the import yields `len/4` colours |
| Swizzle.ImportColors | src/canvas.rs:253-267 | the import loop builds `Color::rgba(b, g, r, a)` from each quad: r from byte 2, g from byte 1, b from byte 0, a from byte 3 |
| Swizzle.ImportInvertsLayout | src/canvas.rs:225-267 | importing the in-memory bytes of an image gives back the same colours |
| Swizzle.ImportOfRgba | src/canvas.rs:253-267 | the import reads bytes in the in-memory b, g, r, a order: fed the r, g, b, a bytes that `save` writes, it returns every colour with red and blue exchanged |
| UndoStack.Pushed | src/canvas.rs:359-366 | a save leaves between 1 and `depth` entries with the snapshot on top: the old stack plus the snapshot, minus the oldest entry when the depth was reached |
| UndoStack.Undone | src/canvas.rs:369-377 | with more than one entry the image becomes the top entry and exactly that entry is popped; otherwise image and stack are unchanged, so the stack never empties |
| UndoStack.UndoAfterSave | src/canvas.rs:359-377 | an undo right after a save restores the saved image and the stack before the save, minus the evicted entry at full depth |
| UndoStack.PushedAllKeepsNewest | src/canvas.rs:359-366 | after any run of saves the stack is exactly the newest `depth` entries of the whole history, in order |
| UndoStack.UndoneTimesStops | src/canvas.rs:369-377 | undoing at least as often as there are saved states stops at the seed entry, with the image at the oldest saved state |
| UndoStack.UndoneTimesIdle | src/canvas.rs:369-377 | with one entry left, any number of undos changes nothing |
| Raster.HalfTowardZero | src/canvas.rs:598 | Rust's `/ 2` on `i32`: the result is truncated toward zero |
| Raster.LinePoints | src/canvas.rs:588-611 | the line's points start at the first endpoint and end at the second, which is not visited earlier; each step moves to an adjacent pixel; every point is in the endpoints' bounding box; the count is between max(dx, dy) + 1 and dx + dy + 1; a horizontal line is exactly its row of points |
| Raster.Row | src/canvas.rs:521-528 | a row of points from xa to xb has `|xb - xa| + 1` points from (xa, y) to (xb, y) |
| Raster.RowInBox | src/canvas.rs:521-528 | every point of a row lies between its two ends |
| Raster.MidpointSteps | src/canvas.rs:474-494 | the outline loop's offsets start at (radius, 0), take one row per pass, keep y ≤ x ≤ radius, never let x grow or drop by more than 1, and stay inside x² + y² ≤ r² + x − 1; the last offset is next to the diagonal (x ≤ y + 1), where the loop's `x >= y` test fails |
| Raster.FilledSteps | src/canvas.rs:496-513 | the filled loop's `line4points` arguments start at (R, 0), stay within 0..R on both axes, and satisfy x² + y² < R² + R; the last argument is next to the diagonal (x and y differ by at most 1) |
| Raster.OutlinePoints | src/canvas.rs:476-483 | the outline plots eight points per offset |
| Raster.OutlineGroups | src/canvas.rs:476-483 | the k-th group of eight outline points is exactly the 8-fold mirror image of the k-th offset |
| Raster.OutlineNearDisc | src/canvas.rs:474-494 | when every offset satisfies the loop's bounds, every outline point is within the radius on both axes and inside radius + 1/2 |
| Raster.OctantsNearDisc | src/canvas.rs:476-483 | the eight mirror images of an offset inside the circle are all near the disc |
| Raster.SpanPointNearDisc | src/canvas.rs:496-528 | every point of a filled span lies within the radius on both axes and inside radius + 1/2 |
| Raster.RowNearDisc | src/canvas.rs:521-528 | every point of one span of an in-bound `line4points` argument is near the disc |
| Raster.SpanPairNearDisc | src/canvas.rs:496-528 | every point of the spans of one `line4points` call whose argument is inside the loop's bounds is near the disc |
| Raster.FilledNearDisc | src/canvas.rs:496-513 | when every argument satisfies the filled loop's bounds, every point of all the spans, in order, is near the disc |
| CanvasModel.Toggled | src/canvas.rs:412-425 | `paint_on_mask` swaps the two slots, negates `mask_flag`, sets `mask_enabled` to the old flag, and keeps both the picture and the mask contents |
| CanvasModel.ToggledTwice | src/canvas.rs:412-425 | toggling twice restores image, mask and flag |
| CanvasModel.MaskCleared | src/canvas.rs:427-433 | `clear_mask` resets whichever slot holds the mask to `rgba(255,0,0,50)` and leaves the picture and the flags alone |
| CanvasModel.CountLess | src/canvas.rs:743-757 | a fill write on a pixel of the old colour that leaves another colour lowers the count of old-colour pixels: the measure of the fill's recursion |
| CanvasModel.RowMajorInRange | src/canvas.rs:461-465 | each row of the row-major store lies inside the store |
| CanvasModel.RowMajorDistinct | src/canvas.rs:461-465 | distinct in-range pixels have distinct store indices |
| CanvasModel.Rows | src/canvas.rs:461-465 | the store of a width × height image read as `height` rows of `width` colours |
| CanvasModel.RowsCell | src/canvas.rs:461-465 | store index `width*y + x`, the one `pixcol` reads, is in the store and holds column x of row y |
| CanvasModel.SetAll | src/canvas.rs:113-120 | orbimage's `set`, used by `clear` and `clear_mask`: every pixel of the slot becomes the given colour |
| CanvasModel.Canvas.FromImage | src/canvas.rs:47-61 | a new canvas holds the image, a mask of `rgba(255,0,0,50)`, an undo stack of one blank image of the same size, and both flags false |
| CanvasModel.Canvas.Index | src/canvas.rs:461-465 | `pixcol`'s index `width*y + x` lies inside the store for an in-range pixel |
| CanvasModel.Canvas.Pixcol | src/canvas.rs:461-465 | the colour read at (x, y) is column x of row y of the picture the row-major store encodes |
| CanvasModel.Canvas.PixcolDistinct | src/canvas.rs:461-465 | distinct in-range pixels are read from distinct cells |
| CanvasModel.Canvas.HandedGates | src/canvas.rs:448-458 | with the mask enabled, the colour handed to the surface keeps r, g, b and has alpha `mask.r & a`; disabled, it is the colour itself |
| CanvasModel.Canvas.PaintedAllUntouched | src/canvas.rs:448-458 | drawing a sequence of points leaves every pixel none of them lands on unchanged |
| CanvasModel.Canvas.PaintedOpaque | src/canvas.rs:448-458 | if the surface's write replaces outright at alpha 255 and the mask does not gate, an opaque `pixel` stores exactly its colour |
| CanvasModel.Canvas.PaintedReadBack | src/canvas.rs:448-465 | after `pixel(x, y)`, reading (x, y) back gives the surface's write of the handed colour over the old pixel, and reading any other pixel gives its old colour |
| CanvasModel.Canvas.Pixel | src/canvas.rs:448-458 | only pixel (x, y) of the image is written, with the surface's write of the gated colour over the old pixel; a point off the surface writes nothing; the mask is untouched |
| CanvasModel.Canvas.Line | src/canvas.rs:588-611 | the image is the old image with the line's points plotted in order, and those points satisfy the line properties above: endpoints, adjacent steps, bounding box, and between max(dx, dy) + 1 and dx + dy + 1 points |
| CanvasModel.Canvas.Line4Points | src/canvas.rs:521-528 | the span from x0 − x to x0 + x on row y0 + y is plotted, then its mirror on row y0 − y unless y is 0 |
| CanvasModel.Canvas.SpanPairPainted | src/canvas.rs:521-528 | plotting the upper row and then, unless y is 0, the lower row leaves the store as plotting the span pair in order |
| CanvasModel.Canvas.Circle | src/canvas.rs:468-519 | radius 0 plots only the centre; any other radius plots only points within the radius on both axes and inside radius + 1/2; a positive radius plots the 8-fold symmetric outline of offsets one row apart, ending next to the diagonal; a negative radius plots, in order, the spans of `line4points` arguments that start at (−radius, 0), stay in the loop's bounds and end next to the diagonal |
| CanvasModel.Canvas.CircleOutline | src/canvas.rs:474-494 | the outline branch plots the 8-fold images of offsets that start at (radius, 0), go one row per pass, never grow or drop by more than 1 in x, stay inside the loop's bound and end next to the diagonal; all points are near the disc |
| CanvasModel.Canvas.CircleFilled | src/canvas.rs:496-513 | the filled branch plots exactly the spans of its `line4points` arguments in order; the arguments start at (r, 0), stay within 0..r, satisfy x² + y² < r² + r and end next to the diagonal; all points are near the disc |
| CanvasModel.Canvas.PlotSpans | src/canvas.rs:496-513 | the filled loop's calls of `line4points` plot the spans of the arguments, one call after the other |
| CanvasModel.Canvas.UndoSave | src/canvas.rs:359-366 | the stack becomes `Pushed(old stack, image, depth)`; the image is untouched |
| CanvasModel.Canvas.Undo | src/canvas.rs:369-377 | image and stack become `Undone(old stack, old image)` |
| CanvasModel.Canvas.Clear | src/canvas.rs:113-120 | the old image is saved for undo and then every pixel becomes opaque white |
| CanvasModel.Canvas.Fill | src/canvas.rs:380-384 | the old image is saved for undo before the surface's own fill runs |
| CanvasModel.Canvas.InteractCircle | src/canvas.rs:406-410 | the old image is saved for undo before the surface's interactive circle runs |
| CanvasModel.Canvas.PasteSelection | src/canvas.rs:387-391 | the old image is saved for undo before the surface's own paste runs |
| CanvasModel.Canvas.EnableMask | src/canvas.rs:435-437 | `mask_enabled` becomes the given status |
| CanvasModel.Canvas.PaintOnMask | src/canvas.rs:412-425 | the image, mask and flags become `Toggled` of the old ones; the undo stack is untouched |
| CanvasModel.Canvas.ClearMask | src/canvas.rs:427-433 | the image, mask and flags become `MaskCleared` of the old ones |
| CanvasModel.Canvas.FillChangesKept | src/canvas.rs:731-793 | fill writes create no old-colour pixels, so the fill's progress condition on the old-colour pixels still holds after them |
| CanvasModel.Canvas.RunRight | src/canvas.rs:745-748 | the end of the maximal run of a colour from column x rightwards on a row |
| CanvasModel.Canvas.RunLeft | src/canvas.rs:755-758 | the start of the maximal run of a colour ending just left of column x |
| CanvasModel.Canvas.FillMask | src/canvas.rs:725-729 | the fill starts from the colour found at the seed; every write lands on a pixel of that colour; the seed changes colour unless it already had the fill colour |
| CanvasModel.Canvas.FloodFillScanline | src/canvas.rs:731-793 | with equal colours or a seed not of the old colour nothing is written; otherwise the maximal old-colour run through the seed is filled, and every write anywhere is a fill write on a pixel that had the old colour |
| CanvasModel.Canvas.FillSeedRun | src/canvas.rs:743-758 | exactly the maximal old-colour run through the seed is written, `res_color` is the colour the seed received, and the count of old-colour pixels drops |
| CanvasModel.Canvas.FillRight | src/canvas.rs:743-748 | the rightward loop writes fill colours on exactly the old-colour run from the seed and leaves every other pixel alone |
| CanvasModel.Canvas.FillLeft | src/canvas.rs:753-758 | the leftward loop writes fill colours on exactly the old-colour run left of the seed and leaves every other pixel alone |
| CanvasModel.Canvas.SeedRows | src/canvas.rs:760-792 | the four seeding loops only make fill writes on old-colour pixels |
| CanvasModel.Canvas.SeedNeighbours | src/canvas.rs:763-768 | a seeding loop recurses only into rows inside the surface, and only makes fill writes on old-colour pixels |

## Left out

- GUI plumbing (the `Widget`, `Click` and `Place` impls, drawing, events and callbacks) is orbtk event-loop code and is not modelled.
- File I/O: `from_path` and the `image::save_buffer` call with its debug printing are I/O. Only the byte reorder of `save` is modelled.
- The image-crate filters and transforms (`transformation`, `trans_selection`, `trans_image` and the dispatch in `trans_from_slice`) are foreign calls. Only the import loop is modelled.
- Floating-point code (`wu_circle`, `wu_line`, `polygon`, `gray2rgba`) is not modelled.
- The bodies of orbimage's `fill` and `paste_selection` are not part of this model. The same holds for orbimage's interactive circle, which reads the window's events. `Canvas.Fill`, `Canvas.PasteSelection` and `Canvas.InteractCircle` take them as function parameters and state only that the undo save precedes them. `interact_paste`, `smooth_circle`, `rect`, `paste_buffer` and `copy_selection` only delegate to such unseen bodies or to the window, so they are left out.
- The unsafe reinterpretation of the colour slice as bytes is not modelled. Its result is stated as `Swizzle.LayoutBytes` (b, g, r, a per pixel, the little-endian bytes of the packed word).
- `RefCell`, `Cell` and `Arc` interior mutability is modelled as ordinary fields of one class. Nothing is concurrent.
- orbclient's alpha-blending `Image::pixel` is the canvas parameter `write`. The model assumes it writes only the addressed in-range pixel and drops out-of-range writes.
- `UNDODEPTH` is defined outside `src/canvas.rs`, so it is the canvas parameter `depth` with `depth >= 1`. `Image::new` is taken to produce all-zero pixels (`Colors.Blank`).
- Coordinates, radii and the error terms are unbounded integers. The model does not capture `i32` overflow, including `radius.abs()` of `i32::MIN`.
- CanvasModel.Canvas.Pixel: the model does not read the mask for a point off the surface. The source reads the mask at the unchecked index `width*y + x` first, which may panic or read another pixel's red; the write that follows is dropped either way.
- CanvasModel.Canvas.FillMask: requires an in-range seed. The source's unchecked `pixcol` would panic or read a pixel of another row.
- CanvasModel.Canvas.FillMask: requires the same progress condition as `FloodFillScanline` below, for the colour found at the seed.
- CanvasModel.Canvas.FloodFillScanline: requires, when the colours differ, that on every pixel currently holding the old colour the surface's write of the gated fill colour leaves another colour. The condition covers every such pixel of the surface, not only those the fill reaches. Where it fails on reached pixels the source may recurse without end: two vertically adjacent old-colour pixels that both stay old seed each other. An example is a mask whose red channel is 0 under the region, if the blend then leaves the pixel unchanged. Runs where such pixels are never reached, or are never vertically adjacent, terminate in the source but are outside the model.
- CanvasModel.Canvas.FloodFillScanline: the source recurses once per seeded run on the thread's stack, so a large region can overflow the stack. The model's recursion depth is unbounded.
- CanvasModel.Canvas.FloodFillScanline: the postcondition states soundness (only old-colour pixels receive fill writes) and that the seed's run is filled. It does not state that the whole 4-connected region is filled; the order of the seeding loops is modelled but not specified further.
- Swizzle.SaveReorder and Swizzle.ImportColors require at least 4 bytes. On an empty buffer the source's `len() - 4` underflows and panics.
- Canvas.Line, Canvas.Line4Points and Canvas.Circle return the plotted points as ghost values. The rasterisers compute all points first and then plot them in the same order. This is equivalent because the loop arithmetic does not read the image.
