# Spinning donut: depth buffer and row serialiser

A Dafny model of the discrete core of `render_frame` in `Donut.py`, the
terminal program that draws a rotating torus in coloured ASCII. Each frame
has three parallel buffers (depth, colour token, glyph), with one entry per
cell of a `width` × `height` raster. The trigonometric sweep produces
projected samples. A sample is written only where it lands inside the raster
and is strictly nearer than what the cell holds. The buffers are then
serialised row by row. A colour token is emitted only where the colour
changes, and a closing reset token is added to a row that ends in a colour.

- `Palette.dfy`: the fixed table of twelve (colour token, glyph) entries,
  the reset token and the blank, and the clamp of the luminance bucket.
  Tokens and glyphs are opaque strings, so entry 0's two-character glyph
  `Â·` still counts as one glyph.
- `DepthBuffer.dfy`: the buffers as a value (`Buffers`), the depth-tested
  write (`Write`) and a whole sweep (`ApplyAll`) as specification functions,
  and the in-place methods over three arrays (`NewBuffers`, `Plot`, `Sweep`)
  proved against them. The lemmas give the per-cell outcome of a sweep: the
  first sample of greatest inverse depth wins. They also prove that the
  depth is a maximum, that writes commute, that row-major addressing is a
  bijection between in-bounds cells and buffer indices, and that a cell is
  drawn exactly when its colour is not reset.
- `RowSerialiser.dfy`: the pieces a row or frame is made of (colour token,
  glyph, line break), the row of a raster line (`RowPieces`) and the
  methods `SerialiseRow` and `SerialiseRows` that build it with a
  `last_color` cursor, proved against it. The lemmas say what a row means.
  Stripping its tokens gives the glyphs. A terminal drawing it shows each
  cell in its own colour and ends in reset. A token sits before exactly the
  cells whose colour changes. Consecutive tokens differ. The trailing reset
  appears exactly when the row ends in a colour.
- `Frame.dfy`: rows joined by line breaks, cut back into lines, and written
  out as text. `RenderFrame` runs the whole frame: it has `height` lines of
  `width` glyphs each, uses only palette tokens and glyphs, and its text
  holds `height - 1` line breaks.

The samples of the sweep are a parameter, `seq<Sample>`. Each sample is the
cell `(xp, yp)` it was projected to, its inverse depth `ooz` as a `real`, and
its luminance bucket before clamping. The model follows the code in these
details:

- The code does not validate dimensions. `range(0, width*height, width)`
  raises when `width == 0`, so `width > 0` is a precondition. `height == 0`
  gives an empty frame, and the model allows it.
- The depth test is strict, so on a tie on one cell the earlier sample stays
  and the result depends on sweep order. `WritesCommute` excludes exactly
  that case, and `CellOutcome` states that ties keep the first sample.
- Entry 0's glyph is the two characters `Â·`.
- The empty depth is `0.0`, so a sample whose `ooz <= 0.0` is never drawn.

## Model

| member | source | states |
|---|---|---|
| Palette.Clamp | Donut.py:64 | the palette index is always in `[0, 11]`; a bucket inside the table is kept, a negative one becomes 0, one past the end becomes 11 |
| Palette.Shade | Donut.py:64-69 | the entry a sample draws with is a palette entry, so its colour is an allowed token and its glyph an allowed glyph |
| Palette.PaletteDistinctFromEmpty | Donut.py:13-26 | no palette colour is the reset token and no palette glyph is the blank, so a drawn cell differs from an empty one |
| DepthBuffer.Empty | Donut.py:40-42 | a fresh raster has `width*height` cells, each with depth 0.0, the reset colour and the blank glyph, and is consistent |
| DepthBuffer.NewBuffers | Donut.py:40-42 | allocates three distinct fresh arrays whose contents are the fresh raster |
| DepthBuffer.CellIndex | Donut.py:66-67 | an in-bounds cell `(x, y)` has index `x + y*width` inside the buffers, and `%` and `/` by width give `x` and `y` back |
| DepthBuffer.HitsCell | Donut.py:66-67 | every index `j` below `width*height` is the in-bounds cell at column `j % width` and row `j / width`, and a sample lands on `j` exactly when it is in bounds at that column and row |
| DepthBuffer.DrawnIffPainted | Donut.py:13-26 | in a consistent raster a cell holds a positive depth exactly when its colour is not reset, and exactly when its glyph is not the blank |
| DepthBuffer.Write | Donut.py:66-69 | one depth-tested write keeps the buffer sizes, never lowers a stored depth, and keeps every cell either empty or holding a positive depth with one palette entry's colour and glyph |
| DepthBuffer.WriteAt | Donut.py:66-69 | cell `j` takes the sample's depth, colour and glyph together exactly when the sample lands on `j` and its `ooz` is strictly greater; otherwise all three stay |
| DepthBuffer.WriteCell | Donut.py:66-69 | the same effect stated by column and row: only the cell at `(xp, yp)` changes, only in bounds and only when strictly nearer |
| DepthBuffer.OutOfBoundsIgnored | Donut.py:66-67 | a sample outside the raster leaves all three buffers unchanged, with no error |
| DepthBuffer.ApplyAll | Donut.py:44-69 | a sweep keeps the buffer sizes, never lowers a stored depth, and keeps the raster consistent |
| DepthBuffer.CellOutcome | Donut.py:67-69 | after any sweep each cell is either untouched, because no sample on it beat its depth, or holds the sample of greatest `ooz` on it, the earliest one on a tie |
| DepthBuffer.DepthIsMaximum | Donut.py:67-68 | after a frame's sweep a cell's depth is at least 0.0, at least every `ooz` landing on it, and equal to 0.0 or one of them |
| DepthBuffer.WritesCommute | Donut.py:67-69 | two writes give the same raster in either order unless they land on one cell with equal `ooz` |
| DepthBuffer.Plot | Donut.py:66-69 | the in-place array write leaves the buffers equal to `Write` of their old value |
| DepthBuffer.Sweep | Donut.py:44-69 | writing the samples one by one leaves the buffers equal to `ApplyAll` of their old value |
| RowSerialiser.RowPieces | Donut.py:73-83 | defines the row of one raster line from its colours and glyphs with the `last_color` cursor; its meaning is given by `StripRow`, `PaintRow`, `SwitchesRow`, `TokensAlternate` and `TrailingReset`, and `SerialiseRow` is proved equal to it |
| RowSerialiser.RowClosure | Donut.py:74-82 | a row contains no line break; its tokens are the reset token or colours of its cells, and its glyphs are glyphs of its cells |
| RowSerialiser.StripRow | Donut.py:75-80 | removing the colour tokens from a row leaves exactly the cells' glyphs, in order |
| RowSerialiser.PaintRow | Donut.py:74-83 | a terminal drawing the row shows every glyph in its own cell's colour, and the reset colour is active after the row |
| RowSerialiser.SwitchesRow | Donut.py:74-79 | a colour token comes right before cell `i` exactly when its colour differs from the previous cell's, or from reset for the first cell |
| RowSerialiser.TokensAlternate | Donut.py:74-79 | consecutive colour tokens in a row differ, and the first differs from reset |
| RowSerialiser.TrailingReset | Donut.py:81-82 | a row ends in a reset token exactly when its last cell's colour is not reset |
| RowSerialiser.ResetRowHasNoTokens | Donut.py:74-80 | a row of reset-coloured cells is its glyphs alone, with no tokens |
| RowSerialiser.RasterLine | Donut.py:72-75 | raster line `r` of a buffer holds exactly `width` cells |
| RowSerialiser.RasterLineAt | Donut.py:72-76 | cell `i` of raster line `r` lies inside the buffer, at index `r*width + i`, as `row_start + i` addresses it |
| RowSerialiser.Rows | Donut.py:72 | there is one row per raster line, `height` in all |
| RowSerialiser.SerialiseRow | Donut.py:73-83 | the loop with the `last_color` cursor builds exactly the row of its cells |
| RowSerialiser.SerialiseRows | Donut.py:71-83 | the outer loop over `row_start` builds the rows of every raster line, in order |
| Frame.Join | Donut.py:84 | defines `"\n".join` on rows of pieces; `LinesOfJoin` shows it can be cut back into the rows, and `JoinPaletteOnly` that it adds only line breaks |
| Frame.Text | Donut.py:83-84 | defines the string that the two joins produce from pieces; `TextLineBreaks` counts its line breaks |
| Frame.PaletteUnbroken | Donut.py:13-26 | no palette colour token or glyph contains a line break, so the only line breaks in a frame are the ones the join adds |
| Frame.LinesOfJoin | Donut.py:84 | cutting rows joined by line breaks gives the rows back |
| Frame.TextLineBreaks | Donut.py:83-84 | the text of `height` joined rows of palette pieces holds exactly `height - 1` line breaks |
| Frame.RowGlyphs | Donut.py:72-80 | removing the tokens from row `r` leaves exactly the glyphs of raster line `r` |
| Frame.RowsPaletteOnly | Donut.py:69-82 | every row of a consistent raster uses only palette colours or reset, and palette glyphs or the blank |
| Frame.JoinPaletteOnly | Donut.py:84 | joining rows of palette pieces adds nothing but line breaks |
| Frame.FrameShape | Donut.py:71-84 | a serialised raster has `height` lines, each carrying the `width` glyphs of its raster line, and `height - 1` line breaks in its text |
| Frame.FrameOf | Donut.py:39-84 | defines the frame `render_frame` returns for a sweep's samples, as a function of its inputs; `FrameOfShape` gives its shape and palette closure, and `RenderFrame` is proved equal to it |
| Frame.FrameOfShape | Donut.py:39-84 | a frame of any sweep has `height` lines of `width` glyphs each and `height - 1` line breaks in its text (or is empty when `height` is 0), and uses only palette pieces |
| Frame.RenderFrame | Donut.py:39-84 | allocating, sweeping and serialising gives the frame of the samples, with its `height` lines of `width` glyphs, its `height - 1` line breaks, and palette closure |

## Left out

- The surface sweep, rotation, projection, normal and luminance arithmetic (`Donut.py:44-63`) are floating-point trigonometry. The model takes the projected samples `(xp, yp, ooz, level)` as input, in sweep order. Truncating `xp`, `yp` and the bucket to integers happens before the model.
- `frange` (`Donut.py:87-91`) is a floating-point accumulator whose iteration count depends on rounding. It only decides how many samples there are.
- `clear_screen`, `terminal_size` and `main` (`Donut.py:29-36`, `Donut.py:93-113`) are terminal I/O, the animation loop, the frame delay and interrupt handling.
- Floating point: `ooz` is a `real`, so infinities and NaN are not modelled.
- A negative `width` is not modelled, because `width` is a `nat`. In the code, `width < 0 < height` does not raise: `range(0, width*height, width)` yields `height` row starts, each inner range is empty, and the frame is `height - 1` bare line breaks (`Donut.py:72-84`).
- A negative `height` is not modelled, because `height` is a `nat`. In the code a negative height behaves like 0.
- Text output: a frame is a sequence of pieces (colour token, glyph, line break), and `Text` writes it out as the string `"".join` and `"\n".join` produce. Glyph counts are stated on pieces, because entry 0's glyph is two characters long.
