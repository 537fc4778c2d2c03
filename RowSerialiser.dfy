/** Serialisation of the colour and glyph buffers into rows: one glyph per
    cell, a colour token only where the colour changes from the last one
    emitted (starting from the reset token), and a closing reset token when a
    row ends in a colour other than reset. */
module RowSerialiser {
  import opened Palette

  /** One element of a serialised row or frame. */
  datatype Piece = Color(token: string) | Glyph(text: string) | Newline

  /** The pieces of one row whose cells have colours `cs` and glyphs `gs`,
      when the colour last emitted is `last`. */
  function RowPieces(cs: seq<string>, gs: seq<string>, last: string): (row: seq<Piece>)
    requires |cs| == |gs|
    decreases |cs|
  {
    if cs == [] then
      if last != Reset then [Color(Reset)] else []
    else
      var rest := RowPieces(cs[1..], gs[1..], cs[0]);
      (if cs[0] != last then [Color(cs[0])] else []) + [Glyph(gs[0])] + rest
  }

  /** The glyphs of a row, colour tokens removed. */
  function Strip(p: seq<Piece>): seq<string> {
    if p == [] then []
    else (if p[0].Glyph? then [p[0].text] else []) + Strip(p[1..])
  }

  /** The colour tokens of a row, in order. */
  function Tokens(p: seq<Piece>): seq<string> {
    if p == [] then []
    else (if p[0].Color? then [p[0].token] else []) + Tokens(p[1..])
  }

  /** What a terminal shows for a row: each glyph with the colour active
      when it is drawn, starting from colour `active`. */
  function Paint(p: seq<Piece>, active: string): seq<Entry> {
    if p == [] then []
    else match p[0]
      case Color(c) => Paint(p[1..], c)
      case Glyph(g) => [Entry(active, g)] + Paint(p[1..], active)
      case Newline => Paint(p[1..], active)
  }

  /** The colour active after a row, starting from colour `active`. */
  function FinalColor(p: seq<Piece>, active: string): string {
    if p == [] then active
    else FinalColor(p[1..], if p[0].Color? then p[0].token else active)
  }

  /** For each glyph of a row, whether a colour token comes right before it;
      `pending` says whether the piece before `p` was a colour token. */
  function Switches(p: seq<Piece>, pending: bool): seq<bool> {
    if p == [] then []
    else match p[0]
      case Color(_) => Switches(p[1..], true)
      case Glyph(_) => [pending] + Switches(p[1..], false)
      case Newline => Switches(p[1..], false)
  }

  /** The cells of a row, colour and glyph side by side. */
  function Cells(cs: seq<string>, gs: seq<string>): (r: seq<Entry>)
    requires |cs| == |gs|
    ensures |r| == |cs|
  {
    seq(|cs|, i requires 0 <= i < |cs| => Entry(cs[i], gs[i]))
  }

  /** The colour of the cell before cell i, or `last` for the first cell. */
  function Before(cs: seq<string>, last: string, i: int): string
    requires 0 <= i < |cs|
  {
    if i == 0 then last else cs[i - 1]
  }

  /** Every piece of `row` is a colour token that is reset or one of `cs`, or
      a glyph that is one of `gs`; no piece is a line break. */
  ghost predicate DrawnFrom(row: seq<Piece>, cs: seq<string>, gs: seq<string>) {
    forall k :: 0 <= k < |row| ==>
      match row[k]
      case Color(c) => c == Reset || c in cs
      case Glyph(g) => g in gs
      case Newline => false
  }

  /** A row holds no line break; its colour tokens are the reset token or
      colours of its cells, and its glyphs are glyphs of its cells. */
  lemma {:induction false} RowClosure(cs: seq<string>, gs: seq<string>, last: string)
    requires |cs| == |gs|
    ensures DrawnFrom(RowPieces(cs, gs, last), cs, gs)
    decreases |cs|
  {
    if cs != [] {
      RowClosure(cs[1..], gs[1..], cs[0]);
      var rest := RowPieces(cs[1..], gs[1..], cs[0]);
      var head := (if cs[0] != last then [Color(cs[0])] else []) + [Glyph(gs[0])];
      var row := head + rest;
      forall k | 0 <= k < |row|
        ensures match row[k]
          case Color(c) => c == Reset || c in cs
          case Glyph(g) => g in gs
          case Newline => false
      {
        if k >= |head| {
          assert row[k] == rest[k - |head|];
          assert forall x :: x in cs[1..] ==> x in cs;
          assert forall x :: x in gs[1..] ==> x in gs;
        } else {
          assert row[k] == head[k];
          assert cs[0] in cs && gs[0] in gs;
        }
      }
      assert DrawnFrom(row, cs, gs);
    }
  }

  /** Removing the colour tokens from a row leaves exactly its glyphs, one
      per cell, in order. */
  lemma {:induction false} StripRow(cs: seq<string>, gs: seq<string>, last: string)
    requires |cs| == |gs|
    ensures Strip(RowPieces(cs, gs, last)) == gs
    decreases |cs|
  {
    if cs != [] {
      var rest := RowPieces(cs[1..], gs[1..], cs[0]);
      StripRow(cs[1..], gs[1..], cs[0]);
      var g := [Glyph(gs[0])] + rest;
      assert g[1..] == rest;
      if cs[0] != last {
        assert ([Color(cs[0])] + g)[1..] == g;
        assert RowPieces(cs, gs, last) == [Color(cs[0])] + g;
      } else {
        assert RowPieces(cs, gs, last) == g;
      }
    } else if last != Reset {
      assert [Color(Reset)][1..] == [];
    }
  }

  /** A terminal drawing a row shows every cell's glyph in that cell's colour,
      and the row leaves the reset colour active. */
  lemma {:induction false} PaintRow(cs: seq<string>, gs: seq<string>, last: string)
    requires |cs| == |gs|
    ensures Paint(RowPieces(cs, gs, last), last) == Cells(cs, gs)
    ensures FinalColor(RowPieces(cs, gs, last), last) == Reset
    decreases |cs|
  {
    if cs != [] {
      var rest := RowPieces(cs[1..], gs[1..], cs[0]);
      PaintRow(cs[1..], gs[1..], cs[0]);
      var g := [Glyph(gs[0])] + rest;
      assert g[1..] == rest;
      assert Paint(g, cs[0]) == [Entry(cs[0], gs[0])] + Cells(cs[1..], gs[1..]);
      assert Cells(cs, gs) == [Entry(cs[0], gs[0])] + Cells(cs[1..], gs[1..]);
      assert FinalColor(g, cs[0]) == Reset;
      if cs[0] != last {
        assert ([Color(cs[0])] + g)[1..] == g;
        assert RowPieces(cs, gs, last) == [Color(cs[0])] + g;
      } else {
        assert RowPieces(cs, gs, last) == g;
      }
    } else if last != Reset {
      assert [Color(Reset)][1..] == [];
    }
  }

  /** A colour token comes right before cell i exactly when that cell's colour
      differs from the colour of the cell before it (the reset token for the
      first cell). */
  lemma {:induction false} SwitchesRow(cs: seq<string>, gs: seq<string>, last: string)
    requires |cs| == |gs|
    ensures var sw := Switches(RowPieces(cs, gs, last), false);
      |sw| == |cs| && forall i :: 0 <= i < |cs| ==> sw[i] == (cs[i] != Before(cs, last, i))
    decreases |cs|
  {
    if cs != [] {
      var rest := RowPieces(cs[1..], gs[1..], cs[0]);
      SwitchesRow(cs[1..], gs[1..], cs[0]);
      var tail := Switches(rest, false);
      var g := [Glyph(gs[0])] + rest;
      assert g[1..] == rest;
      var sw := Switches(RowPieces(cs, gs, last), false);
      if cs[0] != last {
        assert ([Color(cs[0])] + g)[1..] == g;
        assert RowPieces(cs, gs, last) == [Color(cs[0])] + g;
        assert sw == [true] + tail;
      } else {
        assert RowPieces(cs, gs, last) == g;
        assert sw == [false] + tail;
      }
      forall i | 0 < i < |cs| ensures sw[i] == (cs[i] != Before(cs, last, i)) {
        assert sw[i] == tail[i - 1];
        assert Before(cs, last, i) == Before(cs[1..], cs[0], i - 1);
      }
    } else if last != Reset {
      assert [Color(Reset)][1..] == [];
    }
  }

  /** Two colour tokens emitted one after the other in a row always differ,
      and the first differs from the colour emitted before the row. */
  lemma {:induction false} TokensAlternate(cs: seq<string>, gs: seq<string>, last: string)
    requires |cs| == |gs|
    ensures var ts := Tokens(RowPieces(cs, gs, last));
      (|ts| > 0 ==> ts[0] != last) &&
      forall k :: 0 < k < |ts| ==> ts[k] != ts[k - 1]
    decreases |cs|
  {
    if cs != [] {
      var rest := RowPieces(cs[1..], gs[1..], cs[0]);
      TokensAlternate(cs[1..], gs[1..], cs[0]);
      var g := [Glyph(gs[0])] + rest;
      assert g[1..] == rest;
      assert Tokens(g) == Tokens(rest);
      if cs[0] != last {
        assert ([Color(cs[0])] + g)[1..] == g;
        assert RowPieces(cs, gs, last) == [Color(cs[0])] + g;
        assert Tokens(RowPieces(cs, gs, last)) == [cs[0]] + Tokens(rest);
      } else {
        assert RowPieces(cs, gs, last) == g;
      }
    } else if last != Reset {
      assert [Color(Reset)][1..] == [];
    }
  }

  /** A row ends in a reset token exactly when its last cell's colour (or the
      colour emitted before an empty row) is not the reset token. */
  lemma {:induction false} TrailingReset(cs: seq<string>, gs: seq<string>, last: string)
    requires |cs| == |gs|
    ensures var row := RowPieces(cs, gs, last);
      (|row| > 0 && row[|row| - 1] == Color(Reset)) <==>
      (if cs == [] then last else cs[|cs| - 1]) != Reset
    decreases |cs|
  {
    if cs != [] {
      TrailingReset(cs[1..], gs[1..], cs[0]);
    }
  }

  /** A row whose cells all carry the reset colour is its glyphs alone, with
      no colour token at all. */
  lemma {:induction false} ResetRowHasNoTokens(cs: seq<string>, gs: seq<string>)
    requires |cs| == |gs|
    requires forall i :: 0 <= i < |cs| ==> cs[i] == Reset
    ensures RowPieces(cs, gs, Reset) == seq(|gs|, i requires 0 <= i < |gs| => Glyph(gs[i]))
    decreases |cs|
  {
    if cs != [] {
      ResetRowHasNoTokens(cs[1..], gs[1..]);
    }
  }

  lemma RowSlice(r: nat, width: nat, height: nat)
    requires r < height
    ensures r * width + width <= width * height
  {
    assert r * width + width == (r + 1) * width;
    assert (r + 1) * width <= height * width by {
      var d := height - (r + 1);
      assert height * width == (r + 1) * width + d * width;
    }
  }

  /** Raster line r of a row-major buffer: the `width` cells from r*width on,
      the slice `row_start:row_start+width` for the r-th row start. */
  function RasterLine<T>(s: seq<T>, width: nat, height: nat, r: nat): (line: seq<T>)
    requires |s| == width * height && r < height
    ensures |line| == width
  {
    RowSlice(r, width, height);
    s[r * width .. r * width + width]
  }

  /** Cell i of raster line r is cell r*width + i of the buffer. */
  lemma RasterLineAt<T>(s: seq<T>, width: nat, height: nat, r: nat, i: nat)
    requires |s| == width * height && r < height && i < width
    ensures r * width + i < |s|
    ensures RasterLine(s, width, height, r)[i] == s[r * width + i]
  {
    RowSlice(r, width, height);
  }

  /** The rows of a raster whose colour and glyph buffers are `cs` and `gs`,
      one per raster line. */
  function Rows(cs: seq<string>, gs: seq<string>, width: nat, height: nat): (rows: seq<seq<Piece>>)
    requires |cs| == width * height && |gs| == width * height
    ensures |rows| == height
  {
    seq(height, r requires 0 <= r < height =>
      RowPieces(RasterLine(cs, width, height, r), RasterLine(gs, width, height, r), Reset))
  }

  /** One step of the serialiser: the pieces of the first cell, then the
      rest of the row with that cell's colour as the last emitted one. */
  lemma RowStep(cs: seq<string>, gs: seq<string>, last: string, i: nat)
    requires |cs| == |gs| && i < |cs|
    ensures RowPieces(cs[i..], gs[i..], last) ==
      (if cs[i] != last then [Color(cs[i])] else []) + [Glyph(gs[i])] + RowPieces(cs[i + 1..], gs[i + 1..], cs[i])
  {
    assert cs[i..][1..] == cs[i + 1..];
    assert gs[i..][1..] == gs[i + 1..];
  }

  /** The serialiser's loop invariant survives emitting cell i. */
  lemma RowAdvance(cs: seq<string>, gs: seq<string>, last: string, i: nat, acc: seq<Piece>, whole: seq<Piece>)
    requires |cs| == |gs| && i < |cs|
    requires acc + RowPieces(cs[i..], gs[i..], last) == whole
    ensures cs[i] != last ==>
      acc + [Color(cs[i])] + [Glyph(gs[i])] + RowPieces(cs[i + 1..], gs[i + 1..], cs[i]) == whole
    ensures cs[i] == last ==>
      acc + [Glyph(gs[i])] + RowPieces(cs[i + 1..], gs[i + 1..], cs[i]) == whole
  {
    RowStep(cs, gs, last, i);
    var head := (if cs[i] != last then [Color(cs[i])] else []) + [Glyph(gs[i])];
    var rest := RowPieces(cs[i + 1..], gs[i + 1..], cs[i]);
    assert acc + (head + rest) == (acc + head) + rest;
    if cs[i] == last {
      assert acc + head == acc + [Glyph(gs[i])];
    }
  }

  /** Serialises the cells from `rowStart` up to `rowEnd` as one row, tracking
      the colour last emitted. */
  method SerialiseRow(color: array<string>, glyph: array<string>, rowStart: nat, rowEnd: nat)
    returns (rowChars: seq<Piece>)
    requires rowStart <= rowEnd <= color.Length && rowEnd <= glyph.Length
    ensures rowChars == RowPieces(color[rowStart..rowEnd], glyph[rowStart..rowEnd], Reset)
  {
    ghost var cs, gs := color[rowStart..rowEnd], glyph[rowStart..rowEnd];
    ghost var whole := RowPieces(cs, gs, Reset);
    rowChars := [];
    var lastColor := Reset;
    assert cs[0..] == cs && gs[0..] == gs;
    for i := rowStart to rowEnd
      invariant lastColor == if i == rowStart then Reset else cs[i - rowStart - 1]
      invariant rowChars + RowPieces(cs[i - rowStart..], gs[i - rowStart..], lastColor) == whole
    {
      var c := color[i];
      assert c == cs[i - rowStart] && glyph[i] == gs[i - rowStart];
      RowAdvance(cs, gs, lastColor, i - rowStart, rowChars, whole);
      if c != lastColor {
        rowChars := rowChars + [Color(c)];
        lastColor := c;
      }
      rowChars := rowChars + [Glyph(glyph[i])];
    }
    assert cs[rowEnd - rowStart..] == [];
    if lastColor != Reset {
      rowChars := rowChars + [Color(Reset)];
    }
  }

  /** The serialiser's outer invariant survives appending row r. */
  lemma RowsExtend(cs: seq<string>, gs: seq<string>, width: nat, height: nat,
                   rows: seq<seq<Piece>>, row: seq<Piece>)
    requires |cs| == width * height && |gs| == width * height
    requires |rows| < height && rows == Rows(cs, gs, width, height)[..|rows|]
    requires row == RowPieces(RasterLine(cs, width, height, |rows|),
                              RasterLine(gs, width, height, |rows|), Reset)
    ensures rows + [row] == Rows(cs, gs, width, height)[..|rows| + 1]
  {
    var all := Rows(cs, gs, width, height);
    assert all[|rows|] == row;
    assert all[..|rows| + 1] == all[..|rows|] + [all[|rows|]];
  }

  /** Serialises the colour and glyph buffers row by row; row r starts at
      cell r*width, the r-th value of `range(0, width*height, width)`. */
  method SerialiseRows(color: array<string>, glyph: array<string>, width: nat, height: nat)
    returns (rows: seq<seq<Piece>>)
    requires width > 0
    requires color.Length == width * height && glyph.Length == width * height
    ensures rows == Rows(color[..], glyph[..], width, height)
  {
    rows := [];
    for r := 0 to height
      invariant |rows| == r
      invariant rows == Rows(color[..], glyph[..], width, height)[..r]
    {
      var rowStart := r * width;
      RowSlice(r, width, height);
      var rowChars := SerialiseRow(color, glyph, rowStart, rowStart + width);
      assert color[rowStart..rowStart + width] == RasterLine(color[..], width, height, r);
      assert glyph[rowStart..rowStart + width] == RasterLine(glyph[..], width, height, r);
      RowsExtend(color[..], glyph[..], width, height, rows, rowChars);
      rows := rows + [rowChars];
    }
  }
}
