/** One frame of the donut: allocate the buffers, write the sweep's samples
    behind the depth test, serialise the rows and join them with line breaks. */
module Frame {
  import opened Palette
  import opened DepthBuffer
  import opened RowSerialiser

  /** The rows joined with one line break between consecutive rows. */
  function Join(rows: seq<seq<Piece>>): seq<Piece>
    decreases |rows|
  {
    if |rows| == 0 then []
    else if |rows| == 1 then rows[0]
    else rows[0] + [Newline] + Join(rows[1..])
  }

  /** A frame cut at its line breaks, as a terminal shows it. */
  function Lines(p: seq<Piece>): (ls: seq<seq<Piece>>)
    ensures |ls| >= 1
  {
    if p == [] then [[]]
    else if p[0] == Newline then [[]] + Lines(p[1..])
    else
      var ls := Lines(p[1..]);
      [[p[0]] + ls[0]] + ls[1..]
  }

  /** The text of a frame: every token and glyph written out, "\n" between rows. */
  function Text(p: seq<Piece>): string {
    if p == [] then ""
    else
      (match p[0]
       case Color(c) => c
       case Glyph(g) => g
       case Newline => "\n") + Text(p[1..])
  }

  function CountLineBreaks(s: string): nat {
    if s == "" then 0 else (if s[0] == '\n' then 1 else 0) + CountLineBreaks(s[1..])
  }

  /** Every piece of a frame is a line break, a palette colour or the reset
      token, or a palette glyph or the blank. */
  ghost predicate PaletteOnly(p: seq<Piece>) {
    forall k :: 0 <= k < |p| ==>
      match p[k]
      case Color(c) => IsToken(c)
      case Glyph(g) => IsGlyph(g)
      case Newline => true
  }

  /** Cutting `a + b` at line breaks, when `a` has none, puts `a` in front of
      the first line of `b`. */
  lemma {:induction false} LinesAppend(a: seq<Piece>, b: seq<Piece>)
    requires Newline !in a
    ensures Lines(a + b) == [a + Lines(b)[0]] + Lines(b)[1..]
    decreases |a|
  {
    if a == [] {
      assert a + b == b;
      assert a + Lines(b)[0] == Lines(b)[0];
      assert Lines(b) == [Lines(b)[0]] + Lines(b)[1..];
    } else {
      assert (a + b)[0] == a[0] && a[0] != Newline;
      assert (a + b)[1..] == a[1..] + b;
      assert Newline !in a[1..];
      LinesAppend(a[1..], b);
      assert [a[0]] + (a[1..] + Lines(b)[0]) == a + Lines(b)[0];
    }
  }

  /** Cutting joined rows at their line breaks gives the rows back: a frame
      of `height` rows shows exactly `height` lines. */
  lemma {:induction false} LinesOfJoin(rows: seq<seq<Piece>>)
    requires |rows| > 0
    requires forall r :: 0 <= r < |rows| ==> Newline !in rows[r]
    ensures Lines(Join(rows)) == rows
    decreases |rows|
  {
    if |rows| == 1 {
      LinesAppend(rows[0], []);
      assert rows[0] + [] == rows[0];
      assert rows == [rows[0]];
    } else {
      var rest := rows[1..];
      LinesOfJoin(rest);
      var tail := [Newline] + Join(rest);
      assert Join(rows) == rows[0] + tail;
      LinesAppend(rows[0], tail);
      assert tail[0] == Newline && tail[1..] == Join(rest);
      assert Lines(tail) == [[]] + rest;
      assert rows[0] + [] == rows[0];
      assert rows == [rows[0]] + rest;
    }
  }

  lemma {:induction false} TextAppend(a: seq<Piece>, b: seq<Piece>)
    ensures Text(a + b) == Text(a) + Text(b)
    decreases |a|
  {
    if a == [] {
      assert a + b == b;
    } else {
      assert (a + b)[0] == a[0];
      assert (a + b)[1..] == a[1..] + b;
      TextAppend(a[1..], b);
    }
  }

  lemma {:induction false} CountAppend(s: string, t: string)
    ensures CountLineBreaks(s + t) == CountLineBreaks(s) + CountLineBreaks(t)
    decreases |s|
  {
    if s == "" {
      assert s + t == t;
    } else {
      assert (s + t)[0] == s[0];
      assert (s + t)[1..] == s[1..] + t;
      CountAppend(s[1..], t);
    }
  }

  /** A row's text holds no line break when none of its tokens or glyphs does. */
  lemma {:induction false} RowTextUnbroken(p: seq<Piece>)
    requires PaletteOnly(p) && Newline !in p
    ensures CountLineBreaks(Text(p)) == 0
    decreases |p|
  {
    if p != [] {
      var head := match p[0] case Color(c) => c case Glyph(g) => g case Newline => "\n";
      assert PaletteOnly(p[1..]) by {
        forall k | 0 <= k < |p[1..]| ensures
          match p[1..][k] case Color(c) => IsToken(c) case Glyph(g) => IsGlyph(g) case Newline => true
        {
          assert p[1..][k] == p[k + 1];
        }
      }
      RowTextUnbroken(p[1..]);
      TextAppend([p[0]], p[1..]);
      assert [p[0]] + p[1..] == p;
      assert CountLineBreaks(head) == 0 by {
        match p[0] {
          case Color(c) => TokenUnbroken(c);
          case Glyph(g) => GlyphUnbroken(g);
        }
      }
      CountAppend(head, Text(p[1..]));
    }
  }

  lemma {:induction false} NoBreakCount(s: string)
    requires '\n' !in s
    ensures CountLineBreaks(s) == 0
    decreases |s|
  {
    if s != "" {
      assert s[0] in s;
      assert forall c :: c in s[1..] ==> c in s;
      NoBreakCount(s[1..]);
    }
  }

  /** No palette token or glyph contains a line break. */
  lemma PaletteUnbroken(k: int)
    requires 0 <= k < |Table|
    ensures '\n' !in Table[k].color && '\n' !in Table[k].glyph
  {
  }

  lemma TokenUnbroken(c: string)
    requires IsToken(c)
    ensures CountLineBreaks(c) == 0
  {
    if c != Reset {
      var k :| 0 <= k < |Table| && Table[k].color == c;
      PaletteUnbroken(k);
    }
    NoBreakCount(c);
  }

  lemma GlyphUnbroken(g: string)
    requires IsGlyph(g)
    ensures CountLineBreaks(g) == 0
  {
    if g != Blank {
      var k :| 0 <= k < |Table| && Table[k].glyph == g;
      PaletteUnbroken(k);
    }
    NoBreakCount(g);
  }

  /** The text of `height` joined rows holds exactly `height - 1` line breaks
      when no row contains one. */
  lemma {:induction false} TextLineBreaks(rows: seq<seq<Piece>>)
    requires |rows| > 0
    requires forall r :: 0 <= r < |rows| ==> Newline !in rows[r] && PaletteOnly(rows[r])
    ensures CountLineBreaks(Text(Join(rows))) == |rows| - 1
    decreases |rows|
  {
    RowTextUnbroken(rows[0]);
    if |rows| > 1 {
      TextLineBreaks(rows[1..]);
      TextAppend(rows[0] + [Newline], Join(rows[1..]));
      TextAppend(rows[0], [Newline]);
      CountAppend(Text(rows[0]) + Text([Newline]), Text(Join(rows[1..])));
      CountAppend(Text(rows[0]), Text([Newline]));
    }
  }

  /** A cell of a consistent raster holds an allowed token and glyph. */
  lemma CellFromPalette(b: Buffers, j: int)
    requires Consistent(b) && 0 <= j < |b.depth|
    ensures IsToken(b.color[j]) && IsGlyph(b.glyph[j])
  {
    var e := Entry(b.color[j], b.glyph[j]);
    if e in Table {
      var t :| 0 <= t < |Table| && Table[t] == e;
    }
  }

  /** A row drawn from cells of allowed tokens and glyphs uses only those. */
  lemma DrawnFromPalette(row: seq<Piece>, cs: seq<string>, gs: seq<string>)
    requires DrawnFrom(row, cs, gs)
    requires forall i :: 0 <= i < |cs| ==> IsToken(cs[i])
    requires forall i :: 0 <= i < |gs| ==> IsGlyph(gs[i])
    ensures PaletteOnly(row) && Newline !in row
  {
    forall k | 0 <= k < |row|
      ensures match row[k] case Color(c) => IsToken(c) case Glyph(g) => IsGlyph(g) case Newline => false
    {
      match row[k] {
        case Color(c) =>
          if c != Reset {
            var i :| 0 <= i < |cs| && cs[i] == c;
          }
        case Glyph(g) =>
          var i :| 0 <= i < |gs| && gs[i] == g;
      }
    }
  }

  /** The rows of a raster whose cells are all drawn from the palette use only
      palette tokens and glyphs. */
  lemma RowsPaletteOnly(b: Buffers, width: nat, height: nat, r: nat)
    requires width > 0 && Sized(b, width, height) && Consistent(b) && r < height
    ensures PaletteOnly(Rows(b.color, b.glyph, width, height)[r])
    ensures Newline !in Rows(b.color, b.glyph, width, height)[r]
  {
    var cs, gs := RasterLine(b.color, width, height, r), RasterLine(b.glyph, width, height, r);
    RowClosure(cs, gs, Reset);
    forall i | 0 <= i < |cs| ensures IsToken(cs[i]) && IsGlyph(gs[i]) {
      RasterLineAt(b.color, width, height, r, i);
      RasterLineAt(b.glyph, width, height, r, i);
      CellFromPalette(b, r * width + i);
    }
    DrawnFromPalette(RowPieces(cs, gs, Reset), cs, gs);
  }

  /** Removing the tokens from row r leaves the glyphs of raster line r. */
  lemma RowGlyphs(b: Buffers, width: nat, height: nat, r: nat)
    requires width > 0 && Sized(b, width, height) && r < height
    ensures Strip(Rows(b.color, b.glyph, width, height)[r]) == RasterLine(b.glyph, width, height, r)
  {
    StripRow(RasterLine(b.color, width, height, r), RasterLine(b.glyph, width, height, r), Reset);
  }

  /** The shape of a serialised frame: `height` lines, each the row of its
      raster line with exactly its `width` glyphs, and `height - 1` line
      breaks in its text. */
  lemma FrameShape(b: Buffers, width: nat, height: nat)
    requires width > 0 && height > 0 && Sized(b, width, height) && Consistent(b)
    ensures var rows := Rows(b.color, b.glyph, width, height);
      Lines(Join(rows)) == rows &&
      (forall r :: 0 <= r < height ==>
         Strip(rows[r]) == RasterLine(b.glyph, width, height, r) &&
         |Strip(rows[r])| == width) &&
      CountLineBreaks(Text(Join(rows))) == height - 1
  {
    var rows := Rows(b.color, b.glyph, width, height);
    forall r | 0 <= r < height
      ensures Newline !in rows[r] && PaletteOnly(rows[r])
      ensures Strip(rows[r]) == RasterLine(b.glyph, width, height, r)
      ensures |Strip(rows[r])| == width
    {
      RowsPaletteOnly(b, width, height, r);
      RowGlyphs(b, width, height, r);
    }
    LinesOfJoin(rows);
    TextLineBreaks(rows);
  }

  /** Every piece of the frame of a raster drawn from the palette is a
      palette token, a palette glyph, the reset token, the blank or a line break. */
  lemma {:induction false} JoinPaletteOnly(rows: seq<seq<Piece>>)
    requires forall r :: 0 <= r < |rows| ==> PaletteOnly(rows[r])
    ensures PaletteOnly(Join(rows))
    decreases |rows|
  {
    if |rows| > 1 {
      JoinPaletteOnly(rows[1..]);
      var a, b := rows[0] + [Newline], Join(rows[1..]);
      forall k | 0 <= k < |a + b|
        ensures match (a + b)[k] case Color(c) => IsToken(c) case Glyph(g) => IsGlyph(g) case Newline => true
      {
        if k < |rows[0]| {
          assert (a + b)[k] == rows[0][k];
        } else if k > |rows[0]| {
          assert (a + b)[k] == b[k - |a|];
        }
      }
    }
  }

  /** The frame of a sweep: the rows of the raster the samples leave behind,
      joined by line breaks. */
  function FrameOf(width: nat, height: nat, samples: seq<Sample>): seq<Piece>
  {
    var b := ApplyAll(Empty(width * height), width, height, samples);
    Join(Rows(b.color, b.glyph, width, height))
  }

  /** The frame of any sweep has `height` lines of exactly `width` glyphs
      each and uses only palette tokens and glyphs; with no rows it is empty. */
  lemma FrameOfShape(width: nat, height: nat, samples: seq<Sample>)
    requires width > 0
    ensures var frame := FrameOf(width, height, samples);
      (height > 0 ==>
        |Lines(frame)| == height && forall r :: 0 <= r < height ==> |Strip(Lines(frame)[r])| == width) &&
      (height > 0 ==> CountLineBreaks(Text(frame)) == height - 1) &&
      (height == 0 ==> frame == []) &&
      PaletteOnly(frame)
  {
    var b := ApplyAll(Empty(width * height), width, height, samples);
    var rows := Rows(b.color, b.glyph, width, height);
    forall r | 0 <= r < height ensures PaletteOnly(rows[r]) {
      RowsPaletteOnly(b, width, height, r);
    }
    JoinPaletteOnly(rows);
    if height > 0 {
      FrameShape(b, width, height);
      assert Lines(Join(rows)) == rows;
      forall r | 0 <= r < height ensures |Strip(Lines(Join(rows))[r])| == width {
        assert Lines(Join(rows))[r] == rows[r];
      }
    }
  }

  /** Renders one frame from the samples of the sweep. */
  method RenderFrame(width: nat, height: nat, samples: seq<Sample>) returns (frame: seq<Piece>)
    requires width > 0
    ensures frame == FrameOf(width, height, samples)
    ensures height > 0 ==>
      |Lines(frame)| == height && forall r :: 0 <= r < height ==> |Strip(Lines(frame)[r])| == width
    ensures height > 0 ==> CountLineBreaks(Text(frame)) == height - 1
    ensures height == 0 ==> frame == []
    ensures PaletteOnly(frame)
  {
    var depth, color, glyph := NewBuffers(width, height);
    Sweep(depth, color, glyph, width, height, samples);
    var rows := SerialiseRows(color, glyph, width, height);
    frame := Join(rows);
    FrameOfShape(width, height, samples);
  }
}
