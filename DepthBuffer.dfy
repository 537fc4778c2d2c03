/** The three parallel raster buffers of one frame and the depth-tested write
    that fills them. The trigonometric sweep that produces the samples is not
    modelled: a frame's samples arrive as a sequence, in sweep order. */
module DepthBuffer {
  import opened Palette

  /** One surface sample after projection: the cell it lands on, its inverse
      depth, and its luminance bucket before clamping. */
  datatype Sample = Sample(xp: int, yp: int, ooz: real, level: int)

  /** The value of the three buffers: depth, colour token and glyph per cell. */
  datatype Buffers = Buffers(depth: seq<real>, color: seq<string>, glyph: seq<string>)

  /** All three buffers have one entry per cell of a width-by-height raster. */
  predicate Sized(b: Buffers, width: nat, height: nat) {
    |b.depth| == width * height && |b.color| == width * height && |b.glyph| == width * height
  }

  /** Every cell is either still empty or holds the depth, colour and glyph of
      one write: a positive depth with the colour and glyph of one palette entry. */
  predicate Consistent(b: Buffers) {
    |b.color| == |b.depth| && |b.glyph| == |b.depth| &&
    forall j :: 0 <= j < |b.depth| ==>
      (b.depth[j] == 0.0 && b.color[j] == Reset && b.glyph[j] == Blank) ||
      (b.depth[j] > 0.0 && Entry(b.color[j], b.glyph[j]) in Table)
  }

  /** In a consistent raster a cell has been drawn (positive depth) exactly
      when its colour is not the reset token, and exactly when its glyph is
      not the blank. */
  lemma DrawnIffPainted(b: Buffers, j: int)
    requires Consistent(b) && 0 <= j < |b.depth|
    ensures b.depth[j] > 0.0 <==> b.color[j] != Reset
    ensures b.depth[j] > 0.0 <==> b.glyph[j] != Blank
  {
    if b.depth[j] > 0.0 {
      var e := Entry(b.color[j], b.glyph[j]);
      var k :| 0 <= k < |Table| && Table[k] == e;
      PaletteDistinctFromEmpty(k);
    }
  }

  predicate InBounds(s: Sample, width: nat, height: nat) {
    0 <= s.xp < width && 0 <= s.yp < height
  }

  /** Sample `s` lands on cell `j` of the raster. */
  predicate Hits(s: Sample, width: nat, height: nat, j: int) {
    InBounds(s, width, height) && s.xp + s.yp * width == j
  }

  /** Row-major addressing: cell (x, y) is index x + y*width, inside the
      buffers, and the index gives the cell back. */
  lemma CellIndex(x: int, y: int, width: nat, height: nat)
    requires 0 <= x < width && 0 <= y < height
    ensures 0 <= x + y * width < width * height
    ensures (x + y * width) % width == x && (x + y * width) / width == y
  {
    assert y * width <= (height - 1) * width by {
      MulMonotone(y, height - 1, width);
    }
    assert (height - 1) * width == height * width - width;
    DivModUnique(x + y * width, width, y, x);
  }

  lemma MulMonotone(a: nat, b: nat, c: nat)
    requires a <= b
    ensures a * c <= b * c
  {
    assert b * c == a * c + (b - a) * c;
  }

  lemma DivModUnique(n: int, d: nat, q: int, r: int)
    requires d > 0 && 0 <= r < d && n == q * d + r
    ensures n / d == q && n % d == r
  {
    var q', r' := n / d, n % d;
    assert n == q' * d + r';
    assert (q - q') * d == r' - r;
    if q > q' {
      MulMonotone(1, q - q', d);
    } else if q < q' {
      MulMonotone(1, q' - q, d);
    }
  }

  /** The buffers as allocated for a fresh frame. */
  function Empty(n: nat): (b: Buffers)
    ensures |b.depth| == n && Consistent(b)
    ensures forall j :: 0 <= j < n ==>
      b.depth[j] == 0.0 && b.color[j] == Reset && b.glyph[j] == Blank
  {
    Buffers(seq(n, _ => 0.0), seq(n, _ => Reset), seq(n, _ => Blank))
  }

  /** One depth-tested write: an in-bounds sample nearer than the stored depth
      replaces the cell's depth, colour and glyph; anything else changes nothing. */
  function Write(b: Buffers, width: nat, height: nat, s: Sample): (r: Buffers)
    requires Sized(b, width, height)
    ensures Sized(r, width, height)
    ensures forall j :: 0 <= j < |b.depth| ==> r.depth[j] >= b.depth[j]
    ensures Consistent(b) ==> Consistent(r)
  {
    if InBounds(s, width, height) then
      CellIndex(s.xp, s.yp, width, height);
      var k := s.xp + s.yp * width;
      if s.ooz > b.depth[k] then
        var e := Shade(s.level);
        Buffers(b.depth[k := s.ooz], b.color[k := e.color], b.glyph[k := e.glyph])
      else b
    else b
  }

  /** The buffers after writing the samples in order. */
  function ApplyAll(b: Buffers, width: nat, height: nat, ss: seq<Sample>): (r: Buffers)
    requires Sized(b, width, height)
    ensures Sized(r, width, height)
    ensures forall j :: 0 <= j < |b.depth| ==> r.depth[j] >= b.depth[j]
    ensures Consistent(b) ==> Consistent(r)
    decreases |ss|
  {
    if ss == [] then b
    else Write(ApplyAll(b, width, height, ss[..|ss| - 1]), width, height, ss[|ss| - 1])
  }

  /** One write in terms of the index `k` it addresses, with the bounds
      arithmetic already done. */
  lemma WriteBy(b: Buffers, width: nat, height: nat, s: Sample, k: int)
    requires Sized(b, width, height) && k == s.xp + s.yp * width
    ensures Write(b, width, height, s) ==
      if InBounds(s, width, height) && 0 <= k < |b.depth| && s.ooz > b.depth[k]
      then Buffers(b.depth[k := s.ooz], b.color[k := Shade(s.level).color], b.glyph[k := Shade(s.level).glyph])
      else b
  {
    if InBounds(s, width, height) {
      CellIndex(s.xp, s.yp, width, height);
    }
  }

  /** The effect of one write on cell j: it takes the sample's depth and one
      palette entry together exactly when the sample lands on j and is
      strictly nearer; otherwise it keeps all three values. */
  lemma WriteAt(b: Buffers, width: nat, height: nat, s: Sample, j: int)
    requires Sized(b, width, height) && 0 <= j < width * height
    ensures var r := Write(b, width, height, s);
      if Hits(s, width, height, j) && s.ooz > b.depth[j]
      then r.depth[j] == s.ooz && r.color[j] == Shade(s.level).color && r.glyph[j] == Shade(s.level).glyph
      else r.depth[j] == b.depth[j] && r.color[j] == b.color[j] && r.glyph[j] == b.glyph[j]
  {
    WriteBy(b, width, height, s, s.xp + s.yp * width);
    if InBounds(s, width, height) {
      CellIndex(s.xp, s.yp, width, height);
    }
  }

  /** Cell j is the one at column j % width of row j / width: a sample lands
      on j exactly when it is in bounds at that column and row. */
  lemma HitsCell(s: Sample, width: nat, height: nat, j: int)
    requires width > 0 && 0 <= j < width * height
    ensures 0 <= j % width < width && j / width < height
    ensures Hits(s, width, height, j) <==>
      (InBounds(s, width, height) && s.xp == j % width && s.yp == j / width)
  {
    var x, y := j % width, j / width;
    assert j == x + y * width;
    if y >= height {
      MulMonotone(height, y, width);
    }
    if InBounds(s, width, height) && s.xp + s.yp * width == j {
      DivModUnique(j, width, s.yp, s.xp);
    }
  }

  /** A write touches exactly the cell at the sample's column and row, and
      only when the sample is in bounds and strictly nearer; there all three
      buffers take the sample's depth and one palette entry together. */
  lemma WriteCell(b: Buffers, width: nat, height: nat, s: Sample, j: int)
    requires width > 0 && Sized(b, width, height) && 0 <= j < width * height
    ensures var r := Write(b, width, height, s);
      if InBounds(s, width, height) && s.xp == j % width && s.yp == j / width && s.ooz > b.depth[j]
      then r.depth[j] == s.ooz && r.color[j] == Shade(s.level).color && r.glyph[j] == Shade(s.level).glyph
      else r.depth[j] == b.depth[j] && r.color[j] == b.color[j] && r.glyph[j] == b.glyph[j]
  {
    WriteAt(b, width, height, s, j);
    HitsCell(s, width, height, j);
  }

  /** A sample outside the raster leaves every buffer as it was. */
  lemma OutOfBoundsIgnored(b: Buffers, width: nat, height: nat, s: Sample)
    requires Sized(b, width, height) && !InBounds(s, width, height)
    ensures Write(b, width, height, s) == b
  {
  }

  /** The sample that decides cell j: it lands on j, beats the starting depth,
      every earlier sample on j is strictly farther (ties keep the first), and
      no later sample on j is nearer. */
  ghost predicate WinsAt(b: Buffers, width: nat, height: nat, ss: seq<Sample>, j: int, t: int)
    requires 0 <= j < |b.depth|
  {
    0 <= t < |ss| && Hits(ss[t], width, height, j) && ss[t].ooz > b.depth[j] &&
    (forall u :: 0 <= u < t && Hits(ss[u], width, height, j) ==> ss[u].ooz < ss[t].ooz) &&
    (forall u :: t < u < |ss| && Hits(ss[u], width, height, j) ==> ss[u].ooz <= ss[t].ooz)
  }

  /** No sample landing on cell j is nearer than its starting depth. */
  ghost predicate Untouched(b: Buffers, width: nat, height: nat, ss: seq<Sample>, j: int)
    requires 0 <= j < |b.depth|
  {
    forall u :: 0 <= u < |ss| && Hits(ss[u], width, height, j) ==> ss[u].ooz <= b.depth[j]
  }

  /** The outcome of a sweep `ss` from `b` at cell j, as read in `r`: either
      no sample beat the starting depth and the cell is as it was, or the
      first sample of greatest inverse depth holds the cell. */
  ghost predicate Decided(b: Buffers, width: nat, height: nat, ss: seq<Sample>, j: int, r: Buffers)
    requires 0 <= j < |b.depth| && Sized(b, width, height) && Sized(r, width, height)
  {
    (Untouched(b, width, height, ss, j) &&
      r.depth[j] == b.depth[j] && r.color[j] == b.color[j] && r.glyph[j] == b.glyph[j]) ||
    (exists t :: WinsAt(b, width, height, ss, j, t) &&
      r.depth[j] == ss[t].ooz && r.color[j] == Shade(ss[t].level).color &&
      r.glyph[j] == Shade(ss[t].level).glyph)
  }

  /** Whatever decided cell j, its depth there bounds every sample on j. */
  lemma DecidedBounds(b: Buffers, width: nat, height: nat, ss: seq<Sample>, j: int, r: Buffers)
    requires 0 <= j < |b.depth| && Sized(b, width, height) && Sized(r, width, height)
    requires Decided(b, width, height, ss, j, r)
    ensures r.depth[j] >= b.depth[j]
    ensures forall u :: 0 <= u < |ss| && Hits(ss[u], width, height, j) ==> ss[u].ooz <= r.depth[j]
  {
    if !(Untouched(b, width, height, ss, j) && r.depth[j] == b.depth[j]) {
      var t :| WinsAt(b, width, height, ss, j, t) && r.depth[j] == ss[t].ooz;
    }
  }

  /** A last sample that does not win cell j leaves the decision as it was. */
  lemma DecidedKeep(b: Buffers, width: nat, height: nat, p: seq<Sample>, s: Sample, j: int, q: Buffers, r: Buffers)
    requires 0 <= j < |b.depth| && Sized(b, width, height) && Sized(q, width, height) && Sized(r, width, height)
    requires Decided(b, width, height, p, j, q)
    requires !(Hits(s, width, height, j) && s.ooz > q.depth[j])
    requires r.depth[j] == q.depth[j] && r.color[j] == q.color[j] && r.glyph[j] == q.glyph[j]
    ensures Decided(b, width, height, p + [s], j, r)
  {
    var ss := p + [s];
    if Untouched(b, width, height, p, j) && q.depth[j] == b.depth[j] &&
       q.color[j] == b.color[j] && q.glyph[j] == b.glyph[j] {
      assert Untouched(b, width, height, ss, j) by {
        forall u | 0 <= u < |ss| && Hits(ss[u], width, height, j)
          ensures ss[u].ooz <= b.depth[j]
        {
          if u < |p| { assert ss[u] == p[u]; }
        }
      }
    } else {
      var t :| WinsAt(b, width, height, p, j, t) && q.depth[j] == p[t].ooz &&
        q.color[j] == Shade(p[t].level).color && q.glyph[j] == Shade(p[t].level).glyph;
      assert WinsAt(b, width, height, ss, j, t) by {
        forall u | 0 <= u < |ss| && Hits(ss[u], width, height, j)
          ensures u < t ==> ss[u].ooz < ss[t].ooz
          ensures t < u ==> ss[u].ooz <= ss[t].ooz
        {
          if u < |p| { assert ss[u] == p[u]; }
        }
      }
    }
  }

  /** A last sample that wins cell j decides it. */
  lemma DecidedTake(b: Buffers, width: nat, height: nat, p: seq<Sample>, s: Sample, j: int, q: Buffers, r: Buffers)
    requires 0 <= j < |b.depth| && Sized(b, width, height) && Sized(q, width, height) && Sized(r, width, height)
    requires Decided(b, width, height, p, j, q)
    requires Hits(s, width, height, j) && s.ooz > q.depth[j]
    requires r.depth[j] == s.ooz && r.color[j] == Shade(s.level).color && r.glyph[j] == Shade(s.level).glyph
    ensures Decided(b, width, height, p + [s], j, r)
  {
    var ss := p + [s];
    DecidedBounds(b, width, height, p, j, q);
    assert WinsAt(b, width, height, ss, j, |p|) by {
      forall u | 0 <= u < |p| && Hits(ss[u], width, height, j)
        ensures ss[u].ooz < s.ooz
      {
        assert ss[u] == p[u];
      }
    }
  }

  /** The outcome of a whole sweep at every cell: either no sample beat the
      starting depth and the cell is as it was, or the first sample of
      greatest inverse depth holds it. */
  lemma {:induction false} CellOutcome(b: Buffers, width: nat, height: nat, ss: seq<Sample>, j: int)
    requires Sized(b, width, height) && 0 <= j < width * height
    ensures Decided(b, width, height, ss, j, ApplyAll(b, width, height, ss))
    decreases |ss|
  {
    if ss == [] {
      assert Untouched(b, width, height, ss, j);
    } else {
      var n := |ss| - 1;
      var p, s := ss[..n], ss[n];
      assert ss == p + [s];
      CellOutcome(b, width, height, p, j);
      var q := ApplyAll(b, width, height, p);
      WriteAt(q, width, height, s, j);
      if Hits(s, width, height, j) && s.ooz > q.depth[j] {
        DecidedTake(b, width, height, p, s, j, q, Write(q, width, height, s));
      } else {
        DecidedKeep(b, width, height, p, s, j, q, Write(q, width, height, s));
      }
    }
  }

  /** After a frame's sweep, each cell's depth is the greatest of 0.0 and the
      inverse depths of the samples landing on it. */
  lemma DepthIsMaximum(width: nat, height: nat, ss: seq<Sample>, j: int)
    requires 0 <= j < width * height
    ensures var r := ApplyAll(Empty(width * height), width, height, ss);
      r.depth[j] >= 0.0 &&
      (forall u :: 0 <= u < |ss| && Hits(ss[u], width, height, j) ==> ss[u].ooz <= r.depth[j]) &&
      (r.depth[j] == 0.0 || exists u :: 0 <= u < |ss| && Hits(ss[u], width, height, j) && ss[u].ooz == r.depth[j])
  {
    var b := Empty(width * height);
    var r := ApplyAll(b, width, height, ss);
    CellOutcome(b, width, height, ss, j);
    DecidedBounds(b, width, height, ss, j, r);
  }

  /** Two writes can be swapped unless they land on the same cell at the same
      inverse depth, where the strict test keeps whichever came first. */
  lemma WritesCommute(b: Buffers, width: nat, height: nat, s1: Sample, s2: Sample)
    requires Sized(b, width, height)
    requires !(InBounds(s1, width, height) && InBounds(s2, width, height) &&
               s1.xp + s1.yp * width == s2.xp + s2.yp * width && s1.ooz == s2.ooz)
    ensures Write(Write(b, width, height, s1), width, height, s2) ==
            Write(Write(b, width, height, s2), width, height, s1)
  {
    var b1, b2 := Write(b, width, height, s1), Write(b, width, height, s2);
    var l, r := Write(b1, width, height, s2), Write(b2, width, height, s1);
    forall j | 0 <= j < width * height
      ensures l.depth[j] == r.depth[j] && l.color[j] == r.color[j] && l.glyph[j] == r.glyph[j]
    {
      WriteAt(b, width, height, s1, j);
      WriteAt(b, width, height, s2, j);
      WriteAt(b1, width, height, s2, j);
      WriteAt(b2, width, height, s1, j);
    }
    assert l.depth == r.depth && l.color == r.color && l.glyph == r.glyph;
  }

  /** The three buffers held in arrays, read as one value. */
  function Snapshot(depth: array<real>, color: array<string>, glyph: array<string>): Buffers
    reads depth, color, glyph
  {
    Buffers(depth[..], color[..], glyph[..])
  }

  /** Allocates the buffers of a frame: every depth 0.0, every colour the reset
      token, every glyph the blank. */
  method NewBuffers(width: nat, height: nat) returns (depth: array<real>, color: array<string>, glyph: array<string>)
    ensures fresh(depth) && fresh(color) && fresh(glyph)
    ensures color != glyph
    ensures Snapshot(depth, color, glyph) == Empty(width * height)
  {
    depth := new real[width * height](_ => 0.0);
    color := new string[width * height](_ => Reset);
    glyph := new string[width * height](_ => Blank);
  }

  /** Writes one sample into the buffers in place, behind the bounds and
      depth test. */
  method Plot(depth: array<real>, color: array<string>, glyph: array<string>,
              width: nat, height: nat, s: Sample)
    requires color != glyph
    requires Sized(Snapshot(depth, color, glyph), width, height)
    modifies depth, color, glyph
    ensures Snapshot(depth, color, glyph) == Write(old(Snapshot(depth, color, glyph)), width, height, s)
  {
    ghost var b := Snapshot(depth, color, glyph);
    var idx := s.xp + s.yp * width;
    WriteBy(b, width, height, s, idx);
    if 0 <= s.xp < width && 0 <= s.yp < height {
      CellIndex(s.xp, s.yp, width, height);
      if s.ooz > depth[idx] {
        var e := Shade(s.level);
        depth[idx] := s.ooz;
        color[idx], glyph[idx] := e.color, e.glyph;
        assert depth[..] == b.depth[idx := s.ooz];
        assert color[..] == b.color[idx := e.color];
        assert glyph[..] == b.glyph[idx := e.glyph];
      }
    }
  }

  /** Writes every sample of a sweep, in order. */
  method Sweep(depth: array<real>, color: array<string>, glyph: array<string>,
               width: nat, height: nat, ss: seq<Sample>)
    requires color != glyph
    requires Sized(Snapshot(depth, color, glyph), width, height)
    modifies depth, color, glyph
    ensures Snapshot(depth, color, glyph) == ApplyAll(old(Snapshot(depth, color, glyph)), width, height, ss)
  {
    ghost var start := Snapshot(depth, color, glyph);
    for i := 0 to |ss|
      invariant Sized(Snapshot(depth, color, glyph), width, height)
      invariant Snapshot(depth, color, glyph) == ApplyAll(start, width, height, ss[..i])
    {
      Plot(depth, color, glyph, width, height, ss[i]);
      assert ss[..i + 1][..i] == ss[..i];
    }
    assert ss[..|ss|] == ss;
  }
}
