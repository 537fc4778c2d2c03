/** The fixed palette of the donut renderer. Colour tokens and glyphs are kept
    as opaque strings: a glyph is one element of a row whatever its length
    (palette entry 0's glyph is two characters). */
module Palette {

  /** One palette entry: an ANSI 256-colour foreground token and its glyph. */
  datatype Entry = Entry(color: string, glyph: string)

  /** The reset token every colour buffer cell starts with. */
  const Reset: string := "\U{1b}[0m"

  /** The glyph every character buffer cell starts with. */
  const Blank: string := " "

  /** Darkest first, brightest last. Entry 0's glyph is the two characters
      U+00C2 U+00B7, exactly as the table spells it. */
  const Table: seq<Entry> := [
    Entry("\U{1b}[38;5;240m", "\U{c2}\U{b7}"),
    Entry("\U{1b}[38;5;244m", ","),
    Entry("\U{1b}[38;5;248m", "-"),
    Entry("\U{1b}[38;5;250m", "~"),
    Entry("\U{1b}[38;5;252m", ":"),
    Entry("\U{1b}[38;5;255m", ";"),
    Entry("\U{1b}[38;5;153m", "="),
    Entry("\U{1b}[38;5;117m", "!"),
    Entry("\U{1b}[38;5;51m", "*"),
    Entry("\U{1b}[38;5;50m", "#"),
    Entry("\U{1b}[38;5;48m", "$"),
    Entry("\U{1b}[38;5;46m", "@")
  ]

  /** A colour token the renderer may emit: a palette colour or the reset token. */
  predicate IsToken(c: string) {
    c == Reset || exists k :: 0 <= k < |Table| && Table[k].color == c
  }

  /** A glyph the renderer may emit: a palette glyph or the blank. */
  predicate IsGlyph(g: string) {
    g == Blank || exists k :: 0 <= k < |Table| && Table[k].glyph == g
  }

  /** The luminance bucket clamped into the table: `level` is the truncated
      bucket computed from the luminance, which may fall outside the table. */
  function Clamp(level: int): (k: nat)
    ensures k < |Table|
    ensures 0 <= level < |Table| ==> k == level
    ensures level < 0 ==> k == 0
    ensures level >= |Table| ==> k == |Table| - 1
  {
    var upper := if |Table| - 1 < level then |Table| - 1 else level;
    if 0 < upper then upper else 0
  }

  /** The palette entry a sample with bucket `level` draws with. */
  function Shade(level: int): (e: Entry)
    ensures e in Table
    ensures IsToken(e.color) && IsGlyph(e.glyph)
  {
    Table[Clamp(level)]
  }

  /** Every palette colour differs from the reset token, and no palette
      glyph is the blank: a drawn cell can be told from an empty one. */
  lemma PaletteDistinctFromEmpty(k: int)
    requires 0 <= k < |Table|
    ensures Table[k].color != Reset
    ensures Table[k].glyph != Blank
  {
  }
}
