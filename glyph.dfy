/**
  Glyph records (GLSFglyph) and the rasterizer that fills them in.

  The font parser and rasterizer (stb_truetype) is foreign code; it is modelled
  as an oracle: a value of type Rasterizer whose fields are total functions that
  answer the questions glsf asks it.
*/
module Glyphs {
  import opened Wrappers

  /** A decoded Unicode codepoint (uint32_t in the source). */
  type Codepoint = nat

  const NEWLINE: Codepoint := 10
  const SPACE: Codepoint := 32

  /**
    One cached glyph. (x0, y0, x1, y1) is the bitmap box at the font's pixel
    scale, `index` the font's glyph index, `advance` the horizontal advance in
    pixels (the source's advance times scale; fonts store advance widths
    unsigned, so it is never negative), `offset` the x-offset of the
    glyph's bitmap inside the atlas texture.
  */
  datatype Glyph = Glyph(codepoint: Codepoint, x0: int, y0: int, x1: int, y1: int,
                         index: int, advance: nat, offset: int)

  /** Width of the glyph's bitmap (and of its slot in the atlas). */
  function Width(g: Glyph): int { g.x1 - g.x0 }

  /** Height of the glyph's bitmap. */
  function Height(g: Glyph): int { g.y1 - g.y0 }

  /** What the rasterizer reports for one glyph index at the font's size. */
  datatype Metrics = Metrics(x0: int, y0: int, x1: int, y1: int, advance: nat)

  /** Whether glsfLoadBitmap succeeds, as a function of the bitmap's width and height. */
  type BitmapOracle = (int, int) -> bool

  /**
    The rasterizer oracle of one font at one point size.
    - findGlyphIndex: stbtt_FindGlyphIndex; 0 means "no glyph".
    - metrics: horizontal advance and bitmap box of a glyph index.
    - uninitialised: whatever the never-written `offset` field of a freshly
      loaded glyph happens to hold.
    - bitmapLoads: whether allocating and rasterizing a bitmap of the given
      width and height succeeds.
  */
  datatype Rasterizer = Rasterizer(
    findGlyphIndex: Codepoint -> int,
    metrics: int -> Metrics,
    uninitialised: Codepoint -> int,
    bitmapLoads: BitmapOracle)

  /**
    glsfLoadGlyph: fails exactly when the font has no glyph for `cp`;
    otherwise the record carries `cp`, its glyph index and that index's
    metrics, and an offset nobody has written yet.
  */
  function LoadGlyph(r: Rasterizer, cp: Codepoint): (g: Option<Glyph>)
    ensures g.None? <==> r.findGlyphIndex(cp) == 0
    ensures g.Some? ==> g.value.codepoint == cp && g.value.index == r.findGlyphIndex(cp)
    ensures g.Some? ==> var m := r.metrics(g.value.index);
              g.value.x0 == m.x0 && g.value.y0 == m.y0 && g.value.x1 == m.x1 && g.value.y1 == m.y1 &&
              g.value.advance == m.advance
  {
    var index := r.findGlyphIndex(cp);
    if index == 0 then None
    else
      var m := r.metrics(index);
      Some(Glyph(cp, m.x0, m.y0, m.x1, m.y1, index, m.advance, r.uninitialised(cp)))
  }
}
