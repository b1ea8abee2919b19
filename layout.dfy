/**
  Text layout (the second loop of glsfEnqueueString) and the six vertices of a
  glyph quad (glsfEnqueueGlyph), as functions. The class Glsf.Font runs the
  same steps in place and is proved equal to these functions.
*/
module Layout {
  import opened Wrappers
  import opened Glyphs
  import opened Atlas
  import opened Cache

  /** rect[0..3]: the origin of the text and the width lines wrap at; the height is unused. */
  datatype Rect = Rect(x: int, y: int, width: int, height: int)

  datatype Color = Color(r: real, g: real, b: real, a: real)

  /**
    One GLSFvertex, in pixel space: the viewport shift and the division by the
    viewport and texture sizes that turn these into device and texture
    coordinates are not modelled.
  */
  datatype Vertex = Vertex(x: int, y: int, u: int, v: int, color: Color)

  /**
    The two triangles glsfEnqueueGlyph writes for glyph `g` at pen position
    (x, y): both share the diagonal (vertex 1 = vertex 3, vertex 2 = vertex 5),
    they span the glyph's box, every vertex has the given color, and the
    texture coordinates follow the position, so the quad shows exactly the
    glyph's slot of the atlas (starting at its offset, upside down in y).
  */
  function Quad(g: Glyph, x: int, y: int, color: Color): (q: seq<Vertex>)
    ensures |q| == 6
  {
    var x0 := x;
    var y0 := -y - g.y1;
    var x1 := x0 + Width(g);
    var y1 := y0 + Height(g);
    var u0 := g.offset;
    var v0 := Height(g);
    var u1 := u0 + Width(g);
    var v1 := 0;
    [Vertex(x0, y0, u0, v0, color), Vertex(x0, y1, u0, v1, color), Vertex(x1, y0, u1, v0, color),
     Vertex(x0, y1, u0, v1, color), Vertex(x1, y1, u1, v1, color), Vertex(x1, y0, u1, v0, color)]
  }

  /**
    The quad is two triangles sharing the diagonal from the bottom-left to the
    top-right corner; it spans the glyph's width from x and its height below
    the flipped baseline, every vertex carries the colour, and the texture
    coordinates move with the position, starting at the glyph's atlas offset.
  */
  lemma QuadShape(g: Glyph, x: int, y: int, color: Color)
    ensures var q := Quad(g, x, y, color);
      q[1] == q[3] && q[2] == q[5] &&
      q[0].x == q[1].x == x && q[2].x == q[4].x == x + Width(g) &&
      q[0].y == q[2].y == -y - g.y1 && q[1].y == q[4].y == -y - g.y0 &&
      (forall k :: 0 <= k < 6 ==> q[k].color == color) &&
      (forall k :: 0 <= k < 6 ==> q[k].u - g.offset == q[k].x - x && q[k].y + q[k].v == -y - g.y0)
  {
  }

  /** A glyph handed to glsfEnqueueGlyph, with the position it was given (rect origin included). */
  datatype Placement = Placement(glyph: Glyph, x: int, y: int)

  /** The vertices of a sequence of placements, six per glyph, in order. */
  function Vertices(placed: seq<Placement>, color: Color): (vs: seq<Vertex>)
    ensures |vs| == 6 * |placed|
  {
    if placed == [] then []
    else
      var p := placed[|placed| - 1];
      Vertices(placed[..|placed| - 1], color) + Quad(p.glyph, p.x, p.y, color)
  }

  /** Placing one more glyph appends its quad after the vertices already queued. */
  lemma {:induction false} VerticesSnoc(queued: seq<Vertex>, placed: seq<Placement>, p: Placement, color: Color)
    ensures queued + Vertices(placed + [p], color) == queued + Vertices(placed, color) + Quad(p.glyph, p.x, p.y, color)
  {
    assert (placed + [p])[..|placed|] == placed;
  }

  /** The layout cursor (cur_x, cur_y). */
  datatype Pen = Pen(x: int, y: int)

  /** The layout loop's state: the cursor, the glyph cache, and the glyphs placed so far. */
  datatype LayoutState = LayoutState(pen: Pen, cache: CacheState, placed: seq<Placement>)

  /**
    One iteration of the layout loop for codepoint `cp`, with line height
    `advY`: a newline moves to the start of the next line; any other
    codepoint is resolved through the cache (which may grow) and then laid
    out by Arrange.
  */
  function Step(r: Rasterizer, rect: Rect, advY: int, st: LayoutState, cp: Codepoint): LayoutState
  {
    if cp == NEWLINE then st.(pen := Pen(0, st.pen.y + advY))
    else
      var (found, cache) := Resolve(r, st.cache, cp);
      Arrange(rect, advY, st, found, cache)
  }

  /**
    The rest of an iteration once glsfGetGlyph has answered `found` and left
    the cache as `cache`: an unresolved glyph, or a space at the start of a
    line, is dropped; a glyph that would cross the rectangle's width first
    moves to the next line; then it is placed and the cursor advances by its
    advance.
  */
  function Arrange(rect: Rect, advY: int, st: LayoutState, found: Option<nat>, cache: CacheState): LayoutState
    requires found.Some? ==> found.value < |cache.glyphs|
  {
    if found.None? then st.(cache := cache)
    else
      var g := cache.glyphs[found.value];
      if st.pen.x == 0 && g.codepoint == SPACE then st.(cache := cache)
      else
        var pen := if st.pen.x + g.advance > rect.width then Pen(0, st.pen.y + advY) else st.pen;
        LayoutState(Pen(pen.x + g.advance, pen.y), cache, st.placed + [Placement(g, pen.x + rect.x, pen.y + rect.y)])
  }

  /** The layout loop over a decoded string. */
  function Run(r: Rasterizer, rect: Rect, advY: int, st: LayoutState, text: seq<Codepoint>): LayoutState
  {
    if text == [] then st else Step(r, rect, advY, Run(r, rect, advY, st, text[..|text| - 1]), text[|text| - 1])
  }

  /** The state glsfEnqueueString starts its layout loop in. */
  function Start(c: CacheState): LayoutState
  {
    LayoutState(Pen(0, 0), c, [])
  }

  /**
    The layout rules, one codepoint at a time: newline, dropped glyph,
    leading-space suppression, wrap, and placement followed by the advance.
  */
  lemma {:induction false} StepRules(r: Rasterizer, rect: Rect, advY: int, st: LayoutState, cp: Codepoint)
    ensures cp == NEWLINE ==> Step(r, rect, advY, st, cp) == st.(pen := Pen(0, st.pen.y + advY))
    ensures cp != NEWLINE ==> Step(r, rect, advY, st, cp).cache == Resolve(r, st.cache, cp).1
    ensures cp != NEWLINE && Resolve(r, st.cache, cp).0.None? ==>
              Step(r, rect, advY, st, cp).placed == st.placed && Step(r, rect, advY, st, cp).pen == st.pen
    ensures cp == SPACE && st.pen.x == 0 ==>
              Step(r, rect, advY, st, cp).placed == st.placed && Step(r, rect, advY, st, cp).pen == st.pen
    ensures var next := Step(r, rect, advY, st, cp);
            next.placed != st.placed ==>
              var found := Resolve(r, st.cache, cp).0;
              found.Some? && cp != NEWLINE && !(cp == SPACE && st.pen.x == 0) &&
              var g := Resolve(r, st.cache, cp).1.glyphs[found.value];
              var wrap := st.pen.x + g.advance > rect.width;
              g.codepoint == cp &&
              next.placed == st.placed + [Placement(g, next.pen.x - g.advance + rect.x, next.pen.y + rect.y)] &&
              next.pen.x == (if wrap then 0 else st.pen.x) + g.advance &&
              next.pen.y == (if wrap then st.pen.y + advY else st.pen.y)
    ensures var next := Step(r, rect, advY, st, cp);
            cp != NEWLINE && Resolve(r, st.cache, cp).0.Some? && !(cp == SPACE && st.pen.x == 0) ==>
              next.placed != st.placed
  {
  }

  /** Any codepoint but a newline is resolved, then arranged. */
  lemma {:induction false} StepIsArrange(r: Rasterizer, rect: Rect, advY: int, st: LayoutState, cp: Codepoint)
    requires cp != NEWLINE
    ensures Step(r, rect, advY, st, cp) == Arrange(rect, advY, st, Resolve(r, st.cache, cp).0, Resolve(r, st.cache, cp).1)
  {
  }

  /** Running one more codepoint is one more step. */
  lemma {:induction false} RunSnoc(r: Rasterizer, rect: Rect, advY: int, st: LayoutState, text: seq<Codepoint>, i: nat)
    requires i < |text|
    ensures Run(r, rect, advY, st, text[..i + 1]) == Step(r, rect, advY, Run(r, rect, advY, st, text[..i]), text[i])
  {
    assert text[..i + 1][..i] == text[..i];
  }

  /** Each codepoint places at most one glyph, and glyphs once placed stay placed. */
  lemma {:induction false} RunPlacesAtMostOne(r: Rasterizer, rect: Rect, advY: int, st: LayoutState, text: seq<Codepoint>)
    ensures st.placed <= Run(r, rect, advY, st, text).placed
    ensures |Run(r, rect, advY, st, text).placed| <= |st.placed| + |text|
  {
    if text != [] {
      RunPlacesAtMostOne(r, rect, advY, st, text[..|text| - 1]);
    }
  }

  /** Layout keeps the cache's invariants and only appends to it. */
  lemma {:induction false} RunKeepsCache(r: Rasterizer, rect: Rect, advY: int, st: LayoutState, text: seq<Codepoint>)
    requires Consistent(r.bitmapLoads, st.cache)
    ensures Consistent(r.bitmapLoads, Run(r, rect, advY, st, text).cache)
    ensures Distinct(st.cache.glyphs) ==> Distinct(Run(r, rect, advY, st, text).cache.glyphs)
    ensures st.cache.glyphs <= Run(r, rect, advY, st, text).cache.glyphs
  {
    if text != [] {
      var n := |text| - 1;
      RunKeepsCache(r, rect, advY, st, text[..n]);
      var mid := Run(r, rect, advY, st, text[..n]);
      StepRules(r, rect, advY, mid, text[n]);
      ResolveKeeps(r, mid.cache, text[n]);
    }
  }

  /** Every placed glyph starts a line or ends within the rectangle's width. */
  predicate FitsWidth(rect: Rect, placed: seq<Placement>)
  {
    forall i :: 0 <= i < |placed| ==>
      placed[i].x == rect.x || placed[i].x - rect.x + placed[i].glyph.advance <= rect.width
  }

  /** No placed glyph crosses the right edge unless it is the first on its line. */
  lemma {:induction false} RunFitsWidth(r: Rasterizer, rect: Rect, advY: int, st: LayoutState, text: seq<Codepoint>)
    requires FitsWidth(rect, st.placed)
    ensures FitsWidth(rect, Run(r, rect, advY, st, text).placed)
  {
    if text != [] {
      RunFitsWidth(r, rect, advY, st, text[..|text| - 1]);
    }
  }

  /**
    Placed glyphs are in reading order and never overlap: rows go down the
    page, and on one row each glyph starts where the previous one's advance
    ends or further right. The cursor is on the last row, after its last glyph.
  */
  predicate Tidy(rect: Rect, st: LayoutState)
  {
    var ps := st.placed;
    (forall i, j :: 0 <= i < j < |ps| ==> ps[i].y <= ps[j].y) &&
    (forall i, j :: 0 <= i < j < |ps| && ps[i].y == ps[j].y ==> ps[i].x + ps[i].glyph.advance <= ps[j].x) &&
    (forall i :: 0 <= i < |ps| ==> ps[i].y <= rect.y + st.pen.y) &&
    (forall i :: 0 <= i < |ps| && ps[i].y == rect.y + st.pen.y ==> ps[i].x + ps[i].glyph.advance <= rect.x + st.pen.x)
  }

  lemma {:induction false} StepTidy(r: Rasterizer, rect: Rect, advY: int, st: LayoutState, cp: Codepoint)
    requires 0 < advY
    requires Tidy(rect, st)
    ensures Tidy(rect, Step(r, rect, advY, st, cp))
  {
    var next := Step(r, rect, advY, st, cp);
    StepRules(r, rect, advY, st, cp);
    if next.placed != st.placed {
      var p := next.placed[|st.placed|];
      assert next.placed == st.placed + [p];
      assert p.y == rect.y + next.pen.y && p.x + p.glyph.advance == rect.x + next.pen.x;
    }
  }

  /** With a positive line height, layout keeps the placed glyphs in order and free of overlap. */
  lemma {:induction false} RunTidy(r: Rasterizer, rect: Rect, advY: int, st: LayoutState, text: seq<Codepoint>)
    requires 0 < advY
    requires Tidy(rect, st)
    ensures Tidy(rect, Run(r, rect, advY, st, text))
  {
    if text != [] {
      RunTidy(r, rect, advY, st, text[..|text| - 1]);
      StepTidy(r, rect, advY, Run(r, rect, advY, st, text[..|text| - 1]), text[|text| - 1]);
    }
  }
}
