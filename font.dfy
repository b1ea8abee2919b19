/**
  GLSFfont and the operations that change it in place: the glyph cache and
  its atlas (glsfGetGlyph, glsfUpdateFont, the preload loop of
  glsfCreateFont), the vertex batch (glsfEnqueueGlyph, glsfEnqueueString,
  glsfRenderFont) and glsfDrawString. Each method is proved equal to the
  functions of modules Cache and Layout, whose properties are proved there.
*/
module Glsf {
  import opened Wrappers
  import opened Glyphs
  import opened Atlas
  import opened Cache
  import opened Layout

  /** The vertex capacity glsfCreateFont allocates. */
  const INITIAL_VERTICES: nat := 128

  class Font {
    /** The parsed font at its point size (font->info and font->size). */
    const raster: Rasterizer
    /** font->glyphs[0 .. num_glyphs], in insertion order. */
    var glyphs: seq<Glyph>
    var texture: Texture
    /** The vertex buffer: `maxVertices` slots, of which the first `numVertices` are queued. */
    var vertices: array<Vertex>
    var numVertices: nat
    var maxVertices: nat

    /**
      The font's invariant: the buffer has `maxVertices` slots and the count
      never exceeds them; the atlas matches the cached glyphs.
    */
    ghost predicate Valid()
      reads this
    {
      Buffered() && Consistent(raster.bitmapLoads, CacheState(glyphs, texture))
    }

    /** The buffer half of Valid(): `maxVertices` slots, at most that many queued. */
    ghost predicate Buffered()
      reads this
    {
      vertices.Length == maxVertices && numVertices <= maxVertices
    }

    /** The glyph cache and its atlas, as a value. */
    function Cached(): CacheState
      reads this`glyphs, this`texture
    {
      CacheState(glyphs, texture)
    }

    /** The vertices waiting to be drawn. */
    ghost function Queued(): seq<Vertex>
      reads this, vertices
      requires numVertices <= vertices.Length
    {
      vertices[..numVertices]
    }

    /**
      glsfCreateFont, once the font file is read and parsed: an empty cache, a
      zeroed texture, a buffer of 128 vertices, then glsfGetGlyph on every
      codepoint of the preload string.
    */
    constructor (raster: Rasterizer, preload: seq<Codepoint>)
      ensures Valid() && fresh(vertices)
      ensures Cached() == Preload(this.raster, Empty, preload)
      ensures Distinct(glyphs)
      ensures numVertices == 0 && maxVertices == INITIAL_VERTICES
    {
      this.raster := raster;
      glyphs := [];
      texture := Texture(0, 0);
      vertices := new Vertex[INITIAL_VERTICES];
      numVertices := 0;
      maxVertices := INITIAL_VERTICES;
      new;
      var i := 0;
      while i < |preload|
        invariant 0 <= i <= |preload|
        invariant Valid() && fresh(vertices)
        invariant numVertices == 0 && maxVertices == INITIAL_VERTICES
        invariant Cached() == Preload(this.raster, Empty, preload[..i])
        invariant Distinct(glyphs)
      {
        assert preload[..i + 1][..i] == preload[..i];
        var _ := GetGlyph(preload[i]);
        i := i + 1;
      }
      assert preload[..i] == preload;
    }

    /**
      glsfUpdateFont: packs the old glyphs followed by `added` into a new
      atlas. On success the font adopts the packed glyphs and the new texture;
      when packing rejects the size, nothing changes.
    */
    method UpdateFont(added: seq<Glyph>) returns (ok: bool)
      requires Valid()
      modifies this
      ensures Valid()
      ensures ok == Rebuild(raster.bitmapLoads, old(Cached()), added).Some?
      ensures Cached() == if ok then Rebuild(raster.bitmapLoads, old(Cached()), added).value else old(Cached())
      ensures ok ==> |glyphs| == |old(glyphs)| + |added| && glyphs[..|old(glyphs)|] == old(glyphs)
      ensures ok ==> texture == Texture(old(texture.width) + SumWidth(added),
                                        if old(texture.height) < MaxHeight(added) then MaxHeight(added) else old(texture.height))
      ensures vertices == old(vertices) && numVertices == old(numVertices) && maxVertices == old(maxVertices)
    {
      ghost var before := Cached();
      ghost var rebuilt := Rebuild(raster.bitmapLoads, before, added);
      RebuildConsistent(raster.bitmapLoads, before, added);
      RebuildSize(raster.bitmapLoads, before, added);
      if rebuilt.Some? {
        RebuildAppends(raster.bitmapLoads, before, added);
      }
      var packed, newGlyphs, newTexture := PackCopy(glyphs + added, raster.bitmapLoads);
      if !packed {
        return false;
      }
      glyphs, texture, ok := newGlyphs, newTexture, true;
      assert Cached() == rebuilt.value;
    }

    /**
      glsfGetGlyph: the index of the first cached glyph for `cp`; on a miss,
      loads the glyph, rebuilds the atlas and looks again. NULL (None) when the
      font has no such glyph or the rebuild fails, and then nothing changes.
    */
    method GetGlyph(cp: Codepoint) returns (found: Option<nat>)
      requires Valid()
      modifies this
      decreases if IndexOf(glyphs, cp).Some? then 0 else 1
      ensures Valid()
      ensures (found, Cached()) == Resolve(raster, old(Cached()), cp)
      ensures found.Some? ==> found.value < |glyphs| && glyphs[found.value].codepoint == cp
      ensures Distinct(old(glyphs)) ==> Distinct(glyphs)
      ensures vertices == old(vertices) && numVertices == old(numVertices) && maxVertices == old(maxVertices)
    {
      ResolveKeeps(raster, Cached(), cp);
      found := FindGlyph(glyphs, cp);
      if found.Some? {
        return;
      }
      var loaded := LoadGlyph(raster, cp);
      if loaded.None? {
        return None;
      }
      var ok := UpdateFont([loaded.value]);
      if !ok {
        return None;
      }
      ResolveMiss(raster, old(Cached()), cp);
      found := GetGlyph(cp);
    }

    /**
      glsfEnqueueGlyph: when six more vertices fit, appends the quad of `g` at
      (x, y) after the queued vertices; otherwise changes nothing.
    */
    method EnqueueGlyph(g: Glyph, x: int, y: int, color: Color)
      requires Buffered()
      modifies this`numVertices, vertices
      ensures Buffered()
      ensures old(numVertices) + 6 > maxVertices ==> numVertices == old(numVertices) && vertices[..] == old(vertices[..])
      ensures old(numVertices) + 6 <= maxVertices ==>
                numVertices == old(numVertices) + 6 && Queued() == old(Queued()) + Quad(g, x, y, color)
    {
      if numVertices + 6 > maxVertices {
        return;
      }
      var gw := g.x1 - g.x0;
      var gh := g.y1 - g.y0;
      var x0 := x;
      var y0 := -y - g.y1;
      var x1 := x0 + gw;
      var y1 := y0 + gh;
      var u0 := g.offset;
      var v0 := gh;
      var u1 := u0 + gw;
      var v1 := 0;
      var n := numVertices;
      vertices[n] := Vertex(x0, y0, u0, v0, color);
      vertices[n + 1] := Vertex(x0, y1, u0, v1, color);
      vertices[n + 2] := Vertex(x1, y0, u1, v0, color);
      vertices[n + 3] := Vertex(x0, y1, u0, v1, color);
      vertices[n + 4] := Vertex(x1, y1, u1, v1, color);
      vertices[n + 5] := Vertex(x1, y0, u1, v0, color);
      numVertices := n + 6;
      assert vertices[..numVertices] == vertices[..n] + vertices[n..n + 6];
    }

    /**
      One pass of glsfEnqueueString's layout loop, for codepoint `cp` with the
      cursor at (curX, curY): the new cursor, cache and queue are those of
      Layout.Step, the quad of a placed glyph going after the queued vertices.
    */
    method EnqueueCodepoint(rect: Rect, color: Color, advY: int, curX: int, curY: int, cp: Codepoint,
                            ghost st: LayoutState, ghost base: seq<Vertex>)
      returns (newX: int, newY: int)
      requires Valid() && numVertices + 6 <= maxVertices
      requires st.pen == Pen(curX, curY) && st.cache == Cached()
      requires Queued() == base + Vertices(st.placed, color)
      modifies this, vertices
      ensures Valid() && vertices == old(vertices) && maxVertices == old(maxVertices)
      ensures numVertices <= old(numVertices) + 6
      ensures Step(raster, rect, advY, st, cp).pen == Pen(newX, newY)
      ensures Step(raster, rect, advY, st, cp).cache == Cached()
      ensures Queued() == base + Vertices(Step(raster, rect, advY, st, cp).placed, color)
      ensures Distinct(old(glyphs)) ==> Distinct(glyphs)
    {
      if cp == NEWLINE {
        newX := 0;
        newY := curY + advY;
        return;
      }
      StepIsArrange(raster, rect, advY, st, cp);
      var found := GetGlyph(cp);
      ghost var next, added;
      newX, newY, next, added := EnqueueFound(rect, color, advY, curX, curY, found, st);
      assert Step(raster, rect, advY, st, cp) == next;
      if added.Some? {
        VerticesSnoc(base, st.placed, added.value, color);
      }
    }

    /**
      The rest of a pass once glsfGetGlyph has answered `found`: drops an
      unresolved glyph or a space at the start of a line, wraps a glyph that
      would cross the rectangle's width, queues its quad and advances the
      cursor, all as Layout.Arrange says; `added` is the placement queued, if
      any, and the queue grows by exactly its quad.
    */
    method EnqueueFound(rect: Rect, color: Color, advY: int, curX: int, curY: int, found: Option<nat>,
                        ghost st: LayoutState)
      returns (newX: int, newY: int, ghost next: LayoutState, ghost added: Option<Placement>)
      requires Buffered() && numVertices + 6 <= maxVertices
      requires found.Some? ==> found.value < |glyphs|
      requires st.pen == Pen(curX, curY)
      modifies this`numVertices, vertices
      ensures Buffered() && maxVertices == old(maxVertices) && numVertices <= old(numVertices) + 6
      ensures next == Arrange(rect, advY, st, found, Cached())
      ensures next.pen == Pen(newX, newY)
      ensures added.None? ==> next.placed == st.placed && Queued() == old(Queued())
      ensures added.Some? ==> next.placed == st.placed + [added.value] &&
                              Queued() == old(Queued()) + Quad(added.value.glyph, added.value.x, added.value.y, color)
    {
      newX, newY := curX, curY;
      next, added := st.(cache := Cached()), None;
      if found.None? {
        return;
      }
      var g := glyphs[found.value];
      if newX == 0 && g.codepoint == SPACE {
        return;
      }
      var advX := g.advance;
      if newX + advX > rect.width {
        newX := 0;
        newY := newY + advY;
      }
      added := Some(Placement(g, newX + rect.x, newY + rect.y));
      next := LayoutState(Pen(newX + advX, newY), Cached(), st.placed + [added.value]);
      assert next == Arrange(rect, advY, st, found, Cached());
      EnqueueGlyph(g, newX + rect.x, newY + rect.y, color);
      newX := newX + advX;
    }

    /**
      The growth step of glsfEnqueueString: when fewer than `needed` slots are
      free, the buffer is replaced by one of exactly `numVertices + needed`
      slots holding the queued vertices; otherwise nothing changes.
    */
    method Reserve(needed: nat)
      requires Buffered()
      modifies this
      ensures Buffered() && Cached() == old(Cached())
      ensures vertices == old(vertices) || fresh(vertices)
      ensures maxVertices == if needed > old(maxVertices) - old(numVertices)
                             then old(numVertices) + needed else old(maxVertices)
      ensures numVertices == old(numVertices) && numVertices + needed <= maxVertices
      ensures Queued() == old(Queued())
    {
      if needed > maxVertices - numVertices {
        var newMax := numVertices + needed;
        var newVertices := new Vertex[newMax];
        forall k | 0 <= k < numVertices {
          newVertices[k] := vertices[k];
        }
        vertices := newVertices;
        maxVertices := newMax;
      }
    }

    /**
      glsfEnqueueString on the decoded codepoints of the string: first grows
      the buffer so that six vertices per codepoint fit after the queued ones,
      then lays the text out with the line height the atlas had on entry,
      queueing one quad per placed glyph; none is dropped for lack of room.
    */
    method EnqueueString(rect: Rect, color: Color, text: seq<Codepoint>)
      requires Valid()
      modifies this, vertices
      ensures Valid()
      ensures maxVertices == if 6 * |text| > old(maxVertices) - old(numVertices)
                             then old(numVertices) + 6 * |text| else old(maxVertices)
      ensures Cached() == Run(raster, rect, old(texture.height), Start(old(Cached())), text).cache
      ensures Queued() == old(Queued()) + Vertices(Run(raster, rect, old(texture.height), Start(old(Cached())), text).placed, color)
      ensures Distinct(old(glyphs)) ==> Distinct(glyphs)
    {
      Reserve(|text| * 6);
      ghost var capacity := maxVertices;
      var advY := texture.height;
      var curX, curY := 0, 0;
      ghost var st := Start(old(Cached()));
      var i := 0;
      while i < |text|
        invariant 0 <= i <= |text|
        invariant Valid()
        invariant vertices == old(vertices) || fresh(vertices)
        invariant maxVertices == capacity && old(numVertices) + 6 * |text| <= capacity
        invariant st == Run(raster, rect, advY, Start(old(Cached())), text[..i])
        invariant st.pen == Pen(curX, curY) && st.cache == Cached()
        invariant numVertices <= old(numVertices) + 6 * i
        invariant Queued() == old(Queued()) + Vertices(st.placed, color)
        invariant Distinct(old(glyphs)) ==> Distinct(glyphs)
      {
        var cp := text[i];
        RunSnoc(raster, rect, advY, Start(old(Cached())), text, i);
        ghost var next := Step(raster, rect, advY, st, cp);
        ghost var base := old(Queued());
        curX, curY := EnqueueCodepoint(rect, color, advY, curX, curY, cp, st, base);
        st := next;
        i := i + 1;
      }
      assert text[..i] == text;
    }

    /**
      glsfRenderFont: draws every queued vertex in one call (the returned
      sequence) and resets the count to 0, keeping the buffer and its capacity.
    */
    method RenderFont() returns (drawn: seq<Vertex>)
      requires Valid()
      modifies this`numVertices
      ensures Valid()
      ensures drawn == old(Queued()) && numVertices == 0
    {
      drawn := vertices[..numVertices];
      numVertices := 0;
    }

    /** glsfDrawString: enqueue one string, then render everything queued. */
    method DrawString(rect: Rect, color: Color, text: seq<Codepoint>) returns (drawn: seq<Vertex>)
      requires Valid()
      modifies this, vertices
      ensures Valid() && numVertices == 0
      ensures drawn == old(Queued()) + Vertices(Run(raster, rect, old(texture.height), Start(old(Cached())), text).placed, color)
      ensures Cached() == Run(raster, rect, old(texture.height), Start(old(Cached())), text).cache
    {
      EnqueueString(rect, color, text);
      drawn := RenderFont();
    }
  }
}
