/**
  The glyph cache (glsfGetGlyph, glsfUpdateFont) as functions on a value: the
  cached glyphs in insertion order together with the atlas texture built from
  them. The class Glsf.Font runs the same steps in place and is proved equal
  to these functions.
*/
module Cache {
  import opened Wrappers
  import opened Glyphs
  import opened Atlas

  datatype CacheState = CacheState(glyphs: seq<Glyph>, texture: Texture)

  /** The cache of a font fresh from allocation: no glyphs and a zeroed texture. */
  const Empty: CacheState := CacheState([], Texture(0, 0))

  /**
    The atlas invariant: the glyphs carry the offsets packing gives them, and
    the texture is exactly as wide as their summed widths and as high as the
    tallest of them.
  */
  predicate Consistent(loads: BitmapOracle, c: CacheState)
  {
    Packed(loads, c.glyphs) && c.texture == Texture(SumWidth(c.glyphs), MaxHeight(c.glyphs))
  }

  /** No codepoint is cached twice. */
  predicate Distinct(s: seq<Glyph>)
  {
    forall i, j :: 0 <= i < j < |s| ==> s[i].codepoint != s[j].codepoint
  }

  /** The position of the first glyph with codepoint `cp`, if any. */
  function IndexOf(s: seq<Glyph>, cp: Codepoint): (r: Option<nat>)
    ensures r.Some? ==> r.value < |s| && s[r.value].codepoint == cp
  {
    IndexFrom(s, cp, 0)
  }

  /** The position of the first glyph with codepoint `cp` at or after position `k`, if any. */
  function IndexFrom(s: seq<Glyph>, cp: Codepoint, k: nat): (r: Option<nat>)
    requires k <= |s|
    decreases |s| - k
    ensures r.Some? ==> k <= r.value < |s| && s[r.value].codepoint == cp
  {
    if k == |s| then None
    else if s[k].codepoint == cp then Some(k)
    else IndexFrom(s, cp, k + 1)
  }

  /** IndexFrom finds the first match at or after `k`, and finds nothing only when there is none. */
  lemma {:induction false} IndexFromFirst(s: seq<Glyph>, cp: Codepoint, k: nat)
    requires k <= |s|
    decreases |s| - k
    ensures IndexFrom(s, cp, k).Some? ==> forall j :: k <= j < IndexFrom(s, cp, k).value ==> s[j].codepoint != cp
    ensures IndexFrom(s, cp, k).None? <==> forall j :: k <= j < |s| ==> s[j].codepoint != cp
  {
    if k < |s| && s[k].codepoint != cp {
      IndexFromFirst(s, cp, k + 1);
    }
  }

  /** IndexOf finds the first match, and finds nothing only when no cached glyph has codepoint `cp`. */
  lemma {:induction false} IndexOfFirst(s: seq<Glyph>, cp: Codepoint)
    ensures IndexOf(s, cp).Some? ==> forall j :: 0 <= j < IndexOf(s, cp).value ==> s[j].codepoint != cp
    ensures IndexOf(s, cp).None? <==> forall j :: 0 <= j < |s| ==> s[j].codepoint != cp
  {
    IndexFromFirst(s, cp, 0);
  }

  /** The linear search at the top of glsfGetGlyph. */
  method FindGlyph(glyphs: seq<Glyph>, cp: Codepoint) returns (r: Option<nat>)
    ensures r == IndexOf(glyphs, cp)
  {
    var i := 0;
    while i < |glyphs|
      invariant 0 <= i <= |glyphs|
      invariant IndexOf(glyphs, cp) == IndexFrom(glyphs, cp, i)
    {
      if glyphs[i].codepoint == cp {
        return Some(i);
      }
      i := i + 1;
    }
    return None;
  }

  /**
    glsfUpdateFont: the old glyphs followed by the added ones are packed into a
    new atlas; None when packing rejects the size, in which case the caller
    keeps its old cache.
  */
  function Rebuild(loads: BitmapOracle, c: CacheState, added: seq<Glyph>): (r: Option<CacheState>)
    ensures r.Some? ==> |r.value.glyphs| == |c.glyphs| + |added|
  {
    var all := c.glyphs + added;
    var width := SumWidth(all);
    var height := MaxHeight(all);
    if width < 2 || height < 2 then None
    else Some(CacheState(Pack(loads, all), Texture(width, height)))
  }

  /** Whatever a successful rebuild produces is a consistent cache. */
  lemma {:induction false} RebuildConsistent(loads: BitmapOracle, c: CacheState, added: seq<Glyph>)
    ensures Rebuild(loads, c, added).Some? ==> Consistent(loads, Rebuild(loads, c, added).value)
  {
    var all := c.glyphs + added;
    if Rebuild(loads, c, added).Some? {
      PackPacked(loads, all);
      PackShape(loads, all);
      SameShapeMeasures(loads, all, Pack(loads, all));
    }
  }

  /**
    A rebuild over a consistent cache fails exactly when the grown atlas would
    be degenerate; when it succeeds the atlas grows by exactly the added
    widths, and to the added heights.
  */
  lemma {:induction false} RebuildSize(loads: BitmapOracle, c: CacheState, added: seq<Glyph>)
    requires Consistent(loads, c)
    ensures var w := c.texture.width + SumWidth(added);
            var h := if c.texture.height < MaxHeight(added) then MaxHeight(added) else c.texture.height;
            (Rebuild(loads, c, added).None? <==> w < 2 || h < 2) &&
            (Rebuild(loads, c, added).Some? ==> Rebuild(loads, c, added).value.texture == Texture(w, h))
  {
    SumWidthAppend(c.glyphs, added);
    MaxHeightAppend(c.glyphs, added);
  }

  /**
    A successful rebuild over a consistent cache keeps the old glyphs exactly
    as they were (offsets included) and places each added glyph after them,
    at the loaded width of everything before it.
  */
  lemma {:induction false} RebuildAppends(loads: BitmapOracle, c: CacheState, added: seq<Glyph>)
    requires Consistent(loads, c)
    requires Rebuild(loads, c, added).Some?
    ensures var g := Rebuild(loads, c, added).value.glyphs;
            |g| == |c.glyphs| + |added| && g[..|c.glyphs|] == c.glyphs &&
            forall k :: 0 <= k < |added| ==>
              g[|c.glyphs| + k] == Place(loads, added[k], LoadedWidth(loads, c.glyphs + added[..k]))
  {
    var all := c.glyphs + added;
    PackPrefix(loads, c.glyphs, added);
    PackPacked(loads, c.glyphs);
    forall k | 0 <= k < |added|
      ensures Pack(loads, all)[|c.glyphs| + k] == Place(loads, added[k], LoadedWidth(loads, c.glyphs + added[..k]))
    {
      PackAppendAt(loads, c.glyphs, added, k);
    }
  }

  /**
    glsfGetGlyph as a function of the cache: the answer (an index into the
    cache, or NULL) and the cache afterwards. A hit answers the first match;
    a miss loads the glyph, rebuilds the atlas and, as the source does, looks
    the codepoint up again in the rebuilt cache.
  */
  function Resolve(r: Rasterizer, c: CacheState, cp: Codepoint): (res: (Option<nat>, CacheState))
    ensures res.0.Some? ==> res.0.value < |res.1.glyphs| && res.1.glyphs[res.0.value].codepoint == cp
  {
    match IndexOf(c.glyphs, cp)
    case Some(i) => (Some(i), c)
    case None =>
      match LoadGlyph(r, cp)
      case None => (None, c)
      case Some(g) =>
        match Rebuild(r.bitmapLoads, c, [g])
        case None => (None, c)
        case Some(c') => (IndexOf(c'.glyphs, cp), c')
  }

  /** A hit returns the first matching entry and leaves the cache unchanged. */
  lemma {:induction false} ResolveHit(r: Rasterizer, c: CacheState, cp: Codepoint)
    requires IndexOf(c.glyphs, cp).Some?
    ensures Resolve(r, c, cp) == (IndexOf(c.glyphs, cp), c)
  {
  }

  /**
    A miss answers NULL, with the cache unchanged, exactly when the font has no
    glyph for `cp` or the rebuild is rejected; otherwise the cache grows by
    exactly one entry, the loaded glyph placed after all old bitmaps, and that
    entry is the answer.
  */
  lemma {:induction false} ResolveMiss(r: Rasterizer, c: CacheState, cp: Codepoint)
    requires Consistent(r.bitmapLoads, c)
    requires IndexOf(c.glyphs, cp).None?
    ensures Resolve(r, c, cp).0.None? <==>
              LoadGlyph(r, cp).None? || Rebuild(r.bitmapLoads, c, [LoadGlyph(r, cp).value]).None?
    ensures Resolve(r, c, cp).0.None? ==> Resolve(r, c, cp).1 == c
    ensures Resolve(r, c, cp).0.Some? ==>
              Resolve(r, c, cp).0 == Some(|c.glyphs|) &&
              Resolve(r, c, cp).1.glyphs ==
                c.glyphs + [Place(r.bitmapLoads, LoadGlyph(r, cp).value, LoadedWidth(r.bitmapLoads, c.glyphs))]
  {
    var loaded := LoadGlyph(r, cp);
    if loaded.None? {
      assert Resolve(r, c, cp) == (None, c);
      return;
    }
    var g := loaded.value;
    var rebuilt := Rebuild(r.bitmapLoads, c, [g]);
    if rebuilt.None? {
      assert Resolve(r, c, cp) == (None, c);
      return;
    }
    var s := rebuilt.value.glyphs;
    assert Resolve(r, c, cp) == (IndexOf(s, cp), rebuilt.value);
    RebuildOne(r.bitmapLoads, c, g);
    assert s[|c.glyphs|].codepoint == cp;
    IndexOfFirst(c.glyphs, cp);
    IndexOfFirst(s, cp);
    assert IndexOf(s, cp) == Some(|c.glyphs|);
  }

  /** Adding a single glyph: it lands right after the old glyphs, at their loaded width. */
  lemma {:induction false} RebuildOne(loads: BitmapOracle, c: CacheState, g: Glyph)
    requires Consistent(loads, c)
    requires Rebuild(loads, c, [g]).Some?
    ensures Rebuild(loads, c, [g]).value.glyphs == c.glyphs + [Place(loads, g, LoadedWidth(loads, c.glyphs))]
  {
    RebuildAppends(loads, c, [g]);
    assert [g][..0] == [];
    assert c.glyphs + [] == c.glyphs;
    var s := Rebuild(loads, c, [g]).value.glyphs;
    assert s == s[..|c.glyphs|] + [s[|c.glyphs|]];
  }

  /** glsfGetGlyph keeps the atlas invariant and never caches a codepoint twice. */
  lemma {:induction false} ResolveKeeps(r: Rasterizer, c: CacheState, cp: Codepoint)
    requires Consistent(r.bitmapLoads, c)
    ensures Consistent(r.bitmapLoads, Resolve(r, c, cp).1)
    ensures Distinct(c.glyphs) ==> Distinct(Resolve(r, c, cp).1.glyphs)
    ensures c.glyphs <= Resolve(r, c, cp).1.glyphs
  {
    if IndexOf(c.glyphs, cp).None? {
      ResolveMiss(r, c, cp);
      IndexOfFirst(c.glyphs, cp);
      if LoadGlyph(r, cp).Some? {
        RebuildConsistent(r.bitmapLoads, c, [LoadGlyph(r, cp).value]);
      }
    }
  }

  /** Once resolved, a codepoint resolves again to the same entry with no change to the cache. */
  lemma {:induction false} ResolveStable(r: Rasterizer, c: CacheState, cp: Codepoint)
    requires Resolve(r, c, cp).0.Some?
    ensures Resolve(r, Resolve(r, c, cp).1, cp) == Resolve(r, c, cp)
  {
  }

  /** The preload loop of glsfCreateFont: glsfGetGlyph on each decoded codepoint in turn. */
  function Preload(r: Rasterizer, c: CacheState, text: seq<Codepoint>): CacheState
  {
    if text == [] then c else Resolve(r, Preload(r, c, text[..|text| - 1]), text[|text| - 1]).1
  }

  /** Preloading keeps the invariants, only appends, and adds at most one glyph per codepoint. */
  lemma {:induction false} PreloadKeeps(r: Rasterizer, c: CacheState, text: seq<Codepoint>)
    requires Consistent(r.bitmapLoads, c)
    ensures Consistent(r.bitmapLoads, Preload(r, c, text))
    ensures Distinct(c.glyphs) ==> Distinct(Preload(r, c, text).glyphs)
    ensures c.glyphs <= Preload(r, c, text).glyphs
    ensures |Preload(r, c, text).glyphs| <= |c.glyphs| + |text|
  {
    if text != [] {
      var n := |text| - 1;
      PreloadKeeps(r, c, text[..n]);
      var mid := Preload(r, c, text[..n]);
      ResolveKeeps(r, mid, text[n]);
      if IndexOf(mid.glyphs, text[n]).None? {
        ResolveMiss(r, mid, text[n]);
      }
    }
  }
}
