/**
  The atlas packer (glsfLoadTexture): every cached glyph's bitmap goes into one
  texture, side by side in cache order, each at the running sum of the widths
  of the bitmaps placed before it.
*/
module Atlas {
  import opened Glyphs

  /** The atlas texture; only its size is modelled, not the GL handle. */
  datatype Texture = Texture(width: int, height: int)

  predicate Loads(loads: BitmapOracle, g: Glyph)
  {
    loads(Width(g), Height(g))
  }

  /** req_width: the sum of the box widths of all glyphs. */
  function SumWidth(s: seq<Glyph>): int
  {
    if s == [] then 0 else SumWidth(s[..|s| - 1]) + Width(s[|s| - 1])
  }

  /** req_height: the largest box height, starting from 0. */
  function MaxHeight(s: seq<Glyph>): (h: int)
    ensures 0 <= h
  {
    if s == [] then 0
    else
      var h := MaxHeight(s[..|s| - 1]);
      if Height(s[|s| - 1]) > h then Height(s[|s| - 1]) else h
  }

  /** req_height bounds every box height and, unless it is 0, is one of them. */
  lemma {:induction false} MaxHeightIsMax(s: seq<Glyph>)
    ensures forall i :: 0 <= i < |s| ==> Height(s[i]) <= MaxHeight(s)
    ensures MaxHeight(s) == 0 || exists i :: 0 <= i < |s| && Height(s[i]) == MaxHeight(s)
  {
    if s != [] {
      var p := s[..|s| - 1];
      MaxHeightIsMax(p);
      assert forall i :: 0 <= i < |p| ==> p[i] == s[i];
    }
  }

  /** x_offset after the packing loop: the widths of the bitmaps that loaded. */
  function LoadedWidth(loads: BitmapOracle, s: seq<Glyph>): int
  {
    if s == [] then 0
    else LoadedWidth(loads, s[..|s| - 1]) + (if Loads(loads, s[|s| - 1]) then Width(s[|s| - 1]) else 0)
  }

  /** One step of the packing loop: a glyph whose bitmap loads is placed at `x`; otherwise its offset is left as it was. */
  function Place(loads: BitmapOracle, g: Glyph, x: int): Glyph
  {
    if Loads(loads, g) then g.(offset := x) else g
  }

  /** The glyph array after glsfLoadTexture has written the offsets. */
  function Pack(loads: BitmapOracle, s: seq<Glyph>): (r: seq<Glyph>)
    ensures |r| == |s|
  {
    if s == [] then []
    else
      var p := s[..|s| - 1];
      Pack(loads, p) + [Place(loads, s[|s| - 1], LoadedWidth(loads, p))]
  }

  /** Two glyph sequences whose boxes agree position by position. */
  predicate SameShape(s: seq<Glyph>, t: seq<Glyph>)
  {
    |s| == |t| && forall i :: 0 <= i < |s| ==> Width(s[i]) == Width(t[i]) && Height(s[i]) == Height(t[i])
  }

  /** The atlas size and the packing positions depend only on the boxes. */
  lemma {:induction false} SameShapeMeasures(loads: BitmapOracle, s: seq<Glyph>, t: seq<Glyph>)
    requires SameShape(s, t)
    ensures SumWidth(s) == SumWidth(t)
    ensures MaxHeight(s) == MaxHeight(t)
    ensures LoadedWidth(loads, s) == LoadedWidth(loads, t)
  {
    if s != [] {
      var n := |s| - 1;
      assert SameShape(s[..n], t[..n]);
      SameShapeMeasures(loads, s[..n], t[..n]);
    }
  }

  /** Every glyph is placed at the loaded width of the glyphs before it (or keeps its offset if its bitmap fails). */
  lemma {:induction false} PackAt(loads: BitmapOracle, s: seq<Glyph>, i: nat)
    requires i < |s|
    ensures Pack(loads, s)[i] == Place(loads, s[i], LoadedWidth(loads, s[..i]))
  {
    var n := |s| - 1;
    if i < n {
      PackAt(loads, s[..n], i);
      assert s[..n][..i] == s[..i];
    } else {
      assert s[..i] == s[..n];
    }
  }

  /** PackAt for the k-th glyph of a run `t` packed after `s`. */
  lemma {:induction false} PackAppendAt(loads: BitmapOracle, s: seq<Glyph>, t: seq<Glyph>, k: nat)
    requires k < |t|
    ensures Pack(loads, s + t)[|s| + k] == Place(loads, t[k], LoadedWidth(loads, s + t[..k]))
  {
    PackAt(loads, s + t, |s| + k);
    assert (s + t)[..|s| + k] == s + t[..k];
  }

  /** Packing changes nothing but offsets. */
  lemma {:induction false} PackShape(loads: BitmapOracle, s: seq<Glyph>)
    ensures SameShape(s, Pack(loads, s))
    ensures forall i :: 0 <= i < |s| ==> Pack(loads, s)[i] == s[i].(offset := Pack(loads, s)[i].offset)
  {
    forall i | 0 <= i < |s|
      ensures Pack(loads, s)[i] == s[i].(offset := Pack(loads, s)[i].offset)
    {
      PackAt(loads, s, i);
    }
  }

  /** Appending glyphs never moves the glyphs already packed: offsets are prefix-stable. */
  lemma {:induction false} PackPrefix(loads: BitmapOracle, s: seq<Glyph>, t: seq<Glyph>)
    ensures Pack(loads, s + t)[..|s|] == Pack(loads, s)
  {
    forall i | 0 <= i < |s|
      ensures Pack(loads, s + t)[i] == Pack(loads, s)[i]
    {
      PackAt(loads, s + t, i);
      PackAt(loads, s, i);
      assert (s + t)[..i] == s[..i];
    }
  }

  /** Every glyph whose bitmap loads sits at the loaded width of the glyphs before it. */
  predicate Packed(loads: BitmapOracle, s: seq<Glyph>)
  {
    forall i :: 0 <= i < |s| ==> PackedAt(loads, s, i)
  }

  /** Glyph `i` of `s`, if its bitmap loads, sits at the loaded width of the glyphs before it. */
  predicate PackedAt(loads: BitmapOracle, s: seq<Glyph>, i: nat)
    requires i < |s|
  {
    Loads(loads, s[i]) ==> s[i].offset == LoadedWidth(loads, s[..i])
  }

  /** Packing yields packed glyphs, and packed glyphs are exactly those packing leaves alone. */
  lemma {:induction false} PackPacked(loads: BitmapOracle, s: seq<Glyph>)
    ensures Packed(loads, Pack(loads, s))
    ensures Packed(loads, s) <==> Pack(loads, s) == s
  {
    var p := Pack(loads, s);
    forall i | 0 <= i < |s|
      ensures PackedAt(loads, p, i)
      ensures PackedAt(loads, s, i) ==> p[i] == s[i]
    {
      PackPackedAt(loads, s, i);
    }
    if Packed(loads, s) {
      assert forall i :: 0 <= i < |s| ==> PackedAt(loads, s, i);
      assert p == s;
    }
  }

  /** The position-wise step of PackPacked. */
  lemma {:induction false} PackPackedAt(loads: BitmapOracle, s: seq<Glyph>, i: nat)
    requires i < |s|
    ensures PackedAt(loads, Pack(loads, s), i)
    ensures PackedAt(loads, s, i) ==> Pack(loads, s)[i] == s[i]
  {
    var p := Pack(loads, s);
    PackAt(loads, s, i);
    PackShape(loads, s);
    assert SameShape(s[..i], p[..i]);
    SameShapeMeasures(loads, s[..i], p[..i]);
    assert Loads(loads, p[i]) == Loads(loads, s[i]);
  }

  /** Repacking an already packed sequence changes nothing. */
  lemma {:induction false} PackIdempotent(loads: BitmapOracle, s: seq<Glyph>)
    ensures Pack(loads, Pack(loads, s)) == Pack(loads, s)
  {
    PackPacked(loads, s);
    PackPacked(loads, Pack(loads, s));
  }

  /** When every bitmap loads, each glyph's offset is the sum of the widths of the glyphs before it. */
  lemma {:induction false} AllLoadedWidth(loads: BitmapOracle, s: seq<Glyph>)
    requires forall i :: 0 <= i < |s| ==> Loads(loads, s[i])
    ensures LoadedWidth(loads, s) == SumWidth(s)
  {
    if s != [] {
      AllLoadedWidth(loads, s[..|s| - 1]);
    }
  }

  lemma {:induction false} AllLoadedOffsets(loads: BitmapOracle, s: seq<Glyph>, i: nat)
    requires forall k :: 0 <= k < |s| ==> Loads(loads, s[k])
    requires i < |s|
    ensures Pack(loads, s)[i].offset == SumWidth(s[..i])
  {
    PackAt(loads, s, i);
    AllLoadedWidth(loads, s[..i]);
  }

  /** The loaded width only grows along the sequence when widths are not negative. */
  lemma {:induction false} LoadedWidthMono(loads: BitmapOracle, s: seq<Glyph>, i: nat, j: nat)
    requires i <= j <= |s|
    requires forall k :: 0 <= k < |s| ==> 0 <= Width(s[k])
    ensures 0 <= LoadedWidth(loads, s[..i]) <= LoadedWidth(loads, s[..j])
  {
    if i < j {
      LoadedWidthMono(loads, s, i, j - 1);
      assert s[..j][..j - 1] == s[..j - 1];
    } else if 0 < i {
      LoadedWidthMono(loads, s, i - 1, i - 1);
      assert s[..i][..i - 1] == s[..i - 1];
    }
  }

  /**
    Slots of loaded glyphs never overlap and lie inside the atlas: for glyphs
    i < j whose bitmaps load, slot i ends where slot j starts or before, and
    every slot ends within the loaded width.
  */
  lemma {:induction false} PackSlotsDisjoint(loads: BitmapOracle, s: seq<Glyph>, i: nat, j: nat)
    requires forall k :: 0 <= k < |s| ==> 0 <= Width(s[k])
    requires i < j < |s| && Loads(loads, s[i]) && Loads(loads, s[j])
    ensures 0 <= Pack(loads, s)[i].offset
    ensures Pack(loads, s)[i].offset + Width(s[i]) <= Pack(loads, s)[j].offset
    ensures Pack(loads, s)[j].offset + Width(s[j]) <= LoadedWidth(loads, s)
  {
    PackAt(loads, s, i);
    PackAt(loads, s, j);
    LoadedWidthMono(loads, s, i, i);
    LoadedWidthMono(loads, s, i + 1, j);
    LoadedWidthMono(loads, s, j + 1, |s|);
    assert s[..i + 1][..i] == s[..i];
    assert s[..j + 1][..j] == s[..j];
    assert s[..|s|] == s;
  }

  lemma {:induction false} SumWidthAppend(s: seq<Glyph>, t: seq<Glyph>)
    ensures SumWidth(s + t) == SumWidth(s) + SumWidth(t)
  {
    if t != [] {
      var n := |t| - 1;
      SumWidthAppend(s, t[..n]);
      assert (s + t)[..|s + t| - 1] == s + t[..n];
    } else {
      assert s + t == s;
    }
  }

  lemma {:induction false} MaxHeightAppend(s: seq<Glyph>, t: seq<Glyph>)
    ensures MaxHeight(s + t) == if MaxHeight(s) < MaxHeight(t) then MaxHeight(t) else MaxHeight(s)
  {
    if t != [] {
      var n := |t| - 1;
      MaxHeightAppend(s, t[..n]);
      assert (s + t)[..|s + t| - 1] == s + t[..n];
    } else {
      assert s + t == s;
    }
  }

  /** The first loop of glsfLoadTexture: the atlas size the glyphs need. */
  method MeasureAtlas(glyphs: array<Glyph>) returns (width: int, height: int)
    ensures width == SumWidth(glyphs[..]) && height == MaxHeight(glyphs[..])
  {
    width, height := 0, 0;
    var i := 0;
    while i < glyphs.Length
      invariant 0 <= i <= glyphs.Length
      invariant width == SumWidth(glyphs[..i]) && height == MaxHeight(glyphs[..i])
    {
      assert glyphs[..i + 1][..i] == glyphs[..i];
      var w := glyphs[i].x1 - glyphs[i].x0;
      var h := glyphs[i].y1 - glyphs[i].y0;
      width := width + w;
      if h > height {
        height := h;
      }
      i := i + 1;
    }
    assert glyphs[..i] == glyphs[..];
  }

  /**
    glsfLoadTexture: fails, writing nothing, when the atlas would be narrower
    or lower than 2 pixels; otherwise returns a texture of exactly the required
    size and writes every loaded glyph's offset in place.
  */
  method LoadTexture(glyphs: array<Glyph>, loads: BitmapOracle) returns (ok: bool, texture: Texture)
    modifies glyphs
    ensures ok <==> 2 <= SumWidth(old(glyphs[..])) && 2 <= MaxHeight(old(glyphs[..]))
    ensures ok ==> texture == Texture(SumWidth(old(glyphs[..])), MaxHeight(old(glyphs[..])))
    ensures ok ==> glyphs[..] == Pack(loads, old(glyphs[..]))
    ensures !ok ==> glyphs[..] == old(glyphs[..])
  {
    var reqWidth, reqHeight := MeasureAtlas(glyphs);
    if reqWidth < 2 || reqHeight < 2 {
      return false, Texture(0, 0);
    }
    texture := Texture(reqWidth, reqHeight);
    ghost var orig := glyphs[..];
    var xOffset := 0;
    var i := 0;
    while i < glyphs.Length
      invariant 0 <= i <= glyphs.Length
      invariant glyphs[..i] == Pack(loads, orig[..i])
      invariant forall j :: i <= j < glyphs.Length ==> glyphs[j] == orig[j]
      invariant xOffset == LoadedWidth(loads, orig[..i])
    {
      assert orig[..i + 1][..i] == orig[..i];
      ghost var placed := Place(loads, orig[i], xOffset);
      assert Pack(loads, orig[..i + 1]) == Pack(loads, orig[..i]) + [placed];
      var width := glyphs[i].x1 - glyphs[i].x0;
      var height := glyphs[i].y1 - glyphs[i].y0;
      if loads(width, height) {
        glyphs[i] := glyphs[i].(offset := xOffset);
        xOffset := xOffset + width;
      }
      assert glyphs[i] == placed;
      assert glyphs[..i + 1] == glyphs[..i] + [placed];
      i := i + 1;
    }
    assert orig[..i] == orig;
    assert glyphs[..i] == glyphs[..];
    ok := true;
  }

  /**
    The repacking step of glsfUpdateFont: a fresh array holding `s` is handed
    to glsfLoadTexture, and the packed glyphs come back as a sequence.
  */
  method PackCopy(s: seq<Glyph>, loads: BitmapOracle) returns (ok: bool, packed: seq<Glyph>, texture: Texture)
    ensures ok <==> 2 <= SumWidth(s) && 2 <= MaxHeight(s)
    ensures ok ==> packed == Pack(loads, s) && texture == Texture(SumWidth(s), MaxHeight(s))
  {
    var copy := new Glyph[|s|];
    forall k | 0 <= k < |s| {
      copy[k] := s[k];
    }
    assert copy[..] == s;
    ok, texture := LoadTexture(copy, loads);
    packed := copy[..];
  }
}
