# glsf: glyph cache, atlas packer and vertex batch

glsf (`glsf.h`) is a single-header C library that draws text with OpenGL. A
`GLSFfont` keeps a cache of glyph records in insertion order. All their
bitmaps are packed side by side into one atlas texture. Text is laid out into
a vertex buffer of textured quads and drawn in one call.

This project models, in Dafny, the part of the library that is integer and
sequence logic:

- `atlas.dfy` (module `Atlas`): the packing step of `glsfLoadTexture`. The
  texture is as wide as the summed box widths and as high as the tallest box,
  and a size below 2 in either direction is rejected. Each glyph whose bitmap
  loads gets, as its x-offset, the widths of the loaded bitmaps before it. The
  two loops are array methods proved equal to the recursive functions
  `SumWidth`, `MaxHeight` and `Pack`.
- `glyph.dfy` (module `Glyphs`): the glyph record and `glsfLoadGlyph`. The
  font parser and rasterizer is a `Rasterizer` value of total functions.
- `cache.dfy` (module `Cache`): the glyph cache as a value. It covers the
  linear search, the repacking of `glsfUpdateFont` (`Rebuild`), `glsfGetGlyph`
  (`Resolve`, which returns the answer and the new cache) and the preload fold
  of `glsfCreateFont`.
- `layout.dfy` (module `Layout`): the layout loop of `glsfEnqueueString` as a
  state machine (`Step`, `Arrange`, `Run`) over a cursor, the cache and the
  glyphs placed so far. It also defines the six vertices `glsfEnqueueGlyph`
  writes for one glyph (`Quad`, `Vertices`).
- `font.dfy` (module `Glsf`): class `Font`, the mutable `GLSFfont`. It holds
  the glyph sequence, the texture size, the vertex `array`, `numVertices` and
  `maxVertices`. Its methods update these in place, as the C functions do.
  Each is proved to leave the font exactly as the functions of `Cache` and
  `Layout` say. The invariant `Valid()` holds throughout:
  - `numVertices <= maxVertices == vertices.Length`;
  - every glyph's offset is where packing put it;
  - the texture is exactly the packed size.
- `wrappers.dfy`: `Option`, used for C's NULL and for failure returns.

Coordinates, sizes and advances are mathematical integers. A glyph's
`advance` is the pixel advance the source computes as `advance * scale`.
The line height `adv_y` is the atlas height read once when
`glsfEnqueueString` starts; later rebuilds in the same call leave it as it
was. `Layout.RunTidy` (no overlap, reading order) needs a positive line
height. With an empty atlas on entry the height is 0, so after a newline the
glyphs of the next line are placed on top of those of the line before.

The model follows the code as written:

- On a miss, `glsfGetGlyph` calls itself once more (glsf.h:264) rather than
  returning the new entry directly, which is the commented-out alternative at
  glsf.h:265. `Cache.ResolveMiss` proves that this second lookup finds the new
  entry, at the old cache length, so both return the same glyph.
  `Glsf.Font.GetGlyph` proves the recursion stops after that one call.
- The only rebuild failure the model represents is a degenerate atlas size
  (glsf.h:160-163); a missing glyph index fails before any rebuild. The
  failed `malloc` of the new glyph array (glsf.h:217-219) also leaves the
  font untouched, but allocation failure is not modelled (see "Left out").
  GL texture creation is never checked. A bitmap that fails to load is
  skipped, and its glyph keeps whatever offset it had. For a freshly loaded
  glyph that offset was never written (`Rasterizer.uninitialised`).

## Model

| member | source | states |
|---|---|---|
| Atlas.MeasureAtlas | glsf.h:149-158 | the first loop of glsfLoadTexture computes req_width as the sum of the box widths and req_height as the largest box height (0 for no glyphs) |
| Atlas.MaxHeight | glsf.h:150-158 | req_height starts at 0 and never decreases, so it is never negative |
| Atlas.MaxHeightIsMax | glsf.h:152-158 | req_height is at least every glyph's box height and, unless 0, equals one of them |
| Atlas.LoadTexture | glsf.h:146-197 | succeeds exactly when width >= 2 and height >= 2; then the texture has exactly that size and every glyph's offset is the one packing gives it (Pack); on failure no glyph is written |
| Atlas.PackCopy | glsf.h:215-228 | the old and new glyphs copied into a fresh array and packed: succeeds exactly on a non-degenerate size and returns the packed glyphs and the texture size |
| Atlas.Pack | glsf.h:179-192 | packing keeps one record per glyph |
| Atlas.PackAt | glsf.h:179-192 | glyph i, if its bitmap loads, sits at the summed widths of the loaded bitmaps before it; otherwise it keeps its offset |
| Atlas.PackAppendAt | glsf.h:179-192 | the same for the k-th glyph of a run appended after others |
| Atlas.PackShape | glsf.h:179-192 | packing changes nothing but offsets, so boxes, codepoints and advances are kept |
| Atlas.SameShapeMeasures | glsf.h:149-158 | the atlas size and the packing positions depend only on the glyph boxes, not on offsets |
| Atlas.PackPrefix | glsf.h:179-189 | appending glyphs never moves the glyphs already packed: offsets are prefix-stable |
| Atlas.PackPacked | glsf.h:179-192 | packed glyphs satisfy the offset rule, and a sequence satisfies it exactly when packing leaves it unchanged |
| Atlas.PackPackedAt | glsf.h:179-192 | the offset rule at one position, before and after packing |
| Atlas.PackIdempotent | glsf.h:179-192 | packing twice is packing once |
| Atlas.AllLoadedWidth | glsf.h:179-189 | when every bitmap loads, the final x_offset is the atlas width |
| Atlas.AllLoadedOffsets | glsf.h:179-189 | when every bitmap loads, glyph i's offset is the sum of the widths before it |
| Atlas.LoadedWidthMono | glsf.h:179-189 | with non-negative widths, x_offset never decreases along the loop |
| Atlas.PackSlotsDisjoint | glsf.h:179-189 | slots of loaded bitmaps do not overlap, follow cache order and end within the loaded width |
| Atlas.SumWidth | glsf.h:152-155 | definition of req_width, the sum of the box widths; its properties are in Atlas.SumWidthAppend, Atlas.SameShapeMeasures and Atlas.AllLoadedWidth |
| Atlas.LoadedWidth | glsf.h:179-189 | definition of x_offset after the packing loop, the widths of the bitmaps that loaded; its properties are in Atlas.LoadedWidthMono, Atlas.AllLoadedWidth and Atlas.PackSlotsDisjoint |
| Atlas.Place | glsf.h:182-189 | definition of one packing step: a glyph whose bitmap loads gets the offset, any other is left as it was; its properties are in Atlas.PackAt and Atlas.PackShape |
| Atlas.SumWidthAppend | glsf.h:152-155 | the width of old ++ new is the old width plus the new |
| Atlas.MaxHeightAppend | glsf.h:152-158 | the height of old ++ new is the larger of the two heights |
| Glyphs.LoadGlyph | glsf.h:83-106 | fails exactly when the glyph index is 0; otherwise the record carries the codepoint, that index, and the index's bitmap box corners and advance |
| Cache.IndexOf | glsf.h:249-252 | a found position is in range and holds the codepoint |
| Cache.IndexFrom | glsf.h:249-252 | a position found from k on is at least k, in range, and holds the codepoint |
| Cache.IndexFromFirst | glsf.h:249-252 | the search from k finds the first match, and finds none exactly when no glyph from k on matches |
| Cache.IndexOfFirst | glsf.h:249-252 | the lookup answers the first matching entry, and NULL exactly when no cached glyph has the codepoint |
| Cache.FindGlyph | glsf.h:249-252 | the search loop returns what IndexOf specifies |
| Cache.Rebuild | glsf.h:216-231 | a successful rebuild has one entry per old and new glyph |
| Cache.RebuildConsistent | glsf.h:216-238 | a successful rebuild yields glyphs with packing's offsets and a texture of exactly their size |
| Cache.RebuildSize | glsf.h:149-166 | the rebuild fails exactly when old width plus new widths, or the larger of the heights, is below 2; on success the texture has that size |
| Cache.RebuildAppends | glsf.h:221-238 | on success the old glyphs come back unchanged, offsets included, and each new glyph is placed after all glyphs before it |
| Cache.RebuildOne | glsf.h:255-260 | rebuilding with a single new glyph appends it at the loaded width of the old glyphs |
| Cache.Resolve | glsf.h:246-266 | a returned index is in range and holds the requested codepoint |
| Cache.ResolveHit | glsf.h:249-252 | a hit returns the first matching entry and leaves the cache unchanged |
| Cache.ResolveMiss | glsf.h:254-264 | a miss returns NULL, with the cache unchanged, exactly when the glyph index is 0 or the rebuild fails; otherwise the cache grows by exactly the new glyph, packed after the old ones, and the second lookup returns it |
| Cache.ResolveKeeps | glsf.h:246-266 | glsfGetGlyph keeps the atlas invariant, only appends, and never caches a codepoint twice |
| Cache.ResolveStable | glsf.h:246-266 | a codepoint once resolved resolves again to the same entry with no change |
| Cache.Preload | glsf.h:316-320 | definition of the preload loop as a fold of glsfGetGlyph (Resolve) over the decoded codepoints; its properties are in Cache.PreloadKeeps and Glsf.Font.constructor |
| Cache.PreloadKeeps | glsf.h:313-320 | the preload loop keeps the atlas invariant and distinct codepoints, only appends, and adds at most one glyph per codepoint |
| Layout.Quad | glsf.h:355-402 | a glyph contributes exactly six vertices |
| Layout.QuadShape | glsf.h:363-402 | vertex 1 = vertex 3 and vertex 2 = vertex 5; the quad spans the glyph box from the pen x and below the flipped baseline; every vertex carries the colour; texture coordinates follow the position from the glyph's atlas offset |
| Layout.Vertices | glsf.h:385-402 | the batch of n placed glyphs has 6n vertices |
| Layout.VerticesSnoc | glsf.h:468 | placing one more glyph appends exactly its quad to the batch |
| Layout.Step | glsf.h:444-471 | definition of one iteration of the layout loop; its properties are in Layout.StepRules, Layout.StepTidy and Glsf.Font.EnqueueCodepoint |
| Layout.Arrange | glsf.h:451-471 | definition of an iteration after glsfGetGlyph has answered; its properties are in Layout.StepRules, Layout.StepIsArrange and Glsf.Font.EnqueueFound |
| Layout.Run | glsf.h:440-472 | definition of the layout loop over the decoded codepoints; its properties are in Layout.RunSnoc, Layout.RunPlacesAtMostOne, Layout.RunKeepsCache, Layout.RunFitsWidth, Layout.RunTidy and Glsf.Font.EnqueueString |
| Layout.Start | glsf.h:439 | definition of the loop's starting state: pen at (0, 0), nothing placed; used by Glsf.Font.EnqueueString |
| Layout.StepRules | glsf.h:444-471 | newline: x := 0, y += adv_y; an unresolved glyph and a space at x = 0 are skipped; a glyph with x + advance > width first wraps to (0, y + adv_y); a placed glyph goes at (x + rect x, y + rect y) and x grows by its advance; anything else is placed |
| Layout.StepIsArrange | glsf.h:451-471 | a non-newline codepoint is resolved through the cache, then arranged |
| Layout.RunSnoc | glsf.h:440-472 | one more codepoint is one more iteration of the loop |
| Layout.RunPlacesAtMostOne | glsf.h:440-472 | each codepoint places at most one glyph, and placed glyphs stay placed |
| Layout.RunKeepsCache | glsf.h:451 | glyph lookups during layout keep the atlas invariant and distinct codepoints, and only append |
| Layout.RunFitsWidth | glsf.h:462-466 | no placed glyph crosses the right edge of the rectangle unless it starts its line |
| Layout.StepTidy | glsf.h:444-471 | with a positive line height, one iteration keeps placed glyphs in reading order and free of overlap, the cursor after the last one |
| Layout.RunTidy | glsf.h:436-472 | with a positive line height, a whole string's glyphs are in reading order and do not overlap |
| Glsf.Font.constructor | glsf.h:309-320 | a fresh font has 128 vertex slots, none queued, and the cache the preload fold gives, with distinct codepoints |
| Glsf.Font.UpdateFont | glsf.h:212-241 | succeeds exactly when Rebuild does and then adopts its glyphs and texture; the old glyphs are a prefix, the count grows by the number added, and the texture becomes (old width + new widths, larger height); on failure the font is unchanged |
| Glsf.Font.GetGlyph | glsf.h:246-266 | answers and leaves the cache exactly as Resolve does, and the recursive call stops after one step; the answer holds the codepoint; distinct codepoints stay distinct; the vertex buffer is untouched |
| Glsf.Font.EnqueueGlyph | glsf.h:345-405 | with no room for six more vertices nothing changes; otherwise exactly the glyph's quad is appended after the old count, and the capacity is kept |
| Glsf.Font.Reserve | glsf.h:422-433 | when fewer slots are free than needed, the buffer becomes exactly the count plus the need; the queued vertices are kept and capacity never shrinks |
| Glsf.Font.EnqueueCodepoint | glsf.h:440-471 | one iteration of the layout loop leaves the cursor, cache and queue as Layout.Step says |
| Glsf.Font.EnqueueFound | glsf.h:452-471 | after glsfGetGlyph has answered: the cursor and placement follow Layout.Arrange, and the queue grows by exactly the placed glyph's quad, or not at all |
| Glsf.Font.EnqueueString | glsf.h:410-473 | grows the buffer to fit six vertices per codepoint, then queues exactly the vertices of the layout Run with the entry line height; no glyph is dropped for lack of room; the cache ends as Run leaves it |
| Glsf.Font.RenderFont | glsf.h:478-523 | hands every queued vertex to the draw call and resets the count to 0, keeping buffer and capacity |
| Glsf.Font.DrawString | glsf.h:525-530 | draws the previously queued vertices followed by those of the string's layout, leaving nothing queued |

## Left out

- GL calls: texture creation and upload, state save and restore, and the draw call (glsf.h:169-176, glsf.h:185-186, glsf.h:481-519). A texture is only its width and height, and the GL name is not modelled. The draw call is the sequence `RenderFont` returns.
- Floating point: vertex and texture coordinates are modelled in pixel space. The viewport shift, the division by viewport and texture sizes (glsf.h:351-383) and float rounding are not modelled. So the model does not capture that vertices queued before a rebuild keep texture coordinates normalised by the old atlas width. Nor does it capture that vertex y subtracts `th`, the atlas height at enqueue time (glsf.h:361, glsf.h:376-377), so a rebuild that raises the atlas height during `glsfEnqueueString` shifts the later glyphs vertically relative to the earlier ones.
- stb_truetype: glyph index, metrics, scale and rasterisation are an oracle (`Glyphs.Rasterizer`). The font's `size` (read at glsf.h:95 to compute the scale) is folded into that oracle.
- Glyphs.BitmapOracle: whether a bitmap loads (its malloc, glsf.h:118-123) is a deterministic function of the bitmap's width and height. In the source a transient allocation failure in a later rebuild leaves that glyph at its old offset and shifts every later loaded glyph left (glsf.h:182-189). The model does not capture that: `Atlas.PackPrefix`, `Cache.RebuildAppends` and the packing part of `Glsf.Font.Valid()` rely on the determinism.
- The UTF-8 decoder (`decutf8`, in utf8.h) is not part of this model. `EnqueueString` and the constructor take the decoded codepoints, and the count of decoded codepoints is the length of that sequence.
- `glsfCreateFont`'s file reading, font parsing and their failure paths (glsf.h:274-307), and allocation failure of the vertex buffer, of the glyph array in `glsfUpdateFont` (glsf.h:217-219) and of the grown buffer (glsf.h:428). These are I/O and memory plumbing. The model always allocates.
- `glsfDestroyFont`, `glsfFreeBitmap` and `glsfFreeTexture`: only memory and GL release.
- Integer widths: `int32_t` sums and `size_t` counts are unbounded integers, so overflow is not modelled.
- The font's ascent, descent and linegap fields are written at glsf.h:304-305 and never read. `size` is read only to compute the scale (glsf.h:95), which the rasterizer oracle covers.
- glsf.hpp (a forwarding C++ wrapper) and the example programs.
- Glyphs.LoadGlyph: the glyph's `scale` field is not kept; it is folded into the pixel `advance`.
- Glyphs.Metrics.advance: the pixel advance is a `nat`. The source does not guarantee this: `adv_x = advance * scale` (glsf.h:460), `scale` comes from the caller's unchecked `size` (glsf.h:95, glsf.h:306), and stb reads the advance width as a signed value. `Layout.StepTidy` and `Layout.RunTidy` rely on it: a negative advance moves the pen left, and glyphs could overlap.
