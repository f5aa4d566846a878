/**
 * Building one font atlas on a cache miss in `search_font`: the square power-of-two
 * atlas side computed from the glyph count and line height, and the greedy row packer
 * that places every glyph bitmap of the face, left to right and top to bottom, in
 * character-map order. Each `glTexSubImage2D` is recorded as the rectangle it writes.
 */
module FontAtlas {
  import opened Wrappers
  import opened FontFace

  /**
   * `Glyph` of renderer.c: the code point, the advance in whole pixels, the bitmap
   * bearings, the bitmap size and its place in the atlas. Bearings are kept signed.
   */
  datatype Glyph = Glyph(code: nat, advance: int, bl: int, bt: int, width: nat, height: nat, tx: int, ty: int)

  /** One `glTexSubImage2D` into the atlas texture: the rectangle it writes. */
  datatype Upload = Upload(x: int, y: int, w: nat, h: nat)

  /** `CachedFont`: the cache key, the atlas size and uploads, the glyph list and the open face. */
  datatype CachedFont = CachedFont(pt: int, style: int, atlasWidth: int, atlasHeight: int,
                                   glyphs: seq<Glyph>, uploads: seq<Upload>, face: Face)

  /** `ceilf(sqrtf(n))` on whole numbers: the least `r` with `n <= r * r`. */
  function CeilSqrt(n: nat): (r: nat)
    ensures n <= r * r
    ensures r == 0 || (r - 1) * (r - 1) < n
  {
    CeilSqrtFrom(n, 0)
  }

  function CeilSqrtFrom(n: nat, r: nat): (s: nat)
    requires r == 0 || (r - 1) * (r - 1) < n
    ensures n <= s * s
    ensures s == 0 || (s - 1) * (s - 1) < n
    decreases n - r
  {
    if n <= r * r then r
    else
      assert r <= r * r;
      CeilSqrtFrom(n, r + 1)
  }

  predicate IsPow2(n: int)
    decreases if n > 0 then n else 0
  {
    n == 1 || (n > 1 && n % 2 == 0 && IsPow2(n / 2))
  }

  /** Between two powers of two lies a factor of at least two. */
  lemma {:induction false} Pow2Gap(a: int, b: int)
    requires IsPow2(a) && IsPow2(b) && a < b
    ensures 2 * a <= b
    decreases b
  {
    if a > 1 {
      Pow2Gap(a / 2, b / 2);
    }
  }

  /** Doubling a power of two below `n` keeps "every smaller power of two is below `n`". */
  lemma Pow2Step(p: int, n: int)
    requires IsPow2(p) && p < n
    requires forall m :: IsPow2(m) && m < p ==> m < n
    ensures IsPow2(2 * p)
    ensures forall m :: IsPow2(m) && m < 2 * p ==> m < n
  {
    assert (2 * p) / 2 == p;
    forall m | IsPow2(m) && m < 2 * p
      ensures m < n
    {
      if p < m {
        Pow2Gap(p, m);
      }
    }
  }

  function Pow2AtLeastFrom(n: int, p: int): (q: int)
    requires IsPow2(p)
    requires forall m :: IsPow2(m) && m < p ==> m < n
    ensures IsPow2(q) && p <= q && n <= q
    ensures forall m :: IsPow2(m) && n <= m ==> q <= m
    decreases if n > p then n - p else 0
  {
    if n <= p then p
    else
      Pow2Step(p, n);
      Pow2AtLeastFrom(n, 2 * p)
  }

  /** The smallest power of two that is at least `n` (and at least 1). */
  function Pow2Ceil(n: int): (q: int)
    ensures IsPow2(q) && 1 <= q && n <= q
    ensures forall m :: IsPow2(m) && n <= m ==> q <= m
  {
    Pow2AtLeastFrom(n, 1)
  }

  /** `tex_width = 1; while (tex_width < max_dim) tex_width <<= 1;` */
  method AtlasSide(maxDim: int) returns (side: int)
    ensures side == Pow2Ceil(maxDim)
  {
    side := 1;
    while side < maxDim
      invariant IsPow2(side)
      invariant forall m :: IsPow2(m) && m < side ==> m < maxDim
      decreases maxDim - side
    {
      Pow2Step(side, maxDim);
      side := side * 2;
    }
    var q := Pow2Ceil(maxDim);
    assert q <= side && side <= q;
  }

  /** The packing cursor of `search_font`: `x`, `y` and `max_row_h`. */
  datatype Cursor = Cursor(x: int, y: int, maxRowH: int)

  datatype Packing = Packing(cursor: Cursor, glyphs: seq<Glyph>)

  /** The glyph record stored for a bitmap placed at `(tx, ty)`; `advance.x >> 6` floors the 26.6 advance. */
  function GlyphAt(b: GlyphBitmap, tx: int, ty: int): (g: Glyph)
    ensures g.code == b.code && g.width == b.width && g.height == b.rows
    ensures g.bl == b.left && g.bt == b.top && g.tx == tx && g.ty == ty
    ensures 64 * g.advance <= b.advanceX < 64 * g.advance + 64
  {
    Glyph(b.code, b.advanceX / 64, b.left, b.top, b.width, b.rows, tx, ty)
  }

  /**
   * One iteration of the packing loop. `max_row_h` takes the current bitmap's rows
   * before the wrap test, so a bitmap that wraps is counted in the row it leaves.
   */
  function Place(p: Packing, b: GlyphBitmap, texWidth: int): (r: Packing)
    ensures |r.glyphs| == |p.glyphs| + 1 && r.glyphs[..|p.glyphs|] == p.glyphs
    ensures var g := r.glyphs[|p.glyphs|];
      && g == GlyphAt(b, g.tx, g.ty)
      && r.cursor.x == g.tx + b.width && r.cursor.y == g.ty
  {
    var c := p.cursor;
    var rowH := if b.rows > c.maxRowH then b.rows else c.maxRowH;
    if c.x + b.width > texWidth then
      Packing(Cursor(b.width, c.y + rowH, 0), p.glyphs + [GlyphAt(b, 0, c.y + rowH)])
    else
      Packing(Cursor(c.x + b.width, c.y, rowH), p.glyphs + [GlyphAt(b, c.x, c.y)])
  }

  /** The packing loop run over `bs` from the cursor `(0, 0, 0)`. */
  function Pack(bs: seq<GlyphBitmap>, texWidth: int): (p: Packing)
    ensures |p.glyphs| == |bs|
    decreases |bs|
  {
    if bs == [] then Packing(Cursor(0, 0, 0), [])
    else Place(Pack(bs[..|bs| - 1], texWidth), bs[|bs| - 1], texWidth)
  }

  /**
   * What packing keeps: one glyph per bitmap, in order, carrying that bitmap's code,
   * metrics and size; offsets are non-negative; rows never go back up; the cursor sits
   * just right of the last glyph, on its row.
   */
  lemma {:induction false} PackInvariant(bs: seq<GlyphBitmap>, texWidth: int)
    ensures var p := Pack(bs, texWidth);
      && |p.glyphs| == |bs|
      && (forall i :: 0 <= i < |bs| ==> p.glyphs[i] == GlyphAt(bs[i], p.glyphs[i].tx, p.glyphs[i].ty))
      && (forall i :: 0 <= i < |bs| ==> 0 <= p.glyphs[i].tx && 0 <= p.glyphs[i].ty <= p.cursor.y)
      && (forall i, j :: 0 <= i <= j < |bs| ==> p.glyphs[i].ty <= p.glyphs[j].ty)
      && 0 <= p.cursor.x && 0 <= p.cursor.y && 0 <= p.cursor.maxRowH
      && (bs != [] ==> p.cursor.x == p.glyphs[|bs| - 1].tx + p.glyphs[|bs| - 1].width
                       && p.cursor.y == p.glyphs[|bs| - 1].ty)
    decreases |bs|
  {
    if bs != [] {
      var init := bs[..|bs| - 1];
      PackInvariant(init, texWidth);
      var p0 := Pack(init, texWidth);
      var p := Pack(bs, texWidth);
      var g := p.glyphs[|init|];
      assert p == Place(p0, bs[|bs| - 1], texWidth);
      assert p.glyphs == p0.glyphs + [g];
      assert 0 <= g.tx && p0.cursor.y <= g.ty == p.cursor.y;
      forall i | 0 <= i < |bs|
        ensures p.glyphs[i] == GlyphAt(bs[i], p.glyphs[i].tx, p.glyphs[i].ty)
        ensures 0 <= p.glyphs[i].tx && 0 <= p.glyphs[i].ty <= p.cursor.y
      {
        if i < |init| {
          assert bs[i] == init[i] && p.glyphs[i] == p0.glyphs[i];
        }
      }
      forall i, j | 0 <= i <= j < |bs|
        ensures p.glyphs[i].ty <= p.glyphs[j].ty
      {
        if j < |init| {
          assert p.glyphs[i] == p0.glyphs[i] && p.glyphs[j] == p0.glyphs[j];
        } else if i < |init| {
          assert p.glyphs[i] == p0.glyphs[i];
        }
      }
    }
  }

  /** Packing more bitmaps never moves the glyphs already placed. */
  lemma {:induction false} PackPrefix(bs: seq<GlyphBitmap>, texWidth: int, k: nat)
    requires k <= |bs|
    ensures |Pack(bs, texWidth).glyphs| == |bs|
    ensures Pack(bs[..k], texWidth).glyphs == Pack(bs, texWidth).glyphs[..k]
    decreases |bs|
  {
    PackInvariant(bs, texWidth);
    if k < |bs| {
      var init := bs[..|bs| - 1];
      assert init[..k] == bs[..k];
      PackPrefix(init, texWidth, k);
      PackInvariant(init, texWidth);
    } else {
      assert bs[..k] == bs;
    }
  }

  /**
   * The row rule between consecutive glyphs. Glyph `i` wraps exactly when it does not
   * fit right of glyph `i - 1`; it then starts at `tx == 0`, `max_row_h` lower, and the
   * row height it adds includes its own height. Otherwise it sits right after glyph
   * `i - 1` on the same row.
   */
  lemma PackConsecutive(bs: seq<GlyphBitmap>, texWidth: int, i: nat)
    requires 0 < i < |bs|
    ensures var gs := Pack(bs, texWidth).glyphs;
      var rowH := Pack(bs[..i], texWidth).cursor.maxRowH;
      && |gs| == |bs|
      && (gs[i - 1].tx + gs[i - 1].width + gs[i].width > texWidth ==>
            && gs[i].tx == 0
            && gs[i].ty == gs[i - 1].ty + (if gs[i].height > rowH then gs[i].height else rowH)
            && gs[i].ty >= gs[i - 1].ty + gs[i].height)
      && (gs[i - 1].tx + gs[i - 1].width + gs[i].width <= texWidth ==>
            gs[i].tx == gs[i - 1].tx + gs[i - 1].width && gs[i].ty == gs[i - 1].ty)
  {
    var pre := bs[..i];
    var pre1 := bs[..i + 1];
    assert pre1[..|pre1| - 1] == pre;
    PackInvariant(pre, texWidth);
    PackInvariant(pre1, texWidth);
    PackInvariant(bs, texWidth);
    PackPrefix(bs, texWidth, i + 1);
    PackPrefix(bs, texWidth, i);
    assert Pack(pre1, texWidth).glyphs[i - 1] == Pack(bs, texWidth).glyphs[i - 1];
  }

  /**
   * The first glyph starts at the atlas origin, unless it is wider than the atlas: then
   * the wrap test fires at once and it starts one row of its own height lower.
   */
  lemma PackFirst(bs: seq<GlyphBitmap>, texWidth: int)
    requires 0 < |bs|
    ensures var g := Pack(bs, texWidth).glyphs[0];
      && g.tx == 0
      && g.ty == (if bs[0].width > texWidth && bs[0].rows > 0 then bs[0].rows else 0)
  {
    PackPrefix(bs, texWidth, 1);
    var first := bs[..1];
    assert first[..0] == [];
  }

  /** A bitmap no wider than the atlas always ends inside it horizontally. */
  lemma {:induction false} PackWithinWidth(bs: seq<GlyphBitmap>, texWidth: int, i: nat)
    requires i < |bs| && bs[i].width <= texWidth
    ensures var gs := Pack(bs, texWidth).glyphs;
      |gs| == |bs| && gs[i].tx + gs[i].width <= texWidth
  {
    PackInvariant(bs, texWidth);
    PackPrefix(bs, texWidth, i + 1);
    var pre1 := bs[..i + 1];
    assert pre1[..|pre1| - 1] == bs[..i];
    assert pre1[|pre1| - 1] == bs[i];
    PackInvariant(bs[..i], texWidth);
  }

  /**
   * The packer does not keep rectangles apart: a bitmap that wraps is not counted in the
   * height of its own row, so the next row can start inside it. Here, in a 4-pixel wide
   * atlas, the second bitmap (5 rows) opens row 2 at y = 5 and the third opens row 3 at
   * y = 6, on top of it.
   */
  lemma PackCanOverlap()
    ensures var bs := [GlyphBitmap(65, 3, 1, 0, 0, 1), GlyphBitmap(66, 3, 5, 0, 0, 5), GlyphBitmap(67, 3, 1, 0, 0, 1)];
      var gs := Pack(bs, 4).glyphs;
      && |gs| == 3
      && gs[1].tx == gs[2].tx == 0
      && gs[1].ty < gs[2].ty < gs[1].ty + gs[1].height
  {
    var bs := [GlyphBitmap(65, 3, 1, 0, 0, 1), GlyphBitmap(66, 3, 5, 0, 0, 5), GlyphBitmap(67, 3, 1, 0, 0, 1)];
    assert bs[..1][..0] == [];
    assert Pack(bs[..1], 4) == Packing(Cursor(3, 0, 1), [GlyphAt(bs[0], 0, 0)]);
    assert bs[..2][..1] == bs[..1];
    assert Pack(bs[..2], 4) == Packing(Cursor(3, 5, 0), [GlyphAt(bs[0], 0, 0), GlyphAt(bs[1], 0, 5)]);
    assert bs[..|bs| - 1] == bs[..2];
    assert Pack(bs, 4).glyphs == [GlyphAt(bs[0], 0, 0), GlyphAt(bs[1], 0, 5), GlyphAt(bs[2], 0, 6)];
  }

  function UploadOf(g: Glyph): Upload {
    Upload(g.tx, g.ty, g.width, g.height)
  }

  /** The uploads made while packing `gs`: one per glyph, each writing that glyph's atlas rectangle. */
  function Uploads(gs: seq<Glyph>): (us: seq<Upload>)
    ensures |us| == |gs|
    ensures forall i :: 0 <= i < |gs| ==> us[i] == Upload(gs[i].tx, gs[i].ty, gs[i].width, gs[i].height)
  {
    if gs == [] then [] else Uploads(gs[..|gs| - 1]) + [UploadOf(gs[|gs| - 1])]
  }

  lemma PackStep(bs: seq<GlyphBitmap>, texWidth: int, k: nat)
    requires k < |bs|
    ensures Pack(bs[..k + 1], texWidth) == Place(Pack(bs[..k], texWidth), bs[k], texWidth)
  {
    assert bs[..k + 1][..k] == bs[..k];
  }

  lemma UploadsSnoc(gs: seq<Glyph>, g: Glyph)
    ensures Uploads(gs + [g]) == Uploads(gs) + [UploadOf(g)]
  {
    assert (gs + [g])[..|gs|] == gs;
  }

  /**
   * `max_dim`: one line height plus a pixel per cell, times cells per side, so that a
   * square of that side holds `glyphCount` such cells.
   */
  function MaxDim(face: Face, glyphCount: nat): (d: int)
    ensures LineHeight(face) >= 0 ==> glyphCount * ((1 + LineHeight(face)) * (1 + LineHeight(face))) <= d * d
  {
    var cell, perSide := 1 + LineHeight(face), CeilSqrt(glyphCount);
    if cell >= 1 then
      CellsFit(cell * cell, perSide * perSide, glyphCount);
      assert (cell * perSide) * (cell * perSide) == (cell * cell) * (perSide * perSide);
      cell * perSide
    else cell * perSide
  }

  lemma CellsFit(area: nat, slots: nat, n: nat)
    requires n <= slots
    ensures n * area <= slots * area
  {
  }

  /** The entry `search_font` builds for a face it loaded for `(pt, style)`. */
  function NewAtlas(pt: int, style: int, face: Face): (f: CachedFont)
    ensures f.pt == pt && f.style == style && f.face == face
    ensures |f.glyphs| == |face.charmap| && f.atlasWidth == f.atlasHeight >= 1
  {
    var side := Pow2Ceil(MaxDim(face, |face.charmap|));
    var glyphs := Pack(face.charmap, side).glyphs;
    CachedFont(pt, style, side, side, glyphs, Uploads(glyphs), face)
  }

  /**
   * What a new entry holds: its key; a square atlas whose side is the least power of two
   * of at least `max_dim`; one glyph per code point of the face, in the face's
   * enumeration order (so ascending codes), as many as `count_glyphs` reports; one upload
   * per glyph at that glyph's place.
   */
  lemma NewAtlasShape(pt: int, style: int, face: Face)
    ensures var f := NewAtlas(pt, style, face);
      && f.pt == pt && f.style == style && f.face == face
      && f.atlasWidth == f.atlasHeight && IsPow2(f.atlasWidth) && 1 <= f.atlasWidth
      && MaxDim(face, |face.charmap|) <= f.atlasWidth
      && (forall m :: IsPow2(m) && MaxDim(face, |face.charmap|) <= m ==> f.atlasWidth <= m)
      && |f.glyphs| == |face.charmap| == |f.uploads|
      && (forall i :: 0 <= i < |f.glyphs| ==>
            (f.glyphs[i].code == face.charmap[i].code
             && f.glyphs[i].width == face.charmap[i].width
             && f.glyphs[i].height == face.charmap[i].rows))
      && (forall i, j :: 0 <= i < j < |f.glyphs| ==> f.glyphs[i].code < f.glyphs[j].code)
      && (forall i :: 0 <= i < |f.glyphs| ==> f.uploads[i] == UploadOf(f.glyphs[i]))
  {
    PackInvariant(face.charmap, Pow2Ceil(MaxDim(face, |face.charmap|)));
  }

  /**
   * The atlas-building part of `search_font`: size the atlas from `count_glyphs` and the
   * line height, then pack and upload every bitmap of the face.
   */
  method BuildAtlas(pt: int, style: int, face: Face) returns (font: CachedFont)
    ensures font == NewAtlas(pt, style, face)
  {
    var glyphCount := CountGlyphs(face);
    var maxDim := MaxDim(face, glyphCount);
    var texWidth := AtlasSide(maxDim);
    var texHeight := texWidth;
    var glyphs, uploads := PackFace(face, texWidth);
    font := CachedFont(pt, style, texWidth, texHeight, glyphs, uploads, face);
  }

  /**
   * One pass of the packing loop on its variables: take the row height, wrap when the
   * bitmap does not fit, and record the glyph where it lands.
   */
  method PlaceBitmap(x: int, y: int, maxRowH: int, b: GlyphBitmap, texWidth: int, ghost placed: seq<Glyph>)
    returns (x': int, y': int, maxRowH': int, g: Glyph)
    ensures Place(Packing(Cursor(x, y, maxRowH), placed), b, texWidth) == Packing(Cursor(x', y', maxRowH'), placed + [g])
  {
    x', y', maxRowH' := x, y, maxRowH;
    maxRowH' := if b.rows > maxRowH' then b.rows else maxRowH';
    if x' + b.width > texWidth {
      y' := y' + maxRowH';
      maxRowH' := 0;
      x' := 0;
    }
    g := GlyphAt(b, x', y');
    x' := x' + b.width;
  }

  /**
   * The packing loop of `search_font`: walk the character map from the first code point,
   * place each bitmap at the cursor, wrapping to a new row when it does not fit, and
   * upload it there. FreeType rasterisation is taken to succeed for every code point.
   */
  method PackFace(face: Face, texWidth: int) returns (glyphs: seq<Glyph>, uploads: seq<Upload>)
    ensures glyphs == Pack(face.charmap, texWidth).glyphs
    ensures uploads == Uploads(glyphs)
  {
    var cm := face.charmap;
    var cur := FirstChar(face);
    var count := 0;
    var x, y, maxRowH := 0, 0, 0;
    glyphs, uploads := [], [];
    while cur.Some?
      invariant count <= |cm|
      invariant cur == if count < |cm| then Some(cm[count]) else None
      invariant Pack(cm[..count], texWidth) == Packing(Cursor(x, y, maxRowH), glyphs)
      invariant uploads == Uploads(glyphs)
      decreases |cm| - count
    {
      var b := cur.value;
      PackStep(cm, texWidth, count);
      var g;
      x, y, maxRowH, g := PlaceBitmap(x, y, maxRowH, b, texWidth, glyphs);
      UploadsSnoc(glyphs, g);
      uploads := uploads + [Upload(g.tx, g.ty, b.width, b.rows)];
      glyphs := glyphs + [g];
      NextAfter(cm, count);
      cur := NextChar(face, b.code);
      count := count + 1;
    }
    assert cm[..count] == cm;
  }
}
