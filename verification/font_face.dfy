/**
 * The font face as the renderer sees it through FreeType: the style constants, the
 * path of each style's font file, the character map it enumerates, and `count_glyphs`.
 * Loading a face and rasterising its glyphs are FreeType's work; here a loaded face is
 * the data those calls would report.
 */
module FontFace {
  import opened Wrappers

  // The style enumeration of renderer.h.
  const STYLE_LIGHT: int := 0
  const STYLE_LIGHT_ITALIC: int := 1
  const STYLE_REGULAR: int := 2
  const STYLE_ITALIC: int := 3
  const STYLE_BOLD: int := 4
  const STYLE_BOLD_ITALIC: int := 5
  const STYLE_EXTRABOLD: int := 6
  const STYLE_EXTRABOLD_ITALIC: int := 7
  const STYLE_SEMIBOLD: int := 8
  const STYLE_SEMIBOLD_ITALIC: int := 9

  predicate IsStyle(style: int) {
    STYLE_LIGHT <= style <= STYLE_SEMIBOLD_ITALIC
  }

  /** `font_path`: the font file of a style; any other value falls back to the regular face. */
  function FontPath(style: int): (path: string)
    ensures !IsStyle(style) ==> path == "resources/fonts/OpenSans-Regular.ttf"
    decreases if IsStyle(style) then 0 else 1
  {
    if style == STYLE_LIGHT then "resources/fonts/OpenSans-Light.ttf"
    else if style == STYLE_LIGHT_ITALIC then "resources/fonts/OpenSans-LightItalic.ttf"
    else if style == STYLE_REGULAR then "resources/fonts/OpenSans-Regular.ttf"
    else if style == STYLE_ITALIC then "resources/fonts/OpenSans-Italic.ttf"
    else if style == STYLE_BOLD then "resources/fonts/OpenSans-Bold.ttf"
    else if style == STYLE_BOLD_ITALIC then "resources/fonts/OpenSans-BoldItalic.ttf"
    else if style == STYLE_EXTRABOLD then "resources/fonts/OpenSans-ExtraBold.ttf"
    else if style == STYLE_EXTRABOLD_ITALIC then "resources/fonts/OpenSans-ExtraBoldItalic.ttf"
    else if style == STYLE_SEMIBOLD then "resources/fonts/OpenSans-Semibold.ttf"
    else if style == STYLE_SEMIBOLD_ITALIC then "resources/fonts/OpenSans-SemiboldItalic.ttf"
    else FontPath(STYLE_REGULAR)
  }

  /** Every style names its own file: two different styles never share a font file. */
  lemma FontPathInjective(s1: int, s2: int)
    requires IsStyle(s1) && IsStyle(s2) && s1 != s2
    ensures FontPath(s1) != FontPath(s2)
  {
  }

  /**
   * What FreeType reports for one code point after `FT_Load_Char(..., FT_LOAD_RENDER)`
   * at the face's pixel size: the bitmap size, the 26.6 fixed-point horizontal advance
   * and the bitmap bearings.
   */
  datatype GlyphBitmap = GlyphBitmap(code: nat, width: nat, rows: nat, advanceX: int, left: int, top: int)

  /** A character map lists each code point once, in ascending order, as FreeType enumerates it. */
  predicate CodesAscending(charmap: seq<GlyphBitmap>) {
    forall i, j :: 0 <= i < j < |charmap| ==> charmap[i].code < charmap[j].code
  }

  type Charmap = s: seq<GlyphBitmap> | CodesAscending(s) witness []

  /** A face loaded and sized to the requested pixel size; `metricsHeight` is `size->metrics.height` (26.6). */
  datatype Face = Face(charmap: Charmap, metricsHeight: int)

  /**
   * `FT_New_Face(path)` followed by `FT_Set_Pixel_Sizes(0, pt)`: `None` when the font file
   * is missing or cannot be read. The file system and FreeType are not part of this model.
   */
  type FaceLoader = (string, int) -> Option<Face>

  /** `metrics.height >> 6`: the line height in whole pixels (an arithmetic shift floors). */
  function LineHeight(face: Face): (h: int)
    ensures 64 * h <= face.metricsHeight < 64 * h + 64
  {
    face.metricsHeight / 64
  }

  /** The first record of `cm` whose code exceeds `c`, as `FT_Get_Next_Char` finds it. */
  function NextIn(cm: seq<GlyphBitmap>, c: int): Option<GlyphBitmap> {
    if cm == [] then None
    else if cm[0].code > c then Some(cm[0])
    else NextIn(cm[1..], c)
  }

  /** `FT_Get_First_Char`: the face's first code point; `None` stands for glyph index 0. */
  function FirstChar(face: Face): (r: Option<GlyphBitmap>)
    ensures r == NextIn(face.charmap, -1)
  {
    if face.charmap == [] then None else Some(face.charmap[0])
  }

  /** `FT_Get_Next_Char`: the code point that follows `c`; `None` stands for glyph index 0. */
  function NextChar(face: Face, c: int): Option<GlyphBitmap> {
    NextIn(face.charmap, c)
  }

  /** Enumeration from any listed code point moves to the next entry of the character map. */
  lemma {:induction false} NextAfter(cm: Charmap, i: nat)
    requires i < |cm|
    ensures NextIn(cm, cm[i].code) == if i + 1 < |cm| then Some(cm[i + 1]) else None
  {
    if i > 0 {
      var tail: Charmap := cm[1..];
      assert tail[i - 1] == cm[i];
      NextAfter(tail, i - 1);
    } else if 1 < |cm| {
      assert cm[1..][0] == cm[1];
    } else {
      assert cm[1..] == [];
    }
  }

  /** `count_glyphs`: walks the character map from the first code point until FreeType reports no next one. */
  method CountGlyphs(face: Face) returns (count: nat)
    ensures count == |face.charmap|
  {
    var cm := face.charmap;
    var cur := FirstChar(face);
    count := 0;
    while cur.Some?
      invariant count <= |cm|
      invariant cur == if count < |cm| then Some(cm[count]) else None
      decreases |cm| - count
    {
      NextAfter(cm, count);
      cur := NextChar(face, cur.value.code);
      count := count + 1;
    }
  }
}
