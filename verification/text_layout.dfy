/**
 * The layout loop of `render_text`: for each character of a C string it finds the
 * glyph by a linear scan of the cached font's glyph list, then either emits a quad of
 * six vertices and advances the pen, advances over a space, starts a new line, or does
 * nothing. The vertex list stands for the `coords` array handed to OpenGL.
 */
module TextLayout {
  import opened CStrings
  import opened FontFace
  import opened FontAtlas

  /**
   * One `struct point` of `coords`: the screen position, and the atlas position in
   * texels (the division by the atlas size that makes it a texture coordinate is not
   * modelled).
   */
  datatype Vertex = Vertex(x: real, y: real, u: int, v: int)

  /** The pen of `render_text`: `x`, `y`, and `firstBottom`, which is -1 until a glyph is drawn on the line. */
  datatype Pen = Pen(x: real, y: real, firstBottom: real)

  /** The pen together with the vertices emitted so far (their count is `n`). */
  datatype LayoutState = LayoutState(pen: Pen, coords: seq<Vertex>)

  /** The outcome of scanning the glyph list for one character. */
  datatype Match = Drawn(g: Glyph) | Spaced(g: Glyph) | LineBreak | Unmatched

  /** A glyph that renders character `c`: same code, non-empty bitmap. */
  predicate Drawable(g: Glyph, c: char) {
    g.code == c as int && g.width != 0 && g.height != 0
  }

  /**
   * The inner `while (current)` scan: the first glyph that satisfies one of the three
   * tests decides. The newline test does not look at the glyph, so on a non-empty list it
   * fires at the first glyph unless that glyph draws the newline itself.
   */
  function Resolve(glyphs: seq<Glyph>, c: char): (m: Match)
    ensures m.Drawn? ==> m.g in glyphs && Drawable(m.g, c)
    ensures m.Spaced? ==> m.g in glyphs && c == ' ' && m.g.code == c as int && m.g.advance != 0
    ensures m.LineBreak? ==> c == '\n' && glyphs != []
    ensures m.Unmatched? ==> (c != '\n' || glyphs == []) && forall g :: g in glyphs ==> !Drawable(g, c)
    ensures m.Unmatched? && c == ' ' ==> forall g :: g in glyphs ==> !(g.code == c as int && g.advance != 0)
  {
    if glyphs == [] then Unmatched
    else
      var g := glyphs[0];
      if Drawable(g, c) then Drawn(g)
      else if g.code == c as int && c == ' ' && g.advance != 0 then Spaced(g)
      else if c == '\n' then LineBreak
      else Resolve(glyphs[1..], c)
  }

  /**
   * For an ordinary character (neither newline nor space) a quad is drawn exactly when
   * some glyph of the font draws it, and then it is the first such glyph of the list;
   * otherwise the character is dropped.
   */
  lemma {:induction false} ResolveOrdinary(glyphs: seq<Glyph>, c: char)
    requires c != '\n' && c != ' '
    ensures Resolve(glyphs, c).Drawn? || Resolve(glyphs, c).Unmatched?
    ensures Resolve(glyphs, c).Drawn? <==> exists i :: 0 <= i < |glyphs| && Drawable(glyphs[i], c)
    ensures Resolve(glyphs, c).Drawn? ==>
      exists i :: 0 <= i < |glyphs| && glyphs[i] == Resolve(glyphs, c).g
        && (forall j :: 0 <= j < i ==> !Drawable(glyphs[j], c))
    ensures Resolve(glyphs, c).Drawn? ==> Drawable(Resolve(glyphs, c).g, c)
  {
    if glyphs != [] && !Drawable(glyphs[0], c) {
      var tail := glyphs[1..];
      ResolveOrdinary(tail, c);
      if Resolve(tail, c).Drawn? {
        var i :| 0 <= i < |tail| && tail[i] == Resolve(tail, c).g
                 && (forall j :: 0 <= j < i ==> !Drawable(tail[j], c));
        assert glyphs[i + 1] == tail[i];
        assert forall j :: 1 <= j < i + 1 ==> glyphs[j] == tail[j - 1];
      }
      if exists i :: 0 <= i < |glyphs| && Drawable(glyphs[i], c) {
        var i :| 0 <= i < |glyphs| && Drawable(glyphs[i], c);
        assert tail[i - 1] == glyphs[i];
      }
    }
  }

  /** A glyph at which the scan stops for a space: it draws the space or advances over it. */
  predicate StopsSpace(g: Glyph) {
    Drawable(g, ' ') || (g.code == ' ' as int && g.advance != 0)
  }

  /**
   * A space is handled by the first glyph that draws it or has a non-zero advance for
   * it: drawn when that glyph has a bitmap, skipped by its advance otherwise. Without
   * such a glyph the space is dropped.
   */
  lemma {:induction false} ResolveSpace(glyphs: seq<Glyph>)
    ensures Resolve(glyphs, ' ').Unmatched? <==> forall i :: 0 <= i < |glyphs| ==> !StopsSpace(glyphs[i])
    ensures !Resolve(glyphs, ' ').Unmatched? ==>
      exists i :: 0 <= i < |glyphs| && StopsSpace(glyphs[i])
        && (forall j :: 0 <= j < i ==> !StopsSpace(glyphs[j]))
        && Resolve(glyphs, ' ') == (if Drawable(glyphs[i], ' ') then Drawn(glyphs[i]) else Spaced(glyphs[i]))
  {
    if glyphs != [] && !StopsSpace(glyphs[0]) {
      var tail := glyphs[1..];
      ResolveSpace(tail);
      if !Resolve(tail, ' ').Unmatched? {
        var i :| 0 <= i < |tail| && StopsSpace(tail[i])
                 && (forall j :: 0 <= j < i ==> !StopsSpace(tail[j]))
                 && Resolve(tail, ' ') == (if Drawable(tail[i], ' ') then Drawn(tail[i]) else Spaced(tail[i]));
        assert glyphs[i + 1] == tail[i];
        assert forall j :: 1 <= j < i + 1 ==> glyphs[j] == tail[j - 1];
      }
      if exists i :: 0 <= i < |glyphs| && StopsSpace(glyphs[i]) {
        var i :| 0 <= i < |glyphs| && StopsSpace(glyphs[i]);
        assert tail[i - 1] == glyphs[i];
      }
    }
  }

  /** A newline breaks the line on any non-empty glyph list, unless the list's first glyph draws it. */
  lemma ResolveNewline(glyphs: seq<Glyph>)
    ensures Resolve(glyphs, '\n') ==
      if glyphs == [] then Unmatched
      else if Drawable(glyphs[0], '\n') then Drawn(glyphs[0])
      else LineBreak
  {
  }

  // -------------------------------------------------------------------------
  // Vertical placement. renderer.c keeps `height` and `bt` as GLuint, so the
  // difference `height - bt` is taken modulo 2^32.

  const U32: int := 0x1_0000_0000

  /** `glyph->height - glyph->bt` on GLuint operands. */
  function U32Sub(a: int, b: int): (d: int)
    ensures 0 <= d < U32
    ensures (d - (a - b)) % U32 == 0
  {
    (a - b) % U32
  }

  /** `oy` of the first glyph on a line, as written: `y - (height - bt)` with the unsigned difference. */
  function FirstOyAsWritten(y: real, g: Glyph): (oy: real)
    ensures y - U32 as real < oy <= y
  {
    y - U32Sub(g.height, g.bt) as real
  }

  /** `oy` of a later glyph on the line, as written: `(firstBottom - height) + (height - bt)` with the unsigned difference. */
  function AnchoredOyAsWritten(firstBottom: real, g: Glyph): (oy: real)
    ensures firstBottom - g.height as real <= oy < firstBottom - g.height as real + U32 as real
  {
    (firstBottom - g.height as real) + U32Sub(g.height, g.bt) as real
  }

  /** `oy` of the first glyph on a line with the difference taken as signed: its bottom lies `bt` below `y`. */
  function FirstOy(y: real, g: Glyph): (oy: real)
    ensures oy + g.height as real == y + g.bt as real
  {
    y - (g.height - g.bt) as real
  }

  /** `oy` of a later glyph with the difference taken as signed: its top lies `bt` above the line's `firstBottom`. */
  function AnchoredOy(firstBottom: real, g: Glyph): (oy: real)
    ensures oy + g.bt as real == firstBottom
  {
    (firstBottom - g.height as real) + (g.height - g.bt) as real
  }

  /** When `bt <= height` the unsigned difference is the signed one and both readings agree. */
  lemma OyAgreeWhenBelowTop(y: real, firstBottom: real, g: Glyph)
    requires g.bt <= g.height < U32 && g.height - g.bt < U32
    ensures FirstOyAsWritten(y, g) == FirstOy(y, g)
    ensures AnchoredOyAsWritten(firstBottom, g) == AnchoredOy(firstBottom, g)
  {
  }

  /**
   * When a bitmap lies wholly above the baseline (`bt > height`: a hyphen, quotes, a
   * degree sign) the unsigned difference wraps, and the glyph is placed 2^32 pixels
   * from where the signed reading puts it: above when it is the first glyph on its
   * line, below otherwise.
   */
  lemma OyWrapsAboveBaseline(y: real, firstBottom: real, g: Glyph)
    requires g.height < g.bt <= g.height + U32
    ensures FirstOyAsWritten(y, g) == FirstOy(y, g) - U32 as real
    ensures AnchoredOyAsWritten(firstBottom, g) == AnchoredOy(firstBottom, g) + U32 as real
  {
    assert U32Sub(g.height, g.bt) == g.height - g.bt + U32;
    assert U32Sub(g.height, g.bt) as real == (g.height - g.bt) as real + U32 as real;
  }

  /** A 2-row hyphen whose top is 8 pixels up, drawn first on the line at y = 100. */
  lemma HyphenPlacedOffScreen()
    ensures var hyphen := Glyph(45, 6, 1, 8, 5, 2, 0, 0);
      && FirstOy(100.0, hyphen) == 106.0
      && FirstOyAsWritten(100.0, hyphen) == 100.0 - 4294967290.0
  {
    var hyphen := Glyph(45, 6, 1, 8, 5, 2, 0, 0);
    assert U32Sub(2, 8) == 4294967290;
  }

  // -------------------------------------------------------------------------
  // One character and a whole string.

  /**
   * The six vertices of a glyph quad at `(ox, oy)`, in the order renderer.c writes them:
   * two triangles that share the diagonal from the top-right to the bottom-left corner.
   */
  function Quad(ox: real, oy: real, g: Glyph): (q: seq<Vertex>)
    ensures |q| == 6 && q[1] == q[3] && q[2] == q[4]
  {
    var w, h := g.width as real, g.height as real;
    var u0, v0, u1, v1 := g.tx, g.ty, g.tx + g.width, g.ty + g.height;
    [Vertex(ox, oy, u0, v0), Vertex(ox + w, oy, u1, v0), Vertex(ox, oy + h, u0, v1),
     Vertex(ox + w, oy, u1, v0), Vertex(ox, oy + h, u0, v1), Vertex(ox + w, oy + h, u1, v1)]
  }

  /**
   * A quad covers exactly `[ox, ox + w] x [oy, oy + h]` on screen and the glyph's own
   * rectangle in the atlas: its first and last vertices are opposite corners, and every
   * vertex lies within both rectangles.
   */
  lemma QuadSpan(ox: real, oy: real, g: Glyph)
    ensures var q := Quad(ox, oy, g);
      && |q| == 6
      && q[0] == Vertex(ox, oy, g.tx, g.ty)
      && q[5] == Vertex(ox + g.width as real, oy + g.height as real, g.tx + g.width, g.ty + g.height)
      && (forall k :: 0 <= k < 6 ==>
            ox <= q[k].x <= ox + g.width as real && oy <= q[k].y <= oy + g.height as real
            && g.tx <= q[k].u <= g.tx + g.width && g.ty <= q[k].v <= g.ty + g.height)
  {
  }

  /** One iteration of the character loop, with `startx` the truncated start x. */
  function Step(font: CachedFont, startx: int, st: LayoutState, c: char): (r: LayoutState)
    ensures st.coords <= r.coords
    ensures |r.coords| == |st.coords| + (if Resolve(font.glyphs, c).Drawn? then 6 else 0)
    ensures r.pen.y != st.pen.y ==> c == '\n'
  {
    var pen := st.pen;
    match Resolve(font.glyphs, c)
    case Drawn(g) =>
      var ox := pen.x + g.bl as real;
      var first := pen.firstBottom == -1.0;
      var oy := if first then FirstOy(pen.y, g) else AnchoredOy(pen.firstBottom, g);
      var fb := if first then oy + g.height as real else pen.firstBottom;
      LayoutState(Pen(pen.x + g.advance as real, pen.y, fb), st.coords + Quad(ox, oy, g))
    case Spaced(g) =>
      LayoutState(Pen(pen.x + g.advance as real, pen.y, pen.firstBottom), st.coords)
    case LineBreak =>
      LayoutState(Pen(startx as real, pen.y + LineHeight(font.face) as real, -1.0), st.coords)
    case Unmatched =>
      st
  }

  /**
   * The pen rules for one character: a drawn glyph emits its quad and advances `x` by its
   * advance; the first glyph on a line sets `firstBottom` to `y + bt` and later ones hang
   * from it (`oy + bt == firstBottom`); a space advances without emitting; a line break
   * returns `x` to the start, moves `y` down one line height and clears `firstBottom`;
   * an unmatched character changes nothing.
   */
  lemma StepRules(font: CachedFont, startx: int, st: LayoutState, c: char)
    ensures var r := Step(font, startx, st, c);
      var pen := st.pen;
      match Resolve(font.glyphs, c)
      case Drawn(g) =>
        var oy := r.pen.firstBottom - g.bt as real;
        && r.pen.x == pen.x + g.advance as real && r.pen.y == pen.y
        && (pen.firstBottom == -1.0 ==> r.pen.firstBottom == pen.y + g.bt as real)
        && (pen.firstBottom != -1.0 ==> r.pen.firstBottom == pen.firstBottom)
        && (pen.firstBottom == -1.0 ==> r.coords == st.coords + Quad(pen.x + g.bl as real, oy + g.bt as real - g.height as real, g))
        && (pen.firstBottom != -1.0 ==> r.coords == st.coords + Quad(pen.x + g.bl as real, oy, g))
      case Spaced(g) =>
        r == LayoutState(pen.(x := pen.x + g.advance as real), st.coords)
      case LineBreak =>
        r == LayoutState(Pen(startx as real, pen.y + LineHeight(font.face) as real, -1.0), st.coords)
      case Unmatched =>
        r == st
  {
  }

  /** The character loop over `s`, one `Step` per character. */
  function Run(font: CachedFont, startx: int, st: LayoutState, s: seq<char>): LayoutState
    decreases |s|
  {
    if s == [] then st else Step(font, startx, Run(font, startx, st, s[..|s| - 1]), s[|s| - 1])
  }

  /** The vertices `render_text` hands to OpenGL for `text` drawn with `font` at `(x, y)`. */
  function TextQuads(font: CachedFont, text: string, x: real, y: real): (q: seq<Vertex>)
    ensures |q| == 6 * DrawnCount(font.glyphs, text[..StrLen(text)]) <= 6 * StrLen(text)
  {
    RunVertexCount(font, Trunc(x), LayoutState(Pen(x, y, -1.0), []), text[..StrLen(text)]);
    Run(font, Trunc(x), LayoutState(Pen(x, y, -1.0), []), text[..StrLen(text)]).coords
  }

  /** Laying out `a + b` is laying out `a`, then `b` from where `a` left the pen. */
  lemma {:induction false} RunAppend(font: CachedFont, startx: int, st: LayoutState, a: seq<char>, b: seq<char>)
    ensures Run(font, startx, st, a + b) == Run(font, startx, Run(font, startx, st, a), b)
    decreases |b|
  {
    if b == [] {
      assert a + b == a;
    } else {
      assert (a + b)[..|a + b| - 1] == a + b[..|b| - 1];
      RunAppend(font, startx, st, a, b[..|b| - 1]);
    }
  }

  /** The number of characters of `s` drawn as a quad. */
  function DrawnCount(glyphs: seq<Glyph>, s: seq<char>): (k: nat)
    ensures k <= |s|
  {
    if s == [] then 0
    else DrawnCount(glyphs, s[..|s| - 1]) + (if Resolve(glyphs, s[|s| - 1]).Drawn? then 1 else 0)
  }

  /** Layout only appends, six vertices per drawn character: `n == 6 * drawn <= 6 * strlen`. */
  lemma {:induction false} RunVertexCount(font: CachedFont, startx: int, st: LayoutState, s: seq<char>)
    ensures var r := Run(font, startx, st, s);
      && st.coords <= r.coords
      && |r.coords| == |st.coords| + 6 * DrawnCount(font.glyphs, s)
      && |r.coords| <= |st.coords| + 6 * |s|
    decreases |s|
  {
    if s != [] {
      RunVertexCount(font, startx, st, s[..|s| - 1]);
    }
  }

  /** Sum of the advances of the drawn and space glyphs of `s`. */
  function Advance(glyphs: seq<Glyph>, s: seq<char>): int {
    if s == [] then 0
    else
      Advance(glyphs, s[..|s| - 1]) +
      match Resolve(glyphs, s[|s| - 1])
      case Drawn(g) => g.advance
      case Spaced(g) => g.advance
      case _ => 0
  }

  /**
   * On a single line (no newline in `s`) the pen stays on its row, moves right by the sum
   * of the advances, and a line baseline once fixed is kept.
   */
  lemma {:induction false} RunOneLine(font: CachedFont, startx: int, st: LayoutState, s: seq<char>)
    requires forall k :: 0 <= k < |s| ==> s[k] != '\n'
    ensures var r := Run(font, startx, st, s);
      && r.pen.y == st.pen.y
      && r.pen.x == st.pen.x + Advance(font.glyphs, s) as real
      && (st.pen.firstBottom != -1.0 ==> r.pen.firstBottom == st.pen.firstBottom)
    decreases |s|
  {
    if s != [] {
      var init := s[..|s| - 1];
      RunOneLine(font, startx, st, init);
      ResolveOrdinaryOrSpace(font.glyphs, s[|s| - 1]);
    }
  }

  /** A character other than newline never breaks the line. */
  lemma ResolveOrdinaryOrSpace(glyphs: seq<Glyph>, c: char)
    requires c != '\n'
    ensures !Resolve(glyphs, c).LineBreak?
  {
    if c != ' ' {
      ResolveOrdinary(glyphs, c);
    } else {
      SpaceNeverBreaks(glyphs);
    }
  }

  lemma {:induction false} SpaceNeverBreaks(glyphs: seq<Glyph>)
    ensures !Resolve(glyphs, ' ').LineBreak?
  {
    if glyphs != [] {
      SpaceNeverBreaks(glyphs[1..]);
    }
  }

  /** The number of newlines in `s`. */
  function Newlines(s: seq<char>): nat {
    if s == [] then 0 else Newlines(s[..|s| - 1]) + (if s[|s| - 1] == '\n' then 1 else 0)
  }

  /**
   * When newlines break lines, the pen ends `Newlines(s)` line heights lower; after a
   * trailing newline it is back at the start x with no baseline.
   */
  lemma {:induction false} RunLines(font: CachedFont, startx: int, st: LayoutState, s: seq<char>)
    requires Resolve(font.glyphs, '\n') == LineBreak
    ensures var r := Run(font, startx, st, s);
      && r.pen.y == st.pen.y + (Newlines(s) * LineHeight(font.face)) as real
      && (s != [] && s[|s| - 1] == '\n' ==> r.pen.x == startx as real && r.pen.firstBottom == -1.0)
    decreases |s|
  {
    if s != [] {
      var init := s[..|s| - 1];
      RunLines(font, startx, st, init);
      var lh := LineHeight(font.face);
      if s[|s| - 1] == '\n' {
        assert (Newlines(init) + 1) * lh == Newlines(init) * lh + lh;
      } else {
        ResolveOrdinaryOrSpace(font.glyphs, s[|s| - 1]);
      }
    }
  }

  /** A font without glyphs lays out nothing: no vertices, and the pen does not move, even on newline. */
  lemma {:induction false} RunNoGlyphs(font: CachedFont, startx: int, st: LayoutState, s: seq<char>)
    requires font.glyphs == []
    ensures Run(font, startx, st, s) == st
    decreases |s|
  {
    if s != [] {
      RunNoGlyphs(font, startx, st, s[..|s| - 1]);
    }
  }

  /**
   * The inner `while (current)` scan of `render_text` for one character: act on the first
   * glyph that draws it, spaces over it or (for a newline) breaks the line, and leave the
   * pen alone when no glyph does.
   */
  method LayoutChar(font: CachedFont, startx: int, penX: real, penY: real, firstBottom: real,
                    coords: seq<Vertex>, c: char)
    returns (penX': real, penY': real, firstBottom': real, coords': seq<Vertex>)
    ensures LayoutState(Pen(penX', penY', firstBottom'), coords')
         == Step(font, startx, LayoutState(Pen(penX, penY, firstBottom), coords), c)
  {
    penX', penY', firstBottom', coords' := penX, penY, firstBottom, coords;
    var glyphs := font.glyphs;
    var j := 0;
    while j < |glyphs|
      invariant j <= |glyphs|
      invariant Resolve(glyphs[j..], c) == Resolve(glyphs, c)
    {
      var g := glyphs[j];
      assert glyphs[j..][0] == g && glyphs[j..][1..] == glyphs[j + 1..];
      if g.code == c as int && g.width != 0 && g.height != 0 {
        var ox := penX' + g.bl as real;
        var oy := FirstOy(penY', g);
        if firstBottom' == -1.0 {
          firstBottom' := oy + g.height as real;
        } else {
          oy := AnchoredOy(firstBottom', g);
        }
        coords' := coords' + Quad(ox, oy, g);
        penX' := penX' + g.advance as real;
        return;
      } else if g.code == c as int && c == ' ' && g.advance != 0 {
        penX' := penX' + g.advance as real;
        return;
      } else if c == '\n' {
        penY' := penY' + LineHeight(font.face) as real;
        firstBottom' := -1.0;
        penX' := startx as real;
        return;
      }
      j := j + 1;
    }
  }

  /**
   * The layout loop of `render_text`: walk the C string up to its NUL, scan the glyph
   * list for each character and act on the first glyph that matches. The vertex list
   * never outgrows the `6 * strlen(text)` entries of `coords`.
   */
  method LayoutText(font: CachedFont, text: string, x: real, y: real) returns (coords: seq<Vertex>)
    ensures coords == TextQuads(font, text, x, y)
    ensures |coords| == 6 * DrawnCount(font.glyphs, text[..StrLen(text)]) <= 6 * StrLen(text)
  {
    var startx := Trunc(x);
    var penX, penY := x, y;
    var firstBottom := -1.0;
    coords := [];
    ghost var init := LayoutState(Pen(x, y, -1.0), []);
    var i := 0;
    while i < |text| && text[i] != '\0'
      invariant i <= StrLen(text)
      invariant LayoutState(Pen(penX, penY, firstBottom), coords) == Run(font, startx, init, text[..i])
    {
      penX, penY, firstBottom, coords := LayoutChar(font, startx, penX, penY, firstBottom, coords, text[i]);
      assert text[..i + 1][..i] == text[..i];
      i := i + 1;
    }
    assert i == StrLen(text);
    RunVertexCount(font, startx, init, text[..i]);
  }
}
