# SimpleGame engine core in Dafny

This project models three parts of a small SDL/OpenGL game engine written in C.

**The renderer's font system** (`src/engine/graphics/renderer.c`)
- `search_font` looks a `(pt, style)` key up in the font cache. On a miss it:
  - loads the style's font file;
  - sizes a square, power-of-two atlas from the glyph count and the line height;
  - packs every glyph bitmap into that atlas, row by row;
  - appends the new entry to the cache.
- `render_text` lays a NUL-terminated string out with a cached font, as a list of six-vertex quads.

**The text box widget** (`src/engine/ui/textbox.c`)
- A fixed-capacity, NUL-terminated edit buffer, with focus, a blinking cursor and a cached cursor x.
- Edits: text input, backspace and ctrl+backspace.

**The on/off switch widget** (`src/engine/ui/switch.c`)
- Toggling with a click, the knob sliding and changing colour while the animation runs, and where it rests once it has settled.

## Modules and files

| file | module | models |
|---|---|---|
| `wrappers.dfy` | `Wrappers` | `Option` |
| `cstrings.dfy` | `CStrings` | `strlen`, C integer division, `round` and float-to-int truncation |
| `clock.dfy` | `Clock` | `util_tick_passed` |
| `geometry.dfy` | `Draw` | rectangles, colours, sizes, and recorded draw calls |
| `font_face.dfy` | `FontFace` | style constants, `font_path`, the FreeType face as data, `count_glyphs` |
| `font_atlas.dfy` | `FontAtlas` | atlas sizing, the row packer, and building one cache entry |
| `text_layout.dfy` | `TextLayout` | the character loop of `render_text` |
| `font_cache.dfy` | `FontCache` | the cache (`pFontCache`), `search_font` and `render_text` |
| `textbox.dfy` | `UiTextbox` | the text box |
| `switch.dfy` | `UiSwitch` | the switch |

The cache, the text box, its input timer and the switch are classes. Their fields change in place, as the C structs' fields do.

- The text buffer is an `array<char>`. Ctrl+backspace and `strcat` edit it in place, so bytes after the terminator survive an edit, as they do in C.
- Each state-changing method is specified against a pure function: `Search`, `ApplyKey`, `Append`, `Step`, and so on. The properties are proved about those functions.
- The packing loop and the layout loop are methods proved equal to their fold functions, `Pack` and `Run`.

External inputs are parameters:
- Loading a face (`FT_New_Face`, then `FT_Set_Pixel_Sizes`) is a function from a path and a pixel size to an optional face. A face is its character map: code, bitmap size, 26.6 advance and bearings per code point, in ascending code order. It also carries its 26.6 line height.
- Mouse position, clicks and key state are booleans.
- The current tick is an integer.
- Text measurement (`engine_render_text_size_s`) is a function from a string to a size. `engine_render_text_size_len(text, …, n)` is taken to measure the first `n` characters.

The helpers these files rely on are not part of this model: the list, util, FreeType, SDL and GL code, and `max`. The model assumes:
- `util_tick_passed(t)` means `now >= t`;
- `util_rect_outline` is recorded as a call;
- `max` is the usual comparison macro.

Deliberate departures from the source as written:
- Pen coordinates and the switch's animation `percent` are reals, standing for the C floats. The start x is truncated toward zero, as `int startx = x` does.
- The layout uses the signed reading of `height - bt` (see Findings), where renderer.c:520 and :524 wrap modulo 2^32.
- Backspace uses the in-bounds index (see Findings).

## Model

| member | source | states |
|---|---|---|
| `CStrings.CStrLen` | src/engine/ui/textbox.c:85 | walking the buffer up to its first NUL gives exactly `strlen` of its contents |
| `CStrings.CDiv` | src/engine/ui/textbox.c:136 | C integer division truncates toward zero: bounds of the quotient for non-negative and for negative dividends |
| `CStrings.Round` | src/engine/ui/switch.c:52 | `round` gives the nearest whole number, halves away from zero; the three bounds determine it |
| `CStrings.Trunc` | src/engine/graphics/renderer.c:509 | `int startx = x` truncates toward zero: the result is within one of `x`, on the side of zero |
| `FontFace.FontPath` | src/engine/graphics/renderer.c:122-146 | any value outside the ten styles falls back to the regular face's file |
| `FontFace.FontPathInjective` | src/engine/graphics/renderer.c:122-146 | two different styles never share a font file |
| `FontFace.LineHeight` | src/engine/graphics/renderer.c:189 | `metrics.height >> 6` is the 26.6 line height floored to whole pixels |
| `FontFace.FirstChar` | src/engine/graphics/renderer.c:113 | `FT_Get_First_Char` is the enumeration started below every code |
| `FontFace.NextAfter` | src/engine/graphics/renderer.c:116 | `FT_Get_Next_Char` from a listed code yields the next entry of the character map, or the end |
| `FontFace.CountGlyphs` | src/engine/graphics/renderer.c:110-120 | `count_glyphs` returns the number of code points in the face's character map |
| `FontAtlas.CeilSqrt` | src/engine/graphics/renderer.c:189 | the least `r` with `n <= r * r`, i.e. `ceil(sqrt(n))` on whole numbers |
| `FontAtlas.Pow2Ceil` | src/engine/graphics/renderer.c:190-191 | the least power of two that is at least `n`; never below 1 |
| `FontAtlas.AtlasSide` | src/engine/graphics/renderer.c:190-191 | the doubling loop from 1 stops exactly at the least power of two that reaches `max_dim` |
| `FontAtlas.GlyphAt` | src/engine/graphics/renderer.c:236-244 | the stored glyph keeps the bitmap's code, size and bearings and its atlas place; its advance is the 26.6 advance floored to whole pixels (`>> 6`) |
| `FontAtlas.Place` | src/engine/graphics/renderer.c:226-249 | one pass appends exactly one glyph, made from this bitmap, and keeps the earlier glyphs; the cursor ends just right of the new glyph, on its row |
| `FontAtlas.Pack` | src/engine/graphics/renderer.c:218-252 | the whole loop records one glyph per bitmap |
| `FontAtlas.PackInvariant` | src/engine/graphics/renderer.c:206-252 | packing yields one glyph per bitmap, in order, with its code, metrics and size; offsets are non-negative; `ty` never decreases; the cursor sits just right of the last glyph on its row |
| `FontAtlas.PackPrefix` | src/engine/graphics/renderer.c:218-252 | glyphs already placed are never moved by later ones |
| `FontAtlas.PackFirst` | src/engine/graphics/renderer.c:211-232 | the first glyph starts at the atlas origin, or, when wider than the atlas, at `x = 0` one row of its own height lower |
| `FontAtlas.PackConsecutive` | src/engine/graphics/renderer.c:226-249 | a glyph wraps exactly when it does not fit right of its predecessor; a wrapped glyph starts at `tx = 0`, one `max_row_h` (its own height included) lower; otherwise it sits right after its predecessor on the same row |
| `FontAtlas.PackWithinWidth` | src/engine/graphics/renderer.c:228-249 | a bitmap no wider than the atlas ends inside it horizontally |
| `FontAtlas.PackCanOverlap` | src/engine/graphics/renderer.c:226-232 | a concrete input on which the next row starts inside a wrapped glyph: packed rectangles may overlap |
| `FontAtlas.Uploads` | src/engine/graphics/renderer.c:234 | one upload per glyph, writing exactly that glyph's atlas rectangle |
| `FontAtlas.MaxDim` | src/engine/graphics/renderer.c:189 | with a non-negative line height, a square of side `max_dim` has room for `glyph_count` cells of side line height + 1 |
| `FontAtlas.NewAtlas` | src/engine/graphics/renderer.c:168-252 | the new entry carries the requested key and the loaded face, one glyph per code point, and a square atlas of side at least 1 |
| `FontAtlas.NewAtlasShape` | src/engine/graphics/renderer.c:168-252 | a new entry carries its key; its atlas is square, its side the least power of two of at least `max_dim`; it has one glyph per code point, in ascending code order, as many as `count_glyphs`; and one upload per glyph |
| `FontAtlas.BuildAtlas` | src/engine/graphics/renderer.c:181-252 | counting, sizing and packing build exactly the entry `NewAtlas` describes |
| `FontAtlas.PlaceBitmap` | src/engine/graphics/renderer.c:225-248 | one pass of the loop body on `x`, `y`, `max_row_h` lands the glyph exactly where `Place` puts it and leaves the cursor where `Place` leaves it |
| `FontAtlas.PackFace` | src/engine/graphics/renderer.c:206-252 | the enumeration loop with its `x`, `y`, `max_row_h` cursor produces exactly the fold `Pack`, and its uploads |
| `FontCache.FindFrom` | src/engine/graphics/renderer.c:154-161 | the list walk from a position finds the first entry with the key, or reports that none has it |
| `FontCache.Find` | src/engine/graphics/renderer.c:152-161 | the first cached entry whose `pt` and `style` both match, or none |
| `FontCache.Search` | src/engine/graphics/renderer.c:148-261 | NULL and an unchanged cache while there is no cache; otherwise the cache only grows at its end, by at most one entry; a returned entry has the requested key and is in the cache; when the cache grows, the new tail is what is returned |
| `FontCache.SearchHit` | src/engine/graphics/renderer.c:152-161 | with a cached entry for the key, `search_font` returns it and leaves the cache unchanged |
| `FontCache.SearchMiss` | src/engine/graphics/renderer.c:168-260 | a miss whose face loads appends exactly one entry, keyed `(pt, style)` and built from that face, and returns it as the tail |
| `FontCache.SearchFails` | src/engine/graphics/renderer.c:148-179 | without a cache, or when the face fails to load, the result is NULL and the cache is unchanged |
| `FontCache.SearchKeepsCache` | src/engine/graphics/renderer.c:148-260 | the cache only grows at its end, by at most one entry; keys stay unique; a returned entry has the requested key and is in the cache |
| `FontCache.SearchIdempotent` | src/engine/graphics/renderer.c:148-260 | a second call with the same key returns the same entry and does not grow the cache, whatever the cache holds |
| `FontCache.FontCache.constructor` | src/engine/graphics/renderer.c:20 | before initialisation there is no cache, and no key appears twice |
| `FontCache.FontCache.Init` | src/engine/graphics/renderer.c:327 | initialisation creates an empty cache, and no key appears twice |
| `FontCache.FontCache.Quit` | src/engine/graphics/renderer.c:397-398 | shutdown empties the cache, and no key appears twice |
| `FontCache.FontCache.SearchFont` | src/engine/graphics/renderer.c:148-261 | the result and the new cache are exactly those `Search` gives for the old cache; a cache with no key twice keeps that property |
| `FontCache.FontCache.RenderText` | src/engine/graphics/renderer.c:486-563 | the cache is updated as `search_font` updates it; a NULL font emits no vertices; otherwise the vertices are the layout of the text; a cache with no key twice keeps that property |
| `TextLayout.Resolve` | src/engine/graphics/renderer.c:516-556 | the scan's outcome: drawn only by a listed glyph that draws the character; spaced only by a listed space glyph with a non-zero advance; a line break only for `'\n'` on a non-empty list; unmatched only when no glyph draws the character and, for a space, none advances over it |
| `TextLayout.ResolveOrdinary` | src/engine/graphics/renderer.c:516-556 | an ordinary character is drawn iff some glyph draws it, and then by the first such glyph; otherwise it is dropped |
| `TextLayout.ResolveSpace` | src/engine/graphics/renderer.c:516-556 | a space is dropped iff no glyph draws it or has a non-zero advance for it; otherwise the first such glyph decides: drawn when it has a bitmap, skipped by its advance when it has not |
| `TextLayout.ResolveNewline` | src/engine/graphics/renderer.c:549-553 | a newline breaks the line on any non-empty glyph list, unless the first glyph draws it; with no glyphs it is ignored |
| `TextLayout.U32Sub` | src/engine/graphics/renderer.c:520 | GLuint subtraction: a result in `[0, 2^32)` congruent to the difference |
| `TextLayout.FirstOyAsWritten` | src/engine/graphics/renderer.c:520 | as written, the first glyph's `oy` never exceeds `y` and lies within 2^32 below it, whatever the bearing |
| `TextLayout.AnchoredOyAsWritten` | src/engine/graphics/renderer.c:524 | as written, a later glyph's `oy` lies in `[firstBottom - height, firstBottom - height + 2^32)` |
| `TextLayout.FirstOy` | src/engine/graphics/renderer.c:520 | the first glyph on a line has its bottom `bt` below the pen's `y` |
| `TextLayout.AnchoredOy` | src/engine/graphics/renderer.c:524 | a later glyph on the line has its top `bt` above the line's `firstBottom` |
| `TextLayout.OyAgreeWhenBelowTop` | src/engine/graphics/renderer.c:520-524 | when `bt <= height`, the unsigned and the signed readings agree |
| `TextLayout.OyWrapsAboveBaseline` | src/engine/graphics/renderer.c:520-524 | when `bt > height`, the unsigned reading puts the glyph 2^32 pixels off: above when it is first on its line, below otherwise |
| `TextLayout.HyphenPlacedOffScreen` | src/engine/graphics/renderer.c:520 | a concrete hyphen at `y = 100` lands at 106 when signed and at `100 - 4294967290` as written |
| `TextLayout.Quad` | src/engine/graphics/renderer.c:534-540 | six vertices forming two triangles that share the top-right to bottom-left diagonal: vertices 1 and 3, and 2 and 4, coincide |
| `TextLayout.QuadSpan` | src/engine/graphics/renderer.c:530-540 | a quad is six vertices spanning exactly `[ox, ox+w] x [oy, oy+h]` on screen and the glyph's rectangle in the atlas |
| `TextLayout.Step` | src/engine/graphics/renderer.c:516-556 | one character only appends to the vertices, six of them exactly when it is drawn; only a newline moves `y` |
| `TextLayout.StepRules` | src/engine/graphics/renderer.c:516-556 | the pen rule for each outcome of one character: drawn, space, line break or unmatched |
| `TextLayout.TextQuads` | src/engine/graphics/renderer.c:507-556 | six vertices per drawn character of the string up to its NUL, so at most `6 * strlen(text)` |
| `TextLayout.RunAppend` | src/engine/graphics/renderer.c:513-556 | laying out `a + b` is laying out `b` from where `a` left the pen |
| `TextLayout.DrawnCount` | src/engine/graphics/renderer.c:513-544 | the number of drawn characters never exceeds the number of characters |
| `TextLayout.RunVertexCount` | src/engine/graphics/renderer.c:507-540 | layout only appends; `n` is six times the number of drawn characters, so at most `6 * strlen(text)` |
| `TextLayout.RunOneLine` | src/engine/graphics/renderer.c:542-547 | on a single line the pen keeps its `y`, advances by the sum of the advances, and keeps an established `firstBottom` |
| `TextLayout.RunLines` | src/engine/graphics/renderer.c:549-553 | when newlines break lines, the pen ends one line height lower per newline; after a trailing newline it is back at the start x with no baseline |
| `TextLayout.RunNoGlyphs` | src/engine/graphics/renderer.c:514-556 | a font without glyphs emits nothing and never moves the pen |
| `TextLayout.LayoutChar` | src/engine/graphics/renderer.c:516-556 | the inner `while (current)` scan for one character, leaving at its first match, changes the pen and vertices exactly as `Step` does |
| `TextLayout.LayoutText` | src/engine/graphics/renderer.c:507-556 | the character loop, with its inner glyph scan and breaks, produces exactly the fold `Run` up to the NUL; its vertex count is `6 * drawn <= 6 * strlen` |
| `UiTextbox.FocusAfter` | src/engine/ui/textbox.c:48-54 | after a click the box is focused iff the click was inside; without a click focus is unchanged |
| `UiTextbox.KeyPressed` | src/engine/ui/textbox.c:62-75 | only backspace edits; with ctrl held it deletes a word, otherwise the last character |
| `UiTextbox.LastSpaceBefore` | src/engine/ui/textbox.c:64-69 | the scan settles on 0 or on a space before the cursor, with no space between it and the cursor |
| `UiTextbox.DeleteWord` | src/engine/ui/textbox.c:62-73 | ctrl+backspace truncates the text before the last space before the cursor (or to empty), and puts the cursor at the cut; with the cursor at 0 nothing changes |
| `UiTextbox.BackspaceIndexAsWritten` | src/engine/ui/textbox.c:76 | the `size_t` index written by backspace lies below 2^64 and is congruent to `strlen - 1` modulo 2^64 |
| `UiTextbox.BackspaceIndex` | src/engine/ui/textbox.c:76 | the intended index: the last character of a non-empty text, the terminator of an empty one |
| `UiTextbox.BackspaceIndexAgrees` | src/engine/ui/textbox.c:76 | both indices agree on every non-empty text |
| `UiTextbox.BackspaceOnEmptyTextOutOfBounds` | src/engine/ui/textbox.c:76 | on empty text the written index is beyond any allocatable buffer, while the intended one is in bounds |
| `UiTextbox.DeleteLast` | src/engine/ui/textbox.c:75-79 | backspace drops the last character wherever the cursor is, and moves the cursor one left, stopping at 0; the cursor stays within the text |
| `UiTextbox.ApplyKey` | src/engine/ui/textbox.c:61-81 | every key edit leaves a prefix of the text and a cursor within it; no key, no change |
| `UiTextbox.Append` | src/engine/ui/textbox.c:109-116 | input is appended iff text, input and terminator fit, and the cursor then moves by exactly one; otherwise nothing changes; the text stays below the capacity |
| `UiTextbox.CursorStaysAtEnd` | src/engine/ui/textbox.c:62-116 | with single-character inputs the cursor stays at the end of the text through every edit |
| `UiTextbox.LongInputLeavesCursorBehind` | src/engine/ui/textbox.c:109-116 | a two-character input moves the cursor by one only |
| `UiTextbox.CursorWidth` | src/engine/ui/textbox.c:84-96 | at offset 0 the width is 0; when the empty string measures 0, the cursor sits after the first `min(cursor, strlen)` characters |
| `UiTextbox.InputTimer.constructor` | src/engine/ui/textbox.c:9 | the shared input deadline starts at 0 |
| `UiTextbox.InputTimer.Arm` | src/engine/ui/textbox.c:11-13 | an edit pushes the deadline to now + 100 ms |
| `UiTextbox.Textbox.constructor` | src/engine/ui/textbox.c:15-39 | capacity is `text_length + 1`, all zero; empty text; cursor 0; unfocused; flag set; padding 5; outline 2; blink off from now; cursor height measured from `"|"` |
| `UiTextbox.Textbox.DeleteWordInPlace` | src/engine/ui/textbox.c:64-72 | the scan and `memset` leave exactly the text and cursor `DeleteWord` gives |
| `UiTextbox.Textbox.DeleteLastInPlace` | src/engine/ui/textbox.c:76-77 | clearing one index leaves exactly the text and cursor `DeleteLast` gives |
| `UiTextbox.Textbox.EditInPlace` | src/engine/ui/textbox.c:62-80 | a key edit on the buffer gives exactly `ApplyKey` |
| `UiTextbox.Textbox.Refocus` | src/engine/ui/textbox.c:48-54 | focus becomes `FocusAfter` of the old focus |
| `UiTextbox.Textbox.Blink` | src/engine/ui/textbox.c:57-60 | when the blink tick has passed, blink flips and the next flip is 500 ms later; otherwise both stay |
| `UiTextbox.Textbox.KeyEdit` | src/engine/ui/textbox.c:61-81 | a key edit changes the text and cursor as `ApplyKey` does, marks the cursor x stale and arms the input deadline; no key changes nothing |
| `UiTextbox.Textbox.MeasureCursor` | src/engine/ui/textbox.c:85-96 | the measured width is `CursorWidth` of the text and cursor |
| `UiTextbox.Textbox.RefreshCursorX` | src/engine/ui/textbox.c:84-100 | `cursor_x = rect.x + padding + width` and the flag is cleared |
| `UiTextbox.Textbox.Update` | src/engine/ui/textbox.c:47-101 | focus, then (focused) blink, then (focused, deadline passed) at most one key edit, then the cursor x when stale; the buffer invariant is kept, and no other field changes |
| `UiTextbox.Textbox.StrCat` | src/engine/ui/textbox.c:113 | the input and a new terminator go right after the text |
| `UiTextbox.Textbox.OnSdlEvent` | src/engine/ui/textbox.c:103-121 | text input while focused changes text and cursor as `Append` does, setting the flag when it appends; anything else changes nothing; no other field ever changes |
| `UiTextbox.Textbox.CursorRect` | src/engine/ui/textbox.c:139 | the bar is 2 wide and `cursor_size` high at `cursor_x`; when it is at most half the box's height it lies within the box vertically |
| `UiTextbox.Textbox.Render` | src/engine/ui/textbox.c:123-144 | outline, background, the text (only when non-empty, vertically centred with C division), and the cursor bar exactly when focused and blink is on |
| `UiSwitch.Step` | src/engine/ui/switch.c:20-25 | the value flips iff the mouse is inside, the button is clicked and the click tick has passed; a flip records now; otherwise nothing changes |
| `UiSwitch.TwoClicksRestore` | src/engine/ui/switch.c:21-24 | two accepted clicks restore the value |
| `UiSwitch.ClickedTickMonotone` | src/engine/ui/switch.c:21-22 | the click tick never moves back |
| `UiSwitch.OffKnob` | src/engine/ui/switch.c:37-38 | the off knob spans from the left padding to the middle, with padding above and below |
| `UiSwitch.OnKnob` | src/engine/ui/switch.c:43-44 | the on knob spans from the middle to the padding before the right edge (less the odd pixel of the width), with padding above and below |
| `UiSwitch.Percent` | src/engine/ui/switch.c:50 | with a positive animation time, `percent` is in `[0, 1)` exactly while the animation runs: after the click tick, before it settles |
| `UiSwitch.KnobOffset` | src/engine/ui/switch.c:51-52 | the slide is 0 at the click and half the width at the end of the animation |
| `UiSwitch.SlidingKnob` | src/engine/ui/switch.c:61-75 | the sliding knob has the resting knobs' size and row; turning on it is the slide right of the off knob, turning off the slide left of the on knob |
| `UiSwitch.BlendChannel` | src/engine/ui/switch.c:56-58 | a channel is the old colour's at the click and the new colour's at the end |
| `UiSwitch.Blend` | src/engine/ui/switch.c:54-59 | the animated colour is opaque and blends each channel |
| `UiSwitch.AnimatedKnob` | src/engine/ui/switch.c:49-78 | the animating knob: the resting knobs' size, moved by the slide from the resting place of the old value, in the blended colour |
| `UiSwitch.AnimationStartsAtRest` | src/engine/ui/switch.c:35-78 | at the click itself the knob is drawn where it rested before the click, in that value's colour made opaque |
| `UiSwitch.AnimationEnd` | src/engine/ui/switch.c:49-78 | at the end of the animation the knob has the new value's colour but lies `padding` beyond its resting place, so it steps back by the padding when it settles |
| `UiSwitch.KnobsAdjacent` | src/engine/ui/switch.c:37-44 | the on knob starts where the off knob ends, at the same `y`, with the same size |
| `UiSwitch.KnobsInside` | src/engine/ui/switch.c:37-44 | both knobs lie inside the switch: padding on the left of the off knob, padding plus the odd pixel on the right of the on knob, padding above and below |
| `UiSwitch.Switch.constructor` | src/engine/ui/switch.c:7-18 | rect `(0, 0, w, h)`, off, click tick -1000, padding 4, animation time 350 |
| `UiSwitch.Switch.Update` | src/engine/ui/switch.c:20-25 | value and click tick change exactly as `Step` says |
| `UiSwitch.Switch.Settled` | src/engine/ui/switch.c:35 | settled exactly when `animation_time` has passed since the click; a settled switch with a non-negative animation time has passed its click tick |
| `UiSwitch.Switch.Render` | src/engine/ui/switch.c:31-80 | always the background and one knob: once settled, the resting knob for the value in its colour; before that, the animating knob at the current `percent` |

## Left out

- OpenGL, GLEW, SDL and FreeType calls are not modelled: context setup, shaders, buffers, blend state, texture creation and draw calls. A texture upload is recorded as the rectangle it writes, a text draw as its vertex list, and a widget draw as a list of draw commands.
- Glyph rasterisation is taken to succeed. When `FT_Load_Char` fails, the packing loop `continue`s without advancing to the next code point, so it never ends; it also logs `fterr` instead of `ftcerr`.
- Floats:
  - vertices carry atlas texel coordinates; the division by the atlas size that gives texture coordinates is not modelled;
  - `ceilf(sqrtf(n))` is the exact integer ceiling square root;
  - colour scaling and the model matrices are not modelled.
- `TextLayout.Step`, and with it `Run`, `LayoutChar` and `LayoutText`, places glyphs by the signed `height - bt`, not by the GLuint difference of renderer.c:520 and :524: a glyph whose `bt` exceeds its height (a hyphen) lands where it was evidently meant to, not about 2^32 px away. The as-written placement is `TextLayout.FirstOyAsWritten` and `TextLayout.AnchoredOyAsWritten` (see Findings).
- Glyph bearings `bl` and `bt`, and the advance `advance.x >> 6`, are stored as `GLuint`, so negative bearings and a negative advance wrap. The model keeps them signed; only the `height - bt` subtraction is modelled modulo 2^32 (see Findings).
- Integer widths are unbounded: `max_dim` and `tex_width` overflowing `int`, and tick wrap-around, are not modelled.
- Characters are Dafny `char`s compared by code. Multi-byte UTF-8 input, where one event appends several bytes but moves the cursor by one, is only visible through `UiTextbox.LongInputLeavesCursorBehind`.
- `TextLayout.Resolve`: matches a character to a glyph by its code point, as happens for ASCII text or where `char` is unsigned. Where `char` is signed (x86), `render_text` compares the `FT_ULong` glyph code with a sign-extended `char`, so every byte of 0x80 and above, such as each byte of UTF-8 text, matches no glyph and is dropped. That sign extension is not modelled.
- `render_text_size` is an empty stub and is not modelled. The text box's measurement functions are not part of this model; they are the `Measure` parameter.
- `render_texture2D`'s stray `search_font(48, STYLE_REGULAR)` call is not modelled, and neither is the text-texture cache `pTextCache`, which nothing fills.
- `render_init` can fail before it creates the font cache; `FontCache.FontCache.Init` models only the cache creation.
- The glyph list and the cache are sequences. Freeing (`free_font`, `list_clear` freeing entries) and the leak of `cfont` when `FT_New_Face` fails are not modelled.
- The text box's `SDL_TEXTEDITING` branch only logs and is modelled as changing nothing. `textbox_create` leaves `cursor_x` uninitialised; the model starts it at 0, and the set flag makes the first update compute it. `fg` is stored but never used by the render.
- `UiTextbox.Textbox.OnSdlEvent`: requires the input text to be non-empty and NUL-free, which SDL guarantees for text-input events.
- `UiSwitch.Switch.Render` requires a non-zero animation time: with 0, C's float division gives an infinite or NaN `percent`, which is not modelled. `percent` and `round` are computed on exact reals, not in single precision.
- The progress bar, the logger, the entity and tilemap declarations and the client's frame loop are not part of this model.

## Findings

| source | as written | input that shows it | evidently intended | confidence | as-written member | corrected member |
|---|---|---|---|---|---|---|
| src/engine/graphics/renderer.c:520 | `oy = y - (glyph->height - glyph->bt)` subtracts two `GLuint`s, so the difference wraps modulo 2^32 when `bt > height`; the same holds for the anchored `oy` at line 524 | a hyphen with `height = 2`, `bt = 8`, drawn first on a line at `y = 100`: as written `oy = 100 - 4294967290`, intended `oy = 106` | a signed difference: the glyph's bottom `bt` below the pen, or its top `bt` above `firstBottom` | high, not executed | `TextLayout.HyphenPlacedOffScreen` | `TextLayout.FirstOy` |
| src/engine/ui/textbox.c:76 | `pText[max(0, strlen(pText) - 1)] = '\0'` computes `strlen - 1` in `size_t`, so on an empty text the index is 2^64 - 1 and `max(0, …)` does not clamp it | backspace in a focused, empty text box | clear index 0 (the terminator) when the text is empty, the last character otherwise | medium (`max` is not part of this model), not executed | `UiTextbox.BackspaceOnEmptyTextOutOfBounds` | `UiTextbox.BackspaceIndex` |
