/**
 * The renderer's font cache (`pFontCache`) and its two users: `search_font`, which finds
 * the entry for a `(pt, style)` key or builds and appends one, and `render_text`, which
 * lays a string out with the entry it gets back.
 */
module FontCache {
  import opened Wrappers
  import opened FontFace
  import opened FontAtlas
  import opened TextLayout

  /** What `search_font` returns, and the cache it leaves behind. */
  datatype SearchResult = SearchResult(font: Option<CachedFont>, cache: seq<CachedFont>)

  predicate HasKey(f: CachedFont, pt: int, style: int) {
    f.pt == pt && f.style == style
  }

  /** No two entries of the cache share a key. */
  predicate UniqueKeys(fonts: seq<CachedFont>) {
    forall i, j :: 0 <= i < j < |fonts| ==> !HasKey(fonts[j], fonts[i].pt, fonts[i].style)
  }

  /** The position of the first entry with key `(pt, style)` at or after `from`. */
  function FindFrom(fonts: seq<CachedFont>, pt: int, style: int, from: nat): (r: Option<nat>)
    requires from <= |fonts|
    ensures r.Some? ==> from <= r.value < |fonts| && HasKey(fonts[r.value], pt, style)
                        && forall j :: from <= j < r.value ==> !HasKey(fonts[j], pt, style)
    ensures r.None? ==> forall j :: from <= j < |fonts| ==> !HasKey(fonts[j], pt, style)
    decreases |fonts| - from
  {
    if from == |fonts| then None
    else if HasKey(fonts[from], pt, style) then Some(from)
    else FindFrom(fonts, pt, style, from + 1)
  }

  /** The linked-list walk of `search_font`: the first entry whose key is `(pt, style)`. */
  function Find(fonts: seq<CachedFont>, pt: int, style: int): (r: Option<nat>)
    ensures r.Some? ==> r.value < |fonts| && HasKey(fonts[r.value], pt, style)
                        && forall j :: 0 <= j < r.value ==> !HasKey(fonts[j], pt, style)
    ensures r.None? ==> forall j :: 0 <= j < |fonts| ==> !HasKey(fonts[j], pt, style)
  {
    FindFrom(fonts, pt, style, 0)
  }

  /**
   * `search_font`: NULL while the cache does not exist; the cached entry on a hit; on a
   * miss, NULL if the face cannot be loaded, otherwise a new entry appended to the cache
   * and returned as its tail.
   */
  function Search(initialised: bool, fonts: seq<CachedFont>, pt: int, style: int, load: FaceLoader): (r: SearchResult)
    ensures !initialised ==> r == SearchResult(None, fonts)
    ensures fonts <= r.cache && |r.cache| <= |fonts| + 1
    ensures r.font.Some? ==> r.font.value in r.cache && HasKey(r.font.value, pt, style)
    ensures |r.cache| == |fonts| + 1 ==> r.font == Some(r.cache[|fonts|])
  {
    if !initialised then SearchResult(None, fonts)
    else
      match Find(fonts, pt, style)
      case Some(i) => SearchResult(Some(fonts[i]), fonts)
      case None =>
        match load(FontPath(style), pt)
        case None => SearchResult(None, fonts)
        case Some(face) =>
          var cache := fonts + [NewAtlas(pt, style, face)];
          SearchResult(Some(cache[|cache| - 1]), cache)
  }

  /** A hit returns the cached entry with that key and leaves the cache as it was. */
  lemma SearchHit(fonts: seq<CachedFont>, pt: int, style: int, load: FaceLoader, i: nat)
    requires i < |fonts| && HasKey(fonts[i], pt, style) && UniqueKeys(fonts)
    ensures Search(true, fonts, pt, style, load) == SearchResult(Some(fonts[i]), fonts)
  {
  }

  /**
   * A miss whose face loads appends exactly one entry, keyed `(pt, style)` and built from
   * that face, and returns it.
   */
  lemma SearchMiss(fonts: seq<CachedFont>, pt: int, style: int, load: FaceLoader)
    requires forall j :: 0 <= j < |fonts| ==> !HasKey(fonts[j], pt, style)
    requires load(FontPath(style), pt).Some?
    ensures var r := Search(true, fonts, pt, style, load);
      var e := NewAtlas(pt, style, load(FontPath(style), pt).value);
      && r == SearchResult(Some(e), fonts + [e])
      && HasKey(e, pt, style)
  {
    NewAtlasShape(pt, style, load(FontPath(style), pt).value);
  }

  /** Without a cache, or on a miss whose face does not load, the result is NULL and nothing is added. */
  lemma SearchFails(initialised: bool, fonts: seq<CachedFont>, pt: int, style: int, load: FaceLoader)
    requires !initialised || ((forall j :: 0 <= j < |fonts| ==> !HasKey(fonts[j], pt, style))
                              && load(FontPath(style), pt).None?)
    ensures Search(initialised, fonts, pt, style, load) == SearchResult(None, fonts)
  {
  }

  /**
   * Whatever a call returns, the cache only grows at its end, by at most one entry, and
   * never gains a second entry for a key: a returned entry always carries the key asked for.
   */
  lemma SearchKeepsCache(initialised: bool, fonts: seq<CachedFont>, pt: int, style: int, load: FaceLoader)
    requires UniqueKeys(fonts)
    ensures var r := Search(initialised, fonts, pt, style, load);
      && fonts <= r.cache && |r.cache| <= |fonts| + 1
      && UniqueKeys(r.cache)
      && (r.font.Some? ==> HasKey(r.font.value, pt, style) && r.font.value in r.cache)
  {
    var r := Search(initialised, fonts, pt, style, load);
    if |r.cache| == |fonts| + 1 {
      NewAtlasShape(pt, style, load(FontPath(style), pt).value);
      assert forall j :: 0 <= j < |fonts| ==> r.cache[j] == fonts[j];
    }
  }

  /**
   * Asking twice for the same key gives the same entry, and the second call does not
   * touch the cache (no second face load, no second atlas).
   */
  lemma SearchIdempotent(initialised: bool, fonts: seq<CachedFont>, pt: int, style: int, load: FaceLoader)
    ensures var r := Search(initialised, fonts, pt, style, load);
      r.font.Some? ==> Search(initialised, r.cache, pt, style, load) == r
  {
    var r := Search(initialised, fonts, pt, style, load);
    if r.font.Some? && |r.cache| == |fonts| + 1 {
      assert fonts == r.cache[..|fonts|];
      var k := Find(r.cache, pt, style);
      assert k == Some(|fonts|);
    }
  }

  /** The renderer's font cache: `pFontCache`, NULL until the renderer is initialised. */
  class FontCache {
    var initialised: bool
    var fonts: seq<CachedFont>

    /** The cache never holds two entries for one key. */
    predicate Valid()
      reads this
    {
      UniqueKeys(fonts)
    }

    /** Before `render_init`: no cache list exists. */
    constructor ()
      ensures !initialised && fonts == [] && Valid()
    {
      initialised := false;
      fonts := [];
    }

    /** `render_init` creating the cache list. */
    method Init()
      modifies this
      ensures initialised && fonts == [] && Valid()
    {
      initialised := true;
      fonts := [];
    }

    /** `render_quit` clearing the cache list; the list itself stays. */
    method Quit()
      modifies this
      ensures initialised == old(initialised) && fonts == [] && Valid()
    {
      fonts := [];
    }

    /** `search_font`. */
    method SearchFont(pt: int, style: int, load: FaceLoader) returns (font: Option<CachedFont>)
      modifies this
      ensures SearchResult(font, fonts) == Search(old(initialised), old(fonts), pt, style, load)
      ensures initialised == old(initialised)
      ensures old(Valid()) ==> Valid()
    {
      if UniqueKeys(fonts) {
        SearchKeepsCache(initialised, fonts, pt, style, load);
      }
      if !initialised {
        return None;
      }
      var i := 0;
      while i < |fonts|
        invariant i <= |fonts|
        invariant FindFrom(fonts, pt, style, i) == Find(fonts, pt, style)
      {
        var c := fonts[i];
        if c.pt == pt && c.style == style {
          return Some(c);
        }
        i := i + 1;
      }
      var face := load(FontPath(style), pt);
      if face.None? {
        return None;
      }
      var cfont := BuildAtlas(pt, style, face.value);
      fonts := fonts + [cfont];
      font := Some(fonts[|fonts| - 1]);
    }

    /**
     * `render_text`: look the font up (which may add it to the cache) and, when there is
     * one, lay the text out; a NULL font draws nothing.
     */
    method RenderText(pt: int, style: int, text: string, x: real, y: real, load: FaceLoader)
      returns (coords: seq<Vertex>)
      modifies this
      ensures var r := Search(old(initialised), old(fonts), pt, style, load);
        && fonts == r.cache && initialised == old(initialised)
        && coords == match r.font { case None => [] case Some(f) => TextQuads(f, text, x, y) }
      ensures old(Valid()) ==> Valid()
    {
      var cfont := SearchFont(pt, style, load);
      if cfont.None? {
        return [];
      }
      coords := LayoutText(cfont.value, text, x, y);
    }
  }
}
