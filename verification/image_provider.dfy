/** The emoji picker's pixmap provider.

    `get_pixmap` keeps one pixmap per emoji in a process-wide cache keyed by the canonical
    alias only. On a miss it reads the emoji's file through an image reader told to render
    at the physical size (logical size times the device pixel ratio, truncated), caches the
    result and returns it; when the file cannot be read it returns a transparent pixmap of
    the logical size times the ratio (rounded, as Qt's `QSize * qreal` does) and caches
    nothing. The cache is a map and the file system is a pair of functions. */
module ImageProvider {
  import opened Util
  import opened Emoji

  datatype Size = Size(width: int, height: int)

  /** What a pixmap shows: the emoji's file as the reader rendered it at a requested size,
      or a transparent fill of a size. */
  datatype Picture = Decoded(path: string, scaledTo: Size) | Transparent(size: Size)

  datatype Pixmap = Pixmap(picture: Picture, dpr: Ratio)

  type Cache = map<string, Pixmap>

  /** The file of an emoji's characters (`get_emoji_path`), and whether the reader can
      read that file and gets a non-null image at a given scaled size. */
  datatype Loader = Loader(pathOf: string -> string, decodes: (string, Size) -> bool)

  /** The pixmap handed back, the cache afterwards, and the files read on the way. */
  datatype Fetch = Fetch(pixmap: Pixmap, cache: Cache, filesRead: seq<string>)

  const KeyPrefix: string := "emoji_"

  /** `f"emoji_{aliases[0]}"`; a record without aliases makes the indexing raise. */
  function CacheKey(e: Emoji): (key: Option<string>)
    ensures key.Some? <==> |e.aliases| > 0
    ensures key.Some? ==> StartsWith(key.value, KeyPrefix) && key.value[|KeyPrefix|..] == e.aliases[0]
  {
    if |e.aliases| > 0 then
      var key := KeyPrefix + e.aliases[0];
      assert key[..|KeyPrefix|] == KeyPrefix && key[|KeyPrefix|..] == e.aliases[0];
      Some(key)
    else None
  }

  /** The physical size the reader is asked for: each dimension times the ratio,
      truncated toward zero. */
  function TargetSize(size: Size, dpr: Ratio): (t: Size)
    ensures size.width * dpr.num >= 0 ==>
              0 <= t.width && t.width * dpr.den <= size.width * dpr.num < (t.width + 1) * dpr.den
    ensures size.width * dpr.num < 0 ==>
              t.width <= 0 && (t.width - 1) * dpr.den < size.width * dpr.num <= t.width * dpr.den
    ensures size.height * dpr.num >= 0 ==>
              0 <= t.height && t.height * dpr.den <= size.height * dpr.num < (t.height + 1) * dpr.den
    ensures size.height * dpr.num < 0 ==>
              t.height <= 0 && (t.height - 1) * dpr.den < size.height * dpr.num <= t.height * dpr.den
  {
    Size(ScaleTrunc(size.width, dpr), ScaleTrunc(size.height, dpr))
  }

  /** The fallback's size, `size * dpr`: each dimension times the ratio, rounded. */
  function FallbackSize(size: Size, dpr: Ratio): (f: Size)
    ensures -(dpr.den as int) <= 2 * f.width * dpr.den - 2 * size.width * dpr.num <= dpr.den
    ensures -(dpr.den as int) <= 2 * f.height * dpr.den - 2 * size.height * dpr.num <= dpr.den
  {
    Size(ScaleRound(size.width, dpr), ScaleRound(size.height, dpr))
  }

  /** `get_pixmap(emoji, size, dpr)`. `None` is the `IndexError` of a record without
      aliases, raised before the cache is consulted. */
  function GetPixmap(cache: Cache, loader: Loader, e: Emoji, size: Size, dpr: Ratio): (r: Option<Fetch>)
    ensures r.None? <==> |e.aliases| == 0
    ensures r.Some? ==> var key := CacheKey(e).value;
              && (key in cache ==> r.value == Fetch(cache[key], cache, []))
              && (key !in cache ==> r.value.filesRead == [loader.pathOf(e.emoji)])
              && (key !in cache && loader.decodes(loader.pathOf(e.emoji), TargetSize(size, dpr)) ==>
                    && r.value.pixmap == Pixmap(Decoded(loader.pathOf(e.emoji), TargetSize(size, dpr)), dpr)
                    && r.value.cache == cache[key := r.value.pixmap])
              && (key !in cache && !loader.decodes(loader.pathOf(e.emoji), TargetSize(size, dpr)) ==>
                    && r.value.pixmap == Pixmap(Transparent(FallbackSize(size, dpr)), dpr)
                    && r.value.cache == cache)
  {
    match CacheKey(e)
    case None => None
    case Some(key) =>
      if key in cache then Some(Fetch(cache[key], cache, []))
      else
        var path := loader.pathOf(e.emoji);
        var target := TargetSize(size, dpr);
        if loader.decodes(path, target) then
          var pixmap := Pixmap(Decoded(path, target), dpr);
          Some(Fetch(pixmap, cache[key := pixmap], [path]))
        else Some(Fetch(Pixmap(Transparent(FallbackSize(size, dpr)), dpr), cache, [path]))
  }

  /** The cache only grows: every entry it held is still there, unchanged. */
  lemma CacheOnlyGrows(cache: Cache, loader: Loader, e: Emoji, size: Size, dpr: Ratio)
    requires |e.aliases| > 0
    ensures var f := GetPixmap(cache, loader, e, size, dpr).value;
            forall k :: k in cache ==> k in f.cache && f.cache[k] == cache[k]
  {
  }

  /** After a call for an emoji, a second call for any record with the same canonical
      alias, at any size and ratio, is a hit: no file is read and the first call's pixmap
      comes back, unless the first read failed. */
  lemma SecondCallHits(cache: Cache, loader: Loader, e: Emoji, size: Size, dpr: Ratio,
                       e2: Emoji, size2: Size, dpr2: Ratio)
    requires |e.aliases| > 0 && |e2.aliases| > 0 && e2.aliases[0] == e.aliases[0]
    requires var f := GetPixmap(cache, loader, e, size, dpr).value;
             CacheKey(e).value in f.cache
    ensures var f := GetPixmap(cache, loader, e, size, dpr).value;
            GetPixmap(f.cache, loader, e2, size2, dpr2) == Some(Fetch(f.pixmap, f.cache, []))
  {
  }

  /** A failed read leaves nothing behind, so the next call reads the file again. */
  lemma FailureRetries(cache: Cache, loader: Loader, e: Emoji, size: Size, dpr: Ratio)
    requires |e.aliases| > 0 && CacheKey(e).value !in cache
    requires !loader.decodes(loader.pathOf(e.emoji), TargetSize(size, dpr))
    ensures var f := GetPixmap(cache, loader, e, size, dpr).value;
            && f.cache == cache
            && GetPixmap(f.cache, loader, e, size, dpr).value.filesRead == [loader.pathOf(e.emoji)]
  {
  }

  /** Keys of records with different canonical aliases differ. */
  lemma KeysSeparateAliases(e1: Emoji, e2: Emoji)
    requires |e1.aliases| > 0 && |e2.aliases| > 0
    ensures CacheKey(e1) == CacheKey(e2) <==> e1.aliases[0] == e2.aliases[0]
  {
    if CacheKey(e1) == CacheKey(e2) {
      assert CacheKey(e1).value[|KeyPrefix|..] == CacheKey(e2).value[|KeyPrefix|..];
    }
  }

  /** Because the key leaves the size out, a pixmap loaded at 16 by 16 is what a later
      request for 32 by 32 gets. */
  lemma HitIgnoresRequestedSize(loader: Loader, e: Emoji)
    requires |e.aliases| > 0
    requires loader.decodes(loader.pathOf(e.emoji), Size(16, 16))
    ensures var one := Ratio(1, 1);
            var f := GetPixmap(map[], loader, e, Size(16, 16), one).value;
            GetPixmap(f.cache, loader, e, Size(32, 32), one).value.pixmap.picture
              == Decoded(loader.pathOf(e.emoji), Size(16, 16))
  {
    var one := Ratio(1, 1);
    assert TargetSize(Size(16, 16), one) == Size(16, 16);
  }

  /** The read path truncates and the fallback rounds: at ratio 1.25 a width of 10 asks the
      reader for 12 pixels, while the fallback is 13 wide. */
  lemma FallbackRoundsTargetTruncates()
    ensures TargetSize(Size(10, 10), Ratio(5, 4)) == Size(12, 12)
    ensures FallbackSize(Size(10, 10), Ratio(5, 4)) == Size(13, 13)
  {
  }
}
