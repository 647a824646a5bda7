/** How an emoji is named when it sits in the document as an image.

    Both revisions give the image a `twemoji://<alias>` name. The current one reads the
    alias back as the URI authority (section 3.2 of RFC 3986, Python's `urlparse(...).netloc`)
    and may add a `?m=<margin>` query; the older one reads it back by dropping the ten
    characters of the scheme prefix. The current revision also keys the pixmap it registers
    with the document by a second, differently shaped URL (`EncodeUrl`). */
module ImageName {
  import opened Util
  import opened Emoji
  import opened Document

  const Scheme: string := "twemoji://"

  /** `_is_emoji_frag`'s name test. */
  predicate IsEmojiName(name: string) {
    StartsWith(name, Scheme)
  }

  /** An image cell named with the emoji scheme. */
  predicate IsEmojiCell(c: Cell) {
    c.Image? && IsEmojiName(c.format.name)
  }

  // ---------------------------------------------------------------------------------
  // URI authority, as Python's urlsplit finds it

  /** Characters Python accepts in a URL scheme. */
  predicate IsSchemeChar(c: char) {
    ('a' <= c <= 'z') || ('A' <= c <= 'Z') || ('0' <= c <= '9') || c == '+' || c == '-' || c == '.'
  }

  predicate IsAsciiLetter(c: char) {
    ('a' <= c <= 'z') || ('A' <= c <= 'Z')
  }

  /** `s.find(c)` from index `from`, with `|s|` standing for "not found". */
  function FindFrom(s: string, cs: set<char>, from: nat): (i: nat)
    requires from <= |s|
    ensures from <= i <= |s|
    ensures i < |s| ==> s[i] in cs
    ensures forall k :: from <= k < i ==> s[k] !in cs
    decreases |s| - from
  {
    if from == |s| || s[from] in cs then from else FindFrom(s, cs, from + 1)
  }

  /** What follows the scheme: everything after the first ':' when the text before it is a
      scheme (a letter, then scheme characters), else the whole URL. */
  function AfterScheme(url: string): string {
    var i := FindFrom(url, {':'}, 0);
    if 0 < i < |url| && IsAsciiLetter(url[0]) && (forall k :: 0 <= k < i ==> IsSchemeChar(url[k]))
    then url[i + 1..]
    else url
  }

  /** `urlparse(url).netloc`: after "//", up to the first '/', '?' or '#'; empty when the
      rest does not start with "//". */
  function Netloc(url: string): (host: string)
    ensures '/' !in host && '?' !in host && '#' !in host
  {
    var rest := AfterScheme(url);
    if StartsWith(rest, "//") then
      var e := FindFrom(rest, {'/', '?', '#'}, 2);
      assert forall k :: 0 <= k < e - 2 ==> rest[2..e][k] == rest[k + 2];
      rest[2..e]
    else ""
  }

  /** Aliases that survive as an authority: no character of the URI delimiters that end it. */
  predicate DelimiterFree(alias: string) {
    '/' !in alias && '?' !in alias && '#' !in alias
  }

  // ---------------------------------------------------------------------------------
  // The current revision

  /** `_emoji_to_text_image`: a middle-aligned square of side `height + 2 * margin`, named
      by the canonical alias, with the margin in the query when it is positive. A record
      without aliases gets an empty format. */
  function EmojiToTextImage(e: Emoji, height: int, margin: int): (f: ImageFormat)
    ensures |e.aliases| == 0 ==> f == EmptyImageFormat
    ensures |e.aliases| > 0 ==>
              && IsEmojiName(f.name)
              && f.alignMiddle
              && f.width == f.height == height + 2 * margin
              && (margin > 0 ==> '?' in f.name)
              && (margin <= 0 && DelimiterFree(e.aliases[0]) ==> '?' !in f.name)
  {
    if |e.aliases| > 0 then
      var name := Scheme + e.aliases[0] + (if margin > 0 then "?m=" + IntToDecimal(margin) else "");
      assert name[..|Scheme|] == Scheme;
      assert margin > 0 ==> name[|Scheme| + |e.aliases[0]|] == '?';
      assert margin <= 0 ==> name == Scheme + e.aliases[0];
      ImageFormat(name, height + 2 * margin, height + 2 * margin, true)
    else EmptyImageFormat
  }

  /** `_text_image_to_emoji`: the record of the name's authority. */
  function TextImageToEmoji(db: EmojiDb, f: ImageFormat): (r: Option<Emoji>)
    ensures r.Some? <==> Netloc(f.name) in db.byAlias
    ensures r.Some? ==> r.value == db.byAlias[Netloc(f.name)]
  {
    LookupAlias(db, Netloc(f.name))
  }

  lemma FindDelimiterAfterAlias(rest: string, alias: string, suffix: string)
    requires rest == "//" + alias + suffix
    requires DelimiterFree(alias)
    requires suffix == [] || suffix[0] == '?'
    ensures FindFrom(rest, {'/', '?', '#'}, 2) == 2 + |alias|
  {
    var e := FindFrom(rest, {'/', '?', '#'}, 2);
    assert forall k :: 2 <= k < 2 + |alias| ==> rest[k] == alias[k - 2];
    assert suffix != [] ==> rest[2 + |alias|] == suffix[0];
  }

  /** The authority of a built name is the alias it was built from, with or without the
      margin query. */
  lemma NetlocOfImageName(alias: string, margin: int, suffix: string)
    requires DelimiterFree(alias)
    requires suffix == (if margin > 0 then "?m=" + IntToDecimal(margin) else "")
    ensures Netloc(Scheme + alias + suffix) == alias
  {
    NetlocBeforeQuery(alias, suffix);
  }

  /** The authority of `twemoji://<alias>` followed by nothing or by a query. */
  lemma NetlocBeforeQuery(alias: string, suffix: string)
    requires suffix == [] || suffix[0] == '?'
    ensures DelimiterFree(alias) ==> Netloc(Scheme + alias + suffix) == alias
  {
    if DelimiterFree(alias) {
      NetlocOfDelimiterFree(alias, suffix);
    }
  }

  lemma NetlocOfDelimiterFree(alias: string, suffix: string)
    requires DelimiterFree(alias)
    requires suffix == [] || suffix[0] == '?'
    ensures Netloc(Scheme + alias + suffix) == alias
  {
    var url := Scheme + alias + suffix;
    assert url == Scheme + (alias + suffix);
    AfterOurScheme(alias + suffix);
    var rest := "//" + alias + suffix;
    assert "//" + (alias + suffix) == rest;
    FindDelimiterAfterAlias(rest, alias, suffix);
    assert rest[2..2 + |alias|] == alias;
  }

  /** The scheme of a built name is recognised: what follows it is "//" and the rest. */
  lemma AfterOurScheme(x: string)
    ensures AfterScheme(Scheme + x) == "//" + x
  {
    var url := Scheme + x;
    assert url[..10] == Scheme;
    assert forall k :: 0 <= k < 7 ==> url[k] == "twemoji"[k] && IsSchemeChar(url[k]);
    FindFromAt(url, {':'}, 0, 7);
    assert url[8..] == "//" + x;
  }

  /** `FindFrom` stops at the first character of the set. */
  lemma {:induction false} FindFromAt(s: string, cs: set<char>, from: nat, i: nat)
    requires from <= i < |s| && s[i] in cs
    requires forall k :: from <= k < i ==> s[k] !in cs
    ensures FindFrom(s, cs, from) == i
    decreases i - from
  {
    if from < i {
      FindFromAt(s, cs, from + 1, i);
    }
  }

  /** Decoding an encoded image finds the record of its canonical alias, whatever the size
      and margin. */
  lemma ImageRoundTrip(db: EmojiDb, e: Emoji, height: int, margin: int)
    requires |e.aliases| > 0 && DelimiterFree(e.aliases[0])
    ensures TextImageToEmoji(db, EmojiToTextImage(e, height, margin)) == LookupAlias(db, e.aliases[0])
  {
    NetlocOfImageName(e.aliases[0], margin, if margin > 0 then "?m=" + IntToDecimal(margin) else "");
    assert EmojiToTextImage(e, height, margin).name
        == Scheme + e.aliases[0] + (if margin > 0 then "?m=" + IntToDecimal(margin) else "");
  }

  /** `_encode_url(alias, margin, size)`: the key under which the pixmap is registered.
      `dpr` is left at its default of 1.0 by the only caller. */
  function EncodeUrl(alias: string, margin: int, size: int): (url: string)
    ensures StartsWith(url, Scheme + alias + "?margin=")
    ensures StartsWith(url, Scheme + alias + "?margin=" + IntToDecimal(margin) + "&size=" + IntToDecimal(size))
    ensures |url| >= 8 && url[|url| - 8..] == "&dpr=1.0"
    ensures DelimiterFree(alias) ==> Netloc(url) == alias
  {
    var head := Scheme + alias + "?margin=" + IntToDecimal(margin) + "&size=" + IntToDecimal(size);
    KeyHead(alias, IntToDecimal(margin), IntToDecimal(size));
    KeyAuthority(alias, IntToDecimal(margin), IntToDecimal(size));
    head + "&dpr=1.0"
  }

  lemma KeyHead(alias: string, m: string, z: string)
    ensures var head := Scheme + alias + "?margin=" + m + "&size=" + z;
            && StartsWith(head + "&dpr=1.0", head)
            && StartsWith(head + "&dpr=1.0", Scheme + alias + "?margin=")
            && (head + "&dpr=1.0")[|head + "&dpr=1.0"| - 8..] == "&dpr=1.0"
  {
    var pre := Scheme + alias + "?margin=";
    var head := pre + m + "&size=" + z;
    var url := head + "&dpr=1.0";
    StartsWithConcat(head, "&dpr=1.0");
    assert url == pre + (m + "&size=" + z + "&dpr=1.0");
    StartsWithConcat(pre, m + "&size=" + z + "&dpr=1.0");
  }

  lemma KeyAuthority(alias: string, m: string, z: string)
    ensures DelimiterFree(alias) ==> Netloc(Scheme + alias + "?margin=" + m + "&size=" + z + "&dpr=1.0") == alias
  {
    var query := "?margin=" + m + "&size=" + z + "&dpr=1.0";
    assert Scheme + alias + "?margin=" + m + "&size=" + z + "&dpr=1.0" == Scheme + alias + query;
    NetlocBeforeQuery(alias, query);
  }

  /** The registered resource never carries the name the image asks for: the key's query
      starts "margin=", the name's query (when there is one) "m=" and a digit. */
  lemma ResourceKeyIsNotImageName(e: Emoji, height: int, margin: int, size: int)
    requires |e.aliases| > 0 && DelimiterFree(e.aliases[0])
    ensures EncodeUrl(e.aliases[0], margin, size) != EmojiToTextImage(e, height, margin).name
  {
    KeyMarks(e.aliases[0], margin, size);
    NameMarks(e, height, margin);
  }

  /** Right after the alias the key has '?', then 'm', then 'a'. */
  lemma KeyMarks(a: string, margin: int, size: int)
    ensures var key := EncodeUrl(a, margin, size);
            var n := |Scheme| + |a|;
            n + 2 < |key| && key[n] == '?' && key[n + 2] == 'a'
  {
    var key := EncodeUrl(a, margin, size);
    var n := |Scheme| + |a|;
    var pre := Scheme + a + "?margin=";
    assert key[..|pre|] == pre;
    assert pre[n] == '?' && pre[n + 2] == 'a';
    assert key[n] == key[..|pre|][n] && key[n + 2] == key[..|pre|][n + 2];
  }

  /** Right after the alias the name ends, or has "?m=". */
  lemma NameMarks(e: Emoji, height: int, margin: int)
    requires |e.aliases| > 0
    ensures var name := EmojiToTextImage(e, height, margin).name;
            var n := |Scheme| + |e.aliases[0]|;
            (margin > 0 ==> n + 2 < |name| && name[n + 2] == '=')
            && (margin <= 0 ==> |name| == n)
  {
    var a := e.aliases[0];
    var name := EmojiToTextImage(e, height, margin).name;
    var n := |Scheme| + |a|;
    if margin > 0 {
      var digits := IntToDecimal(margin);
      assert name == Scheme + a + "?m=" + digits;
      assert name[n + 2] == '=';
    } else {
      assert name == Scheme + a + "";
    }
  }

  // ---------------------------------------------------------------------------------
  // The older revision

  /** `emoji_to_text_image`: named by the canonical alias, middle-aligned, of the given
      height; the width is left unset. The canonical alias must exist (`aliases[0]`). */
  function LegacyEmojiToTextImage(e: Emoji, height: int): (f: ImageFormat)
    requires |e.aliases| > 0
    ensures IsEmojiName(f.name) && f.alignMiddle && f.height == height && f.width == 0
  {
    var name := Scheme + e.aliases[0];
    assert name[..|Scheme|] == Scheme;
    ImageFormat(name, 0, height, true)
  }

  /** `name[10:]`: Python's slice, empty for a shorter name. */
  function LegacyAlias(name: string): string {
    if |name| >= 10 then name[10..] else ""
  }

  /** `text_image_to_emoji` */
  function LegacyTextImageToEmoji(db: EmojiDb, f: ImageFormat): (r: Option<Emoji>)
    ensures |f.name| < 10 ==> r == LookupAlias(db, "")
    ensures |f.name| >= 10 ==> (r.Some? <==> f.name[10..] in db.byAlias)
    ensures |f.name| >= 10 && r.Some? ==> r.value == db.byAlias[f.name[10..]]
  {
    LookupAlias(db, LegacyAlias(f.name))
  }

  /** The scheme prefix is exactly ten characters, so the older decoder reads back every
      alias, delimiters and all. */
  lemma LegacyImageRoundTrip(db: EmojiDb, e: Emoji, height: int)
    requires |e.aliases| > 0
    ensures LegacyAlias(LegacyEmojiToTextImage(e, height).name) == e.aliases[0]
    ensures LegacyTextImageToEmoji(db, LegacyEmojiToTextImage(e, height)) == LookupAlias(db, e.aliases[0])
  {
    assert |Scheme| == 10;
    assert (Scheme + e.aliases[0])[10..] == e.aliases[0];
  }
}
