/** The emoji database as the document engine sees it, and skin-tone stripping.

    The database is external: it is modelled as two finite maps, one from alias (the text
    between the colons of `:smile:`) and one from code (the emoji's characters), each to an
    emoji record. An absent key is the library's `None`. */
module Emoji {
  import opened Util

  /** One database record: the emoji's characters and its aliases, canonical alias first. */
  datatype Emoji = Emoji(emoji: string, aliases: seq<string>)

  datatype EmojiDb = EmojiDb(byAlias: map<string, Emoji>, byCode: map<string, Emoji>)

  /** `get_emoji_by_alias` */
  function LookupAlias(db: EmojiDb, alias: string): Option<Emoji> {
    if alias in db.byAlias then Some(db.byAlias[alias]) else None
  }

  /** `get_emoji_by_code` */
  function LookupCode(db: EmojiDb, code: string): Option<Emoji> {
    if code in db.byCode then Some(db.byCode[code]) else None
  }

  /** Every record the alias table hands out has a canonical alias. */
  predicate AliasesPresent(db: EmojiDb) {
    forall a :: a in db.byAlias ==> |db.byAlias[a].aliases| > 0
  }

  /** The five emoji modifiers, U+1F3FB..U+1F3FF (Fitzpatrick types 1-2 to 6), which
      Unicode Technical Standard #51, section 2.4, defines as the skin-tone modifiers. */
  predicate IsSkinTone(c: char) {
    '\U{1F3FB}' <= c <= '\U{1F3FF}'
  }

  predicate ToneFree(s: string) {
    forall i :: 0 <= i < |s| ==> !IsSkinTone(s[i])
  }

  /** Reference definition: the string with every skin-tone modifier dropped. */
  function StripSkinTones(s: string): (r: string)
    ensures |r| <= |s|
    ensures ToneFree(r)
  {
    if s == [] then []
    else (if IsSkinTone(s[0]) then [] else [s[0]]) + StripSkinTones(s[1..])
  }

  /** Python's `s.replace(c, "")` for a one-character `c`. */
  function RemoveChar(s: string, c: char): (r: string)
    ensures |r| <= |s|
    ensures c !in r
  {
    if s == [] then []
    else (if s[0] == c then [] else [s[0]]) + RemoveChar(s[1..], c)
  }

  /** The string with every character of `cs` dropped. */
  function RemoveChars(s: string, cs: set<char>): string {
    if s == [] then []
    else (if s[0] in cs then [] else [s[0]]) + RemoveChars(s[1..], cs)
  }

  /** `_get_emoji_colors`: the set of modifiers the string contains (a global regex match
      over the class [\x{1F3FB}-\x{1F3FF}], collected into a set). */
  function EmojiColors(s: string): (colors: set<char>)
    ensures forall c :: c in colors <==> c in s && IsSkinTone(c)
  {
    set i | 0 <= i < |s| && IsSkinTone(s[i]) :: s[i]
  }

  lemma {:induction false} RemoveCharAfterRemoveChars(s: string, cs: set<char>, c: char)
    ensures RemoveChar(RemoveChars(s, cs), c) == RemoveChars(s, cs + {c})
  {
    if s != [] {
      RemoveCharAfterRemoveChars(s[1..], cs, c);
      var rest := RemoveChars(s[1..], cs);
      if s[0] in cs {
        assert RemoveChars(s, cs) == rest;
      } else {
        assert RemoveChars(s, cs) == [s[0]] + rest;
        assert ([s[0]] + rest)[0] == s[0] && ([s[0]] + rest)[1..] == rest;
      }
    }
  }

  lemma {:induction false} RemoveNoChars(s: string)
    ensures RemoveChars(s, {}) == s
  {
    if s != [] {
      RemoveNoChars(s[1..]);
    }
  }

  /** Dropping exactly the modifiers a string contains is dropping all modifiers. */
  lemma {:induction false} RemoveColorsIsStrip(s: string, cs: set<char>)
    requires forall c :: c in s && IsSkinTone(c) ==> c in cs
    requires forall c :: c in cs ==> IsSkinTone(c)
    ensures RemoveChars(s, cs) == StripSkinTones(s)
  {
    if s != [] {
      assert forall c :: c in s[1..] ==> c in s;
      RemoveColorsIsStrip(s[1..], cs);
    }
  }

  /** `_remove_emoji_color`: for each modifier found in the string, replace it by nothing.
      The iteration order over the set is the solver's choice, as Python's set order is
      unspecified; the result does not depend on it. */
  method RemoveEmojiColor(emoji: string) returns (r: string)
    ensures ToneFree(r)
    ensures r == StripSkinTones(emoji)
  {
    var colors := EmojiColors(emoji);
    var todo := colors;
    r := emoji;
    RemoveNoChars(emoji);
    assert colors - todo == {};
    while todo != {}
      invariant todo <= colors
      invariant r == RemoveChars(emoji, colors - todo)
      decreases |todo|
    {
      var c :| c in todo;
      RemoveCharAfterRemoveChars(emoji, colors - todo, c);
      assert colors - todo + {c} == colors - (todo - {c});
      r := RemoveChar(r, c);
      todo := todo - {c};
    }
    assert colors - todo == colors;
    RemoveColorsIsStrip(emoji, colors);
    assert ToneFree(StripSkinTones(emoji));
  }

  /** Stripping keeps every other character and its multiplicity. */
  lemma {:induction false} StripKeepsOthers(s: string, c: char)
    requires !IsSkinTone(c)
    ensures multiset(StripSkinTones(s))[c] == multiset(s)[c]
  {
    if s != [] {
      StripKeepsOthers(s[1..], c);
      assert s == [s[0]] + s[1..];
    }
  }

  /** Stripping keeps the order of what it keeps: it distributes over concatenation. */
  lemma {:induction false} StripAppend(a: string, b: string)
    ensures StripSkinTones(a + b) == StripSkinTones(a) + StripSkinTones(b)
  {
    if a == [] {
      assert a + b == b;
    } else {
      var h := if IsSkinTone(a[0]) then [] else [a[0]];
      assert (a + b)[0] == a[0];
      assert (a + b)[1..] == a[1..] + b;
      assert StripSkinTones(a + b) == h + StripSkinTones(a[1..] + b);
      StripAppend(a[1..], b);
      assert StripSkinTones(a) == h + StripSkinTones(a[1..]);
    }
  }

  /** A string without modifiers is left as it is. */
  lemma {:induction false} StripToneFree(s: string)
    requires ToneFree(s)
    ensures StripSkinTones(s) == s
  {
    if s != [] {
      StripToneFree(s[1..]);
    }
  }

  /** Stripping twice is stripping once. */
  lemma StripIdempotent(s: string)
    ensures StripSkinTones(StripSkinTones(s)) == StripSkinTones(s)
  {
    StripToneFree(StripSkinTones(s));
  }

  /** A modified emoji resolves, by code, to the record of its unmodified base: the
      modifier is dropped before the lookup. */
  lemma ToneIgnoredByLookup(db: EmojiDb, base: string, tone: char)
    requires ToneFree(base)
    requires IsSkinTone(tone)
    ensures LookupCode(db, StripSkinTones(base + [tone])) == LookupCode(db, base)
  {
    StripAppend(base, [tone]);
    StripToneFree(base);
    assert StripSkinTones([tone]) == [] by {
      assert [tone][1..] == [];
    }
    assert StripSkinTones(base + [tone]) == base;
  }
}
