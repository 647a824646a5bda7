/** The current document's configuration setters, its constructor and the handlers that run
    after every edit.

    A setter that is given the value already set does nothing. Turning twemoji on converts
    the whole document to images; turning it off converts the images back to text. Changing
    the margin or the explicit size, or the default font while the size follows the font,
    resizes the images in place. Turning alias replacement on fails: the handler it connects
    is looked up under a name that the class's double-underscore method does not have, so
    the lookup raises after the flag has been set. The constructor turns it on by default. */
module TwemojiSettings {
  import opened Util
  import opened Emoji
  import opened Document
  import opened Splice
  import opened ImageName
  import opened TwemojiDocument
  import opened LineLimit

  /** `setLineLimit`: the limit is recorded; the document is not trimmed until the next
      edit. */
  function SetLineLimit(s: State, limit: int): (r: State)
    ensures s.config.lineLimit == limit ==> r == s
    ensures r.config.lineLimit == limit
    ensures r.doc == s.doc && r.lastChangePos == s.lastChangePos
    ensures r.config.(lineLimit := s.config.lineLimit) == s.config
  {
    if s.config.lineLimit == limit then s else s.(config := s.config.(lineLimit := limit))
  }

  /** `setTwemoji` */
  function SetTwemoji(s: State, env: Env, value: bool): (r: State)
    requires ValidEnv(env)
    ensures r.config == s.config.(twemoji := value) && r.lastChangePos == s.lastChangePos
    ensures s.config.twemoji == value ==> r == s
    ensures s.config.twemoji && !value ==> NoKnownEmoji(env.db, r.doc)
  {
    if s.config.twemoji == value then s
    else
      var s' := s.(config := s.config.(twemoji := value));
      if value then TwemojizeFull(s', env)
      else
        DetwemojizeLeavesOnlyUnknown(s', env.db);
        Detwemojize(s', env.db)
  }

  /** Turning twemoji on and off again gives back a text-only document, when the matcher
      pairs each match with the record of exactly its characters. */
  lemma TwemojiOnThenOff(s: State, env: Env)
    requires ValidEnv(env)
    requires !s.config.twemoji
    requires forall k :: 0 <= k < |s.doc| ==> !IsEmojiCell(s.doc[k])
    requires forall pair :: pair in env.findEmojiObjects(PlainView(s.doc)) ==> FaithfulPair(s.doc, env.db, pair)
    ensures SetTwemoji(SetTwemoji(s, env, true), env, false) == s
  {
    var s' := s.(config := s.config.(twemoji := true));
    FullRoundTrip(s', env);
  }

  /** Switching twemoji keeps the plain text: off always, on when each match reads as the
      characters of the record it is paired with. */
  lemma SetTwemojiKeepsPlainText(s: State, env: Env, value: bool)
    requires ValidEnv(env)
    requires value && !s.config.twemoji ==>
               forall pair :: pair in env.findEmojiObjects(PlainView(s.doc)) ==> TextFaithfulPair(s.doc, env.db, pair)
    ensures ToPlainText(SetTwemoji(s, env, value).doc, env.db) == ToPlainText(s.doc, env.db)
  {
    if s.config.twemoji != value {
      var s' := s.(config := s.config.(twemoji := value));
      if value {
        FullKeepsPlainText(s', env);
      } else {
        DetwemojizeKeepsPlainText(s', env.db);
      }
    }
  }

  /** `setAliasReplacement`: switching it on records the flag and raises; switching it off
      only clears the flag. The document is never touched. */
  function SetAliasReplacement(s: State, value: bool): (r: Outcome<State>)
    ensures s.config.aliasReplacement == value ==> r == Completed(s)
    ensures r.Raised? <==> value && !s.config.aliasReplacement
    ensures r.Completed? ==> r.value.config.aliasReplacement == value && r.value.doc == s.doc
    ensures r.Raised? ==> r.partial.config.aliasReplacement && r.partial.doc == s.doc
  {
    if s.config.aliasReplacement == value then Completed(s)
    else if value then Raised(s.(config := s.config.(aliasReplacement := true)))
    else Completed(s.(config := s.config.(aliasReplacement := false)))
  }

  /** The image resizing that the margin, size and font setters share: only while twemoji
      is on. */
  function Resize(s: State, env: Env): (r: State)
    ensures r.config == s.config && r.lastChangePos == s.lastChangePos
    ensures !s.config.twemoji ==> r.doc == s.doc
  {
    if s.config.twemoji then UpdateEmojiImages(s, env) else s
  }

  /** `setEmojiMargin` */
  function SetEmojiMargin(s: State, env: Env, margin: int): (r: State)
    ensures r.config == s.config.(emojiMargin := margin) && r.lastChangePos == s.lastChangePos
    ensures s.config.emojiMargin == margin ==> r == s
    ensures !s.config.twemoji ==> r.doc == s.doc
  {
    if s.config.emojiMargin == margin then s else Resize(s.(config := s.config.(emojiMargin := margin)), env)
  }

  /** `setEmojiSize`: -1 makes the size follow the font. */
  function SetEmojiSize(s: State, env: Env, size: int): (r: State)
    ensures r.config == s.config.(emojiSize := size) && r.lastChangePos == s.lastChangePos
    ensures s.config.emojiSize == size ==> r == s
    ensures !s.config.twemoji ==> r.doc == s.doc
  {
    if s.config.emojiSize == size then s else Resize(s.(config := s.config.(emojiSize := size)), env)
  }

  /** `setDefaultFont`: the images follow the new font's height while the size follows the
      font. `fontHeight` is the new font's height; the engine uses it from then on. */
  function SetDefaultFont(s: State, env: Env, fontHeight: int): (r: State)
    ensures r.config == s.config && r.lastChangePos == s.lastChangePos
    ensures s.config.emojiSize != -1 ==> r == s
  {
    if s.config.emojiSize == -1 then Resize(s, env.(fontHeight := fontHeight)) else s
  }

  /** Resizing keeps the plain text when every alias leads back to its own record. */
  lemma ResizeKeepsPlainText(s: State, env: Env)
    requires AliasConsistent(env.db)
    ensures ToPlainText(Resize(s, env).doc, env.db) == ToPlainText(s.doc, env.db)
  {
    if s.config.twemoji {
      UpdateKeepsPlainText(s, env);
    }
  }

  /** After a new margin, every emoji image whose alias resolves is the image of its record
      with that margin, the cells around it rewritten the same way. */
  lemma SetEmojiMarginResizes(s: State, env: Env, margin: int, k: nat)
    requires s.config.twemoji && s.config.emojiMargin != margin
    requires k < |s.doc| && IsEmojiCell(s.doc[k]) && TextImageToEmoji(env.db, s.doc[k].format).Some?
    ensures var size := CalculateEmojiSize(s.config, env.fontHeight);
            var rule := UpdateRule(env.db, size, margin);
            SetEmojiMargin(s, env, margin).doc
            == RewriteCells(s.doc[..k], IsEmojiCell, rule)
               + [EmojiImage(TextImageToEmoji(env.db, s.doc[k].format).value, size, margin)]
               + RewriteCells(s.doc[k + 1..], IsEmojiCell, rule)
  {
    UpdateSetsSizes(s.(config := s.config.(emojiMargin := margin)), env, k);
  }

  /** `_on_contents_change`: the position of the change is remembered for the next
      incremental pass. */
  function OnContentsChange(s: State, position: int, charsRemoved: int, charsAdded: int): (r: State)
    ensures r.lastChangePos == position
    ensures r.doc == s.doc && r.config == s.config
  {
    s.(lastChangePos := position)
  }

  /** The incremental pass keeps the number of blocks. */
  lemma TwemojizeKeepsBlockCount(s: State, env: Env)
    requires ValidEnv(env)
    ensures BlockCount(Twemojize(s, env).doc) == BlockCount(s.doc)
  {
    match FindBlock(s.doc, s.lastChangePos)
    case None =>
    case Some(block) => TwemojizeTouchesOneBlock(s, env, block);
  }

  /** An edit, then the handlers in the order they are connected: the change position is
      remembered, the line limit (when positive) trims the document, and the incremental
      pass converts the edited block (when twemoji is on). */
  function AfterEdit(s: State, env: Env, doc: Doc, position: int): (r: State)
    requires ValidEnv(env)
    ensures r.config == s.config && r.lastChangePos == position
    ensures s.config.lineLimit > 0 ==> BlockCount(r.doc) == Min(BlockCount(doc), s.config.lineLimit)
    ensures s.config.lineLimit <= 0 ==> BlockCount(r.doc) == BlockCount(doc)
    ensures !s.config.twemoji ==> r.doc == LimitLine(doc, s.config.lineLimit)
  {
    var s1 := OnContentsChange(s.(doc := doc), position, 0, 0);
    var s2 := s1.(doc := LimitLine(s1.doc, s.config.lineLimit));
    if s.config.twemoji then
      TwemojizeKeepsBlockCount(s2, env);
      Twemojize(s2, env)
    else s2
  }

  /** The same handlers with `_limit_line` as written: the limit still bounds the block
      count, and without twemoji what is left is a prefix of the edited document, but it
      may keep fewer blocks than the limit and lose the last kept cell (see
      `LineLimit.LimitLineLosesKeptText`). */
  function AfterEditAsWritten(s: State, env: Env, doc: Doc, position: int): (r: State)
    requires ValidEnv(env)
    ensures r.config == s.config && r.lastChangePos == position
    ensures s.config.lineLimit > 0 ==> BlockCount(r.doc) <= s.config.lineLimit
    ensures s.config.lineLimit <= 0 ==> BlockCount(r.doc) == BlockCount(doc)
    ensures !s.config.twemoji ==> |r.doc| <= |doc| && r.doc == doc[..|r.doc|]
  {
    var s1 := OnContentsChange(s.(doc := doc), position, 0, 0);
    var s2 := s1.(doc := LimitLineAsWritten(s1.doc, s.config.lineLimit));
    if s.config.twemoji then
      TwemojizeKeepsBlockCount(s2, env);
      Twemojize(s2, env)
    else s2
  }

  /** With a one-line limit and twemoji off, typing "a", Enter, "b" leaves nothing as
      written, where the corrected handler keeps "a". */
  lemma AfterEditAsWrittenLosesLine(env: Env, position: int)
    requires ValidEnv(env)
    ensures var s := State([], Config(1, false, false, 0, -1), 0);
            var typed := [Char('a'), Break, Char('b')];
            && AfterEditAsWritten(s, env, typed, position).doc == []
            && AfterEdit(s, env, typed, position).doc == [Char('a')]
  {
    LimitLineLosesKeptText();
  }

  /** The constructor: an empty document with no line limit, the size following the font,
      the given margin; then twemoji and alias replacement are set in that order. With alias
      replacement requested (the default) construction raises. */
  function NewDocument(env: Env, twemoji: bool, aliasReplacement: bool, emojiMargin: int): (r: Outcome<State>)
    requires ValidEnv(env)
    ensures r.Raised? <==> aliasReplacement
    ensures r.Completed? ==> r.value == State([], Config(0, twemoji, false, emojiMargin, -1), 0)
    ensures r.Raised? ==> r.partial == State([], Config(0, twemoji, true, emojiMargin, -1), 0)
  {
    var s0 := State([], Config(0, false, false, emojiMargin, -1), 0);
    var s1 := SetTwemoji(s0, env, twemoji);
    assert s1.doc == [] by {
      if twemoji {
        var s' := s0.(config := s0.config.(twemoji := true));
        assert PlainView(s'.doc) == [];
        TwemojizeFullResult(s', env);
      }
    }
    SetAliasReplacement(s1, aliasReplacement)
  }
}
