/** The current emoji-aware document (`QTwemojiTextDocument`, qextrawidgets revision).

    The document keeps emoji either as text or as `twemoji://` images. Its state is the
    cell buffer, a configuration record and the position of the last edit. Everything the
    engine asks of other libraries (the emoji database, the emoji matcher, font metrics) is
    a field of `Env`. */
module TwemojiDocument {
  import opened Util
  import opened Emoji
  import opened Document
  import opened Splice
  import opened ImageName

  /** A match reported by the emoji matcher: `[start, end)` of the text it searched. */
  datatype Span = Span(start: nat, end: nat)

  /** What the matcher promises: matches inside the text, in order, not overlapping. */
  predicate SortedSpans(spans: seq<Span>, n: nat) {
    && (forall i :: 0 <= i < |spans| ==> spans[i].start <= spans[i].end <= n)
    && (forall i, j :: 0 <= i < j < |spans| ==> spans[i].end <= spans[j].start)
  }

  /** The engine's collaborators.
      `findEmoji` is `EmojiFinder.find_all_emoji`; `findEmojiObjects` is
      `EmojiFinder.find_all_emoji_objects(text, True)`, which pairs each match with its
      record; `fontHeight` is `QFontMetrics(font).height()` of the text's font. */
  datatype Env = Env(
    db: EmojiDb,
    findEmoji: string -> seq<Span>,
    findEmojiObjects: string -> seq<(Emoji, Span)>,
    fontHeight: int)

  function SpansOf(pairs: seq<(Emoji, Span)>): (spans: seq<Span>)
    ensures |spans| == |pairs|
    ensures forall i :: 0 <= i < |pairs| ==> spans[i] == pairs[i].1
  {
    seq(|pairs|, i requires 0 <= i < |pairs| => pairs[i].1)
  }

  /** What the engine relies on from the matchers: matches in order inside the text, and
      nothing found in an empty text. */
  ghost predicate ValidEnv(env: Env) {
    && (forall t :: SortedSpans(env.findEmoji(t), |t|))
    && (forall t :: SortedSpans(SpansOf(env.findEmojiObjects(t)), |t|))
    && env.findEmoji([]) == []
    && env.findEmojiObjects([]) == []
  }

  /** `_line_limit`, `_twemoji`, `_alias_replacement`, `_emoji_margin`, `_emoji_size`
      (-1 meaning "follow the font"). */
  datatype Config = Config(lineLimit: int, twemoji: bool, aliasReplacement: bool, emojiMargin: int, emojiSize: int)

  datatype State = State(doc: Doc, config: Config, lastChangePos: int)

  /** `_calculate_emoji_size`: the explicit size, or nine tenths of the font height with
      Python's `int()` truncation. */
  function CalculateEmojiSize(config: Config, fontHeight: int): (size: int)
    ensures config.emojiSize != -1 ==> size == config.emojiSize
    ensures config.emojiSize == -1 && fontHeight >= 0 ==> 0 <= 10 * size <= 9 * fontHeight < 10 * size + 10
    ensures config.emojiSize == -1 && fontHeight < 0 ==> 10 * size - 10 < 9 * fontHeight <= 10 * size <= 0
  {
    if config.emojiSize != -1 then config.emojiSize else TruncDiv(9 * fontHeight, 10)
  }

  /** The image cell an emoji becomes. */
  function EmojiImage(e: Emoji, size: int, margin: int): Cell {
    Image(EmojiToTextImage(e, size, margin))
  }

  // ---------------------------------------------------------------------------------
  // Incremental twemojization of the block that was edited

  /** One match of the block's text, moved to document offsets: it becomes the image of
      the record its colour-stripped text names, or stays as it is. */
  function MatchEdit(db: EmojiDb, text: string, blockPos: nat, sp: Span, size: int, margin: int): (e: Edit)
    requires sp.start <= sp.end <= |text|
    ensures e.start == blockPos + sp.start && e.end == blockPos + sp.end
    ensures e.repl.Some? <==> LookupCode(db, StripSkinTones(text[sp.start..sp.end])).Some?
    ensures e.repl.Some? ==>
              e.repl == Some([EmojiImage(LookupCode(db, StripSkinTones(text[sp.start..sp.end])).value, size, margin)])
  {
    var code := StripSkinTones(text[sp.start..sp.end]);
    match LookupCode(db, code)
    case None => Edit(blockPos + sp.start, blockPos + sp.end, None)
    case Some(emoji) => Edit(blockPos + sp.start, blockPos + sp.end, Some([EmojiImage(emoji, size, margin)]))
  }

  /** The edit list of one block: one edit per match, in the matcher's order. */
  function BlockEdits(db: EmojiDb, text: string, spans: seq<Span>, blockPos: nat, size: int, margin: int)
    : (edits: seq<Edit>)
    requires SortedSpans(spans, |text|)
    ensures |edits| == |spans|
    ensures Sorted(edits, blockPos, blockPos + |text|)
    ensures forall i :: 0 <= i < |spans| ==> edits[i] == MatchEdit(db, text, blockPos, spans[i], size, margin)
    ensures ReplacementsBreakFree(edits)
  {
    var edits := seq(|spans|, i requires 0 <= i < |spans| => MatchEdit(db, text, blockPos, spans[i], size, margin));
    assert forall i :: 0 <= i < |edits| && edits[i].repl.Some? ==> BreakFree(edits[i].repl.value) by {
      forall i | 0 <= i < |edits| && edits[i].repl.Some?
        ensures BreakFree(edits[i].repl.value)
      {
        assert |edits[i].repl.value| == 1 && edits[i].repl.value[0].Image?;
      }
    }
    edits
  }

  /** The block's text, as `QTextBlock.text()` gives it. */
  function BlockText(doc: Doc, block: BlockRange): (text: string)
    requires block.start <= block.end <= |doc|
    ensures |text| == block.end - block.start
  {
    PlainView(doc[block.start..block.end])
  }

  /** The edits `_twemojize` makes in `block`. */
  function TwemojizeEdits(s: State, env: Env, block: BlockRange): (edits: seq<Edit>)
    requires ValidEnv(env)
    requires block.start <= block.end <= |s.doc|
    ensures |edits| == |env.findEmoji(BlockText(s.doc, block))|
    ensures Ascending(edits, block.start, block.end)
    ensures ReplacementsBreakFree(edits)
  {
    var text := BlockText(s.doc, block);
    var edits := BlockEdits(env.db, text, env.findEmoji(text), block.start,
                            CalculateEmojiSize(s.config, env.fontHeight), s.config.emojiMargin);
    SortedIsAscending(edits, block.start, block.end);
    edits
  }

  /** `_twemojize`: the block holding the last edit position is searched for emoji, and the
      matches are replaced from the last to the first. Nothing happens when that position
      is outside the document or the block has no match. */
  function Twemojize(s: State, env: Env): (r: State)
    requires ValidEnv(env)
    ensures r.config == s.config && r.lastChangePos == s.lastChangePos
    ensures FindBlock(s.doc, s.lastChangePos).None? ==> r == s
  {
    match FindBlock(s.doc, s.lastChangePos)
    case None => s
    case Some(block) =>
      if env.findEmoji(BlockText(s.doc, block)) == [] then s
      else
        var edits := TwemojizeEdits(s, env, block);
        ReverseAscending(edits, block.start, block.end);
        DescendingWeaken(Reverse(edits), block.end, |s.doc|);
        s.(doc := ApplyEach(s.doc, Reverse(edits)))
  }

  /** What `_twemojize` does, told head to tail: the cells before and after the block stay,
      the block is its matches replaced in order. */
  lemma TwemojizeResult(s: State, env: Env, block: BlockRange)
    requires ValidEnv(env)
    requires FindBlock(s.doc, s.lastChangePos) == Some(block)
    ensures Twemojize(s, env).doc
         == s.doc[..block.start] + Forward(s.doc, TwemojizeEdits(s, env, block), block.start, block.end)
            + s.doc[block.end..]
  {
    var edits := TwemojizeEdits(s, env, block);
    if env.findEmoji(BlockText(s.doc, block)) == [] {
      assert edits == [];
      NoEditsKeep(s.doc, block.start, block.end);
    } else {
      ApplyDescending(s.doc, edits, block.start, block.end);
    }
  }

  lemma NoEditsKeep(doc: Doc, lo: nat, hi: nat)
    requires lo <= hi <= |doc|
    ensures doc == doc[..lo] + Forward(doc, [], lo, hi) + doc[hi..]
  {
    assert doc == doc[..lo] + doc[lo..hi] + doc[hi..];
  }

  /** Each match becomes one image of the record its colour-stripped text names, or is left
      alone when that text names no record; it is moved from block to document offsets. */
  lemma TwemojizeEditsShape(s: State, env: Env, block: BlockRange, i: nat)
    requires ValidEnv(env)
    requires block.start <= block.end <= |s.doc|
    requires i < |env.findEmoji(BlockText(s.doc, block))|
    ensures var text := BlockText(s.doc, block);
            var sp := env.findEmoji(text)[i];
            var e := TwemojizeEdits(s, env, block)[i];
            var found := LookupCode(env.db, StripSkinTones(text[sp.start..sp.end]));
            && sp.start <= sp.end <= |text|
            && e.start == block.start + sp.start && e.end == block.start + sp.end
            && (found.None? ==> e.repl.None?)
            && (found.Some? ==> e.repl == Some([EmojiImage(found.value,
                  CalculateEmojiSize(s.config, env.fontHeight), s.config.emojiMargin)]))
  {
    var text := BlockText(s.doc, block);
    assert SortedSpans(env.findEmoji(text), |text|);
  }

  /** `_twemojize` rewrites the edited block and no other: the block count is kept and every
      other block is as it was. */
  lemma TwemojizeTouchesOneBlock(s: State, env: Env, block: BlockRange)
    requires ValidEnv(env)
    requires FindBlock(s.doc, s.lastChangePos) == Some(block)
    ensures BlockIndex(s.doc, block) < BlockCount(s.doc)
    ensures BlockCount(Twemojize(s, env).doc) == BlockCount(s.doc)
    ensures forall j :: 0 <= j < BlockCount(s.doc) && j != BlockIndex(s.doc, block) ==>
              Blocks(Twemojize(s, env).doc)[j] == Blocks(s.doc)[j]
  {
    var edits := TwemojizeEdits(s, env, block);
    var r := Twemojize(s, env).doc;
    var nb := Forward(s.doc, edits, block.start, block.end);
    TwemojizeResult(s, env, block);
    SpliceInsideBlock(s.doc, block, edits);
    assert Blocks(r) == Blocks(s.doc)[BlockIndex(s.doc, block) := nb];
  }

  /** When no match names a known emoji, `_twemojize` changes nothing. */
  lemma TwemojizeUnknownOnly(s: State, env: Env, block: BlockRange)
    requires ValidEnv(env)
    requires FindBlock(s.doc, s.lastChangePos) == Some(block)
    requires var text := BlockText(s.doc, block);
             forall sp :: sp in env.findEmoji(text) ==>
               sp.start <= sp.end <= |text| && LookupCode(env.db, StripSkinTones(text[sp.start..sp.end])).None?
    ensures Twemojize(s, env) == s
  {
    var edits := TwemojizeEdits(s, env, block);
    UnknownMatchesKept(s, env, block);
    TwemojizeResult(s, env, block);
    ForwardAllKept(s.doc, edits, block.start, block.end);
  }

  lemma UnknownMatchesKept(s: State, env: Env, block: BlockRange)
    requires ValidEnv(env)
    requires block.start <= block.end <= |s.doc|
    requires var text := BlockText(s.doc, block);
             forall sp :: sp in env.findEmoji(text) ==>
               sp.start <= sp.end <= |text| && LookupCode(env.db, StripSkinTones(text[sp.start..sp.end])).None?
    ensures AllKept(TwemojizeEdits(s, env, block))
  {
    var spans := env.findEmoji(BlockText(s.doc, block));
    var edits := TwemojizeEdits(s, env, block);
    forall i | 0 <= i < |edits|
      ensures edits[i].repl.None?
    {
      assert spans[i] in spans;
      TwemojizeEditsShape(s, env, block, i);
    }
  }

  /** `_ensure_resource_loaded` reads the record's first alias before anything else, so a
      record without aliases raises there, before its image is inserted. */
  predicate LoadRaises(e: Emoji) {
    |e.aliases| == 0
  }

  /** Converting match `sp` raises: its colour-stripped text names a record without
      aliases. */
  predicate MatchRaises(db: EmojiDb, text: string, sp: Span)
    requires sp.start <= sp.end <= |text|
  {
    var found := LookupCode(db, StripSkinTones(text[sp.start..sp.end]));
    found.Some? && LoadRaises(found.value)
  }

  function MatchStops(db: EmojiDb, text: string, spans: seq<Span>): (stops: seq<bool>)
    requires SortedSpans(spans, |text|)
    ensures |stops| == |spans|
    ensures forall i :: 0 <= i < |spans| ==> stops[i] == MatchRaises(db, text, spans[i])
  {
    seq(|spans|, i requires 0 <= i < |spans| => MatchRaises(db, text, spans[i]))
  }

  /** None of the matches `spans` of `text` raises. */
  predicate NoneRaise(db: EmojiDb, text: string, spans: seq<Span>)
    requires SortedSpans(spans, |text|)
  {
    forall i :: 0 <= i < |spans| ==> !MatchRaises(db, text, spans[i])
  }

  /** No match of the edited block raises. */
  predicate NoMatchRaises(s: State, env: Env)
    requires ValidEnv(env)
  {
    match FindBlock(s.doc, s.lastChangePos)
    case None => true
    case Some(block) =>
      var text := BlockText(s.doc, block);
      assert SortedSpans(env.findEmoji(text), |text|);
      NoneRaise(env.db, text, env.findEmoji(text))
  }

  /** `_twemojize` raised at the `k`-th match of the edited block: the last one that raises,
      left as text, with every later match converted. */
  predicate BlockRaisedAt(s: State, env: Env, k: nat, partial: Doc)
    requires ValidEnv(env)
  {
    match FindBlock(s.doc, s.lastChangePos)
    case None => false
    case Some(block) =>
      var text := BlockText(s.doc, block);
      assert SortedSpans(env.findEmoji(text), |text|);
      StoppedAt(s.doc, TwemojizeEdits(s, env, block), MatchStops(env.db, text, env.findEmoji(text)),
                block.start, block.end, k, partial)
  }

  /** `_twemojize` with its failure modelled: the matches are walked from the last to the
      first, and one whose record has no alias raises before its image goes in. Without
      such a match the walk is `Twemojize`. */
  method TwemojizeChecked(s: State, env: Env) returns (r: Outcome<State>)
    requires ValidEnv(env)
    ensures Settled(r).config == s.config && Settled(r).lastChangePos == s.lastChangePos
    ensures r.Completed? <==> NoMatchRaises(s, env)
    ensures r.Completed? ==> r.value == Twemojize(s, env)
    ensures r.Raised? ==> exists k :: BlockRaisedAt(s, env, k, r.partial.doc)
  {
    var found := FindBlock(s.doc, s.lastChangePos);
    if found.None? {
      return Completed(s);
    }
    var block := found.value;
    var text := BlockText(s.doc, block);
    var spans := env.findEmoji(text);
    if spans == [] {
      return Completed(s);
    }
    assert SortedSpans(spans, |text|);
    var edits := TwemojizeEdits(s, env, block);
    var stops := MatchStops(env.db, text, spans);
    var walked := ApplyUntil(s.doc, edits, stops, block.start, block.end);
    BlockStops(s, env, block);
    if walked.Raised? {
      var k :| StoppedAt(s.doc, edits, stops, block.start, block.end, k, walked.partial);
      BlockRaisedFrom(s, env, block, k, walked.partial);
      return Raised(s.(doc := walked.partial));
    }
    TwemojizeResult(s, env, block);
    var t := Twemojize(s, env);
    assert t == s.(doc := walked.value);
    return Completed(t);
  }

  // ---------------------------------------------------------------------------------
  // Full scan

  /** The edits of the full scan: every match becomes the image of the record the matcher
      paired with it, whether or not it carries a skin tone. */
  function FullEdits(pairs: seq<(Emoji, Span)>, n: nat, size: int, margin: int): (edits: seq<Edit>)
    requires SortedSpans(SpansOf(pairs), n)
    ensures |edits| == |pairs|
    ensures Sorted(edits, 0, n)
    ensures forall i :: 0 <= i < |pairs| ==>
              edits[i] == Edit(pairs[i].1.start, pairs[i].1.end, Some([EmojiImage(pairs[i].0, size, margin)]))
  {
    assert forall i :: 0 <= i < |pairs| ==> SpansOf(pairs)[i] == pairs[i].1;
    seq(|pairs|, i requires 0 <= i < |pairs| =>
      Edit(pairs[i].1.start, pairs[i].1.end, Some([EmojiImage(pairs[i].0, size, margin)])))
  }

  /** `_twemojize_full`: the whole plain text is searched and the matches are replaced from
      the last to the first. */
  function TwemojizeFull(s: State, env: Env): (r: State)
    requires ValidEnv(env)
    ensures r.config == s.config && r.lastChangePos == s.lastChangePos
    ensures env.findEmojiObjects(PlainView(s.doc)) == [] ==> r == s
  {
    var pairs := env.findEmojiObjects(PlainView(s.doc));
    var size := CalculateEmojiSize(s.config, env.fontHeight);
    var edits := FullEdits(pairs, |s.doc|, size, s.config.emojiMargin);
    SortedIsAscending(edits, 0, |s.doc|);
    ReverseAscending(edits, 0, |s.doc|);
    s.(doc := ApplyEach(s.doc, Reverse(edits)))
  }

  lemma TwemojizeFullResult(s: State, env: Env)
    requires ValidEnv(env)
    ensures var pairs := env.findEmojiObjects(PlainView(s.doc));
            var edits := FullEdits(pairs, |s.doc|, CalculateEmojiSize(s.config, env.fontHeight), s.config.emojiMargin);
            && Ascending(edits, 0, |s.doc|)
            && TwemojizeFull(s, env).doc == Forward(s.doc, edits, 0, |s.doc|)
  {
    var pairs := env.findEmojiObjects(PlainView(s.doc));
    var edits := FullEdits(pairs, |s.doc|, CalculateEmojiSize(s.config, env.fontHeight), s.config.emojiMargin);
    SortedIsAscending(edits, 0, |s.doc|);
    ApplyWhole(s.doc, edits);
  }

  lemma BlockStops(s: State, env: Env, block: BlockRange)
    requires ValidEnv(env) && FindBlock(s.doc, s.lastChangePos) == Some(block)
    ensures SortedSpans(env.findEmoji(BlockText(s.doc, block)), |BlockText(s.doc, block)|)
    ensures var text := BlockText(s.doc, block);
            var stops := MatchStops(env.db, text, env.findEmoji(text));
            NoMatchRaises(s, env) <==> forall m :: 0 <= m < |stops| ==> !stops[m]
  {
    var text := BlockText(s.doc, block);
    assert SortedSpans(env.findEmoji(text), |text|);
    NoneRaiseStops(env.db, text, env.findEmoji(text));
  }

  lemma NoneRaiseStops(db: EmojiDb, text: string, spans: seq<Span>)
    requires SortedSpans(spans, |text|)
    ensures var stops := MatchStops(db, text, spans);
            NoneRaise(db, text, spans) <==> forall m :: 0 <= m < |stops| ==> !stops[m]
  {
    var stops := MatchStops(db, text, spans);
    assert forall m :: 0 <= m < |stops| ==> stops[m] == MatchRaises(db, text, spans[m]);
  }

  lemma BlockRaisedFrom(s: State, env: Env, block: BlockRange, k: nat, partial: Doc)
    requires ValidEnv(env) && FindBlock(s.doc, s.lastChangePos) == Some(block)
    requires SortedSpans(env.findEmoji(BlockText(s.doc, block)), |BlockText(s.doc, block)|)
    requires var text := BlockText(s.doc, block);
             StoppedAt(s.doc, TwemojizeEdits(s, env, block), MatchStops(env.db, text, env.findEmoji(text)),
                       block.start, block.end, k, partial)
    ensures BlockRaisedAt(s, env, k, partial)
  {
  }

  /** Every record the full scan pairs with a match has an alias to load. */
  predicate PairsLoad(pairs: seq<(Emoji, Span)>) {
    forall i :: 0 <= i < |pairs| ==> !LoadRaises(pairs[i].0)
  }

  function PairStops(pairs: seq<(Emoji, Span)>): (stops: seq<bool>)
    ensures |stops| == |pairs|
    ensures forall i :: 0 <= i < |pairs| ==> stops[i] == LoadRaises(pairs[i].0)
  {
    seq(|pairs|, i requires 0 <= i < |pairs| => LoadRaises(pairs[i].0))
  }

  /** `_twemojize_full` raised at the `k`-th match: the last one whose record has no alias,
      left as text, with every later match converted. */
  predicate FullRaisedAt(s: State, env: Env, k: nat, partial: Doc)
    requires ValidEnv(env)
  {
    var pairs := env.findEmojiObjects(PlainView(s.doc));
    var edits := FullEdits(pairs, |s.doc|, CalculateEmojiSize(s.config, env.fontHeight), s.config.emojiMargin);
    SortedIsAscending(edits, 0, |s.doc|);
    StoppedAt(s.doc, edits, PairStops(pairs), 0, |s.doc|, k, partial)
  }

  /** `_twemojize_full` with its failure modelled: the matches are walked from the last to
      the first, and one whose record has no alias raises before its image goes in. Without
      such a record the walk is `TwemojizeFull`. */
  method TwemojizeFullChecked(s: State, env: Env) returns (r: Outcome<State>)
    requires ValidEnv(env)
    ensures Settled(r).config == s.config && Settled(r).lastChangePos == s.lastChangePos
    ensures r.Completed? <==> PairsLoad(env.findEmojiObjects(PlainView(s.doc)))
    ensures r.Completed? ==> r.value == TwemojizeFull(s, env)
    ensures r.Raised? ==> exists k :: FullRaisedAt(s, env, k, r.partial.doc)
  {
    var pairs := env.findEmojiObjects(PlainView(s.doc));
    var edits := FullEdits(pairs, |s.doc|, CalculateEmojiSize(s.config, env.fontHeight), s.config.emojiMargin);
    SortedIsAscending(edits, 0, |s.doc|);
    var stops := PairStops(pairs);
    PairsLoadStops(pairs);
    var walked := ApplyUntil(s.doc, edits, stops, 0, |s.doc|);
    if walked.Raised? {
      var k :| StoppedAt(s.doc, edits, stops, 0, |s.doc|, k, walked.partial);
      FullRaisedFrom(s, env, k, walked.partial);
      return Raised(s.(doc := walked.partial));
    }
    FullCompleted(s, env, edits, walked.value);
    return Completed(s.(doc := walked.value));
  }

  lemma PairsLoadStops(pairs: seq<(Emoji, Span)>)
    ensures var stops := PairStops(pairs);
            PairsLoad(pairs) <==> forall m :: 0 <= m < |stops| ==> !stops[m]
  {
    var stops := PairStops(pairs);
    assert forall m :: 0 <= m < |stops| ==> stops[m] == LoadRaises(pairs[m].0);
  }

  lemma FullRaisedFrom(s: State, env: Env, k: nat, partial: Doc)
    requires ValidEnv(env)
    requires var pairs := env.findEmojiObjects(PlainView(s.doc));
             var edits := FullEdits(pairs, |s.doc|, CalculateEmojiSize(s.config, env.fontHeight), s.config.emojiMargin);
             && Ascending(edits, 0, |s.doc|)
             && StoppedAt(s.doc, edits, PairStops(pairs), 0, |s.doc|, k, partial)
    ensures FullRaisedAt(s, env, k, partial)
  {
  }

  lemma FullCompleted(s: State, env: Env, edits: seq<Edit>, d: Doc)
    requires ValidEnv(env)
    requires edits == FullEdits(env.findEmojiObjects(PlainView(s.doc)), |s.doc|,
                                CalculateEmojiSize(s.config, env.fontHeight), s.config.emojiMargin)
    requires Ascending(edits, 0, |s.doc|)
    requires d == s.doc[..0] + Forward(s.doc, edits, 0, |s.doc|) + s.doc[|s.doc|..]
    ensures s.(doc := d) == TwemojizeFull(s, env)
  {
    WholeSlices(s.doc, Forward(s.doc, edits, 0, |s.doc|), d);
    TwemojizeFullResult(s, env);
    var t := TwemojizeFull(s, env);
    assert t.doc == d && t.config == s.config && t.lastChangePos == s.lastChangePos;
  }

  lemma WholeSlices(doc: Doc, f: Doc, d: Doc)
    requires d == doc[..0] + f + doc[|doc|..]
    ensures d == f
  {
    assert doc[..0] == [] && doc[|doc|..] == [];
  }

  // ---------------------------------------------------------------------------------
  // Emoji images already in the document

  /** The start positions a list of located images names. */
  function Positions(images: seq<(ImageFormat, nat, nat)>): set<nat> {
    set x | x in images :: x.1
  }

  /** `images` locates, from the last to the first, exactly the emoji images before `p`. */
  predicate LocatedUpTo(doc: Doc, images: seq<(ImageFormat, nat, nat)>, p: nat) {
    && p <= |doc|
    && (forall k :: 0 <= k < |images| ==>
          && images[k].1 < p
          && images[k].2 == images[k].1 + 1
          && IsEmojiCell(doc[images[k].1])
          && images[k].0 == doc[images[k].1].format)
    && (forall k, l :: 0 <= k < l < |images| ==> images[k].1 > images[l].1)
    && (forall q :: 0 <= q < p ==> (q in Positions(images) <==> IsEmojiCell(doc[q])))
  }

  lemma LocateStep(doc: Doc, images: seq<(ImageFormat, nat, nat)>, p: nat)
    requires LocatedUpTo(doc, images, p) && p < |doc|
    ensures IsEmojiCell(doc[p]) ==> LocatedUpTo(doc, [(doc[p].format, p, p + 1)] + images, p + 1)
    ensures !IsEmojiCell(doc[p]) ==> LocatedUpTo(doc, images, p + 1)
  {
    if IsEmojiCell(doc[p]) {
      LocatePrepend(doc, images, p);
    }
  }

  lemma LocatePrepend(doc: Doc, images: seq<(ImageFormat, nat, nat)>, p: nat)
    requires LocatedUpTo(doc, images, p) && p < |doc| && IsEmojiCell(doc[p])
    requires p !in Positions(images)
    ensures LocatedUpTo(doc, [(doc[p].format, p, p + 1)] + images, p + 1)
  {
    var x := (doc[p].format, p, p + 1);
    var next := [x] + images;
    PrependPositions(images, x);
    PrependEntries(doc, images, p);
    PrependOrder(doc, images, p);
    assert forall q :: 0 <= q < p + 1 ==> (q in Positions(next) <==> IsEmojiCell(doc[q]));
  }

  lemma PrependPositions(images: seq<(ImageFormat, nat, nat)>, x: (ImageFormat, nat, nat))
    ensures Positions([x] + images) == {x.1} + Positions(images)
  {
    var next := [x] + images;
    assert forall y :: y in next <==> y == x || y in images;
  }

  lemma PrependEntries(doc: Doc, images: seq<(ImageFormat, nat, nat)>, p: nat)
    requires LocatedUpTo(doc, images, p) && p < |doc| && IsEmojiCell(doc[p])
    ensures var next := [(doc[p].format, p, p + 1)] + images;
            forall k :: 0 <= k < |next| ==>
              && next[k].1 < p + 1
              && next[k].2 == next[k].1 + 1
              && IsEmojiCell(doc[next[k].1])
              && next[k].0 == doc[next[k].1].format
  {
    var next := [(doc[p].format, p, p + 1)] + images;
    forall k | 0 <= k < |next|
      ensures next[k].1 < p + 1 && next[k].2 == next[k].1 + 1
      ensures IsEmojiCell(doc[next[k].1]) && next[k].0 == doc[next[k].1].format
    {
      if k > 0 {
        assert next[k] == images[k - 1];
      }
    }
  }

  lemma PrependOrder(doc: Doc, images: seq<(ImageFormat, nat, nat)>, p: nat)
    requires LocatedUpTo(doc, images, p) && p < |doc| && IsEmojiCell(doc[p])
    ensures var next := [(doc[p].format, p, p + 1)] + images;
            forall k, l :: 0 <= k < l < |next| ==> next[k].1 > next[l].1
  {
    var next := [(doc[p].format, p, p + 1)] + images;
    forall k, l | 0 <= k < l < |next|
      ensures next[k].1 > next[l].1
    {
      assert next[l] == images[l - 1];
      if k > 0 {
        assert next[k] == images[k - 1];
      }
    }
  }

  /** `_localize_emoji_images`: walking the fragments in document order and putting each
      emoji image in front of those found so far, so the list ends up from the last image
      to the first. */
  method LocalizeEmojiImages(doc: Doc) returns (images: seq<(ImageFormat, nat, nat)>)
    ensures forall k :: 0 <= k < |images| ==>
              && images[k].2 == images[k].1 + 1 <= |doc|
              && IsEmojiCell(doc[images[k].1])
              && images[k].0 == doc[images[k].1].format
    ensures forall k, l :: 0 <= k < l < |images| ==> images[k].1 > images[l].1
    ensures forall p :: 0 <= p < |doc| ==> (p in Positions(images) <==> IsEmojiCell(doc[p]))
  {
    images := [];
    var p := 0;
    while p < |doc|
      invariant LocatedUpTo(doc, images, p)
    {
      LocateStep(doc, images, p);
      if IsEmojiCell(doc[p]) {
        images := [(doc[p].format, p, p + 1)] + images;
      }
      p := p + 1;
    }
  }

  /** No emoji image from `lo` on stops the walk. */
  predicate NoneStops(doc: Doc, lo: nat, stops: Cell -> bool) {
    forall q :: lo <= q < |doc| && IsEmojiCell(doc[q]) ==> !stops(doc[q])
  }

  /** The walk over the located images raised at the image at `p`: the last one that stops
      it, left as it was, with every image after it rewritten. */
  predicate CellRaisedAt(doc: Doc, rule: Cell -> Option<Doc>, stops: Cell -> bool, p: nat, partial: Doc) {
    && p < |doc| && IsEmojiCell(doc[p]) && stops(doc[p])
    && NoneStops(doc, p + 1, stops)
    && partial == doc[..p + 1] + RewriteCells(doc[p + 1..], IsEmojiCell, rule)
  }

  /** Where the walk stands once `k` located images are done: at the last of them, or at the
      end of the document before the first. */
  function LocatedBound(doc: Doc, images: seq<(ImageFormat, nat, nat)>, k: nat): nat
    requires k <= |images|
  {
    if k == 0 then |doc| else images[k - 1].1
  }

  /** The walk stands at `b`: everything from `b` on is rewritten, nothing before it yet,
      and no emoji image from `b` on stops it. */
  predicate WalkedTo(doc: Doc, rule: Cell -> Option<Doc>, stops: Cell -> bool, b: nat, cur: Doc) {
    && b <= |doc|
    && cur == doc[..b] + RewriteCells(doc[b..], IsEmojiCell, rule)
    && NoneStops(doc, b, stops)
  }

  /** The located images as the walk reads them: each an emoji image one cell long,
      before the one located ahead of it, with no other emoji image between two of them or
      before the first. */
  predicate LocatedGaps(doc: Doc, images: seq<(ImageFormat, nat, nat)>) {
    && (forall k :: 0 <= k < |images| ==>
          && images[k].1 < LocatedBound(doc, images, k) <= |doc|
          && images[k].2 == images[k].1 + 1
          && IsEmojiCell(doc[images[k].1])
          && doc[images[k].1] == Image(images[k].0))
    && (forall k :: 0 <= k < |images| ==> NoEmojiIn(doc, images[k].1 + 1, LocatedBound(doc, images, k)))
    && LocatedBound(doc, images, |images|) <= |doc|
    && NoEmojiIn(doc, 0, LocatedBound(doc, images, |images|))
  }

  /** No emoji image at a position from `lo` up to `hi`. */
  predicate NoEmojiIn(doc: Doc, lo: nat, hi: nat)
    requires hi <= |doc|
  {
    forall q :: lo <= q < hi ==> !IsEmojiCell(doc[q])
  }

  /** What `_localize_emoji_images` finds is read the walk's way. */
  lemma LocatedGapsHold(doc: Doc, images: seq<(ImageFormat, nat, nat)>)
    requires LocatedUpTo(doc, images, |doc|)
    ensures LocatedGaps(doc, images)
  {
    forall k | 0 <= k < |images|
      ensures images[k].1 < LocatedBound(doc, images, k) <= |doc|
      ensures NoEmojiIn(doc, images[k].1 + 1, LocatedBound(doc, images, k))
    {
      LocatedGapFree(doc, images, k);
    }
    NoEmojiBelowFirst(doc, images);
  }

  /** The loop `_detwemojize` and `updateEmojiImages` share: the located images are taken
      from the last to the first and each is overwritten by what `rule` makes of it, or left
      when `rule` gives nothing; one that `stops` raises before anything is inserted. */
  method WalkLocated(doc: Doc, images: seq<(ImageFormat, nat, nat)>, rule: Cell -> Option<Doc>, stops: Cell -> bool)
    returns (r: Outcome<Doc>)
    requires LocatedGaps(doc, images)
    ensures r.Completed? <==> NoneStops(doc, 0, stops)
    ensures r.Completed? ==> r.value == RewriteCells(doc, IsEmojiCell, rule)
    ensures r.Raised? ==> exists p :: CellRaisedAt(doc, rule, stops, p, r.partial)
  {
    var k := 0;
    WalkStart(doc, rule, stops);
    r := Completed(doc);
    while k < |images| && r.Completed?
      invariant k <= |images|
      invariant r.Completed? ==> WalkedTo(doc, rule, stops, LocatedBound(doc, images, k), r.value)
      invariant r.Raised? ==> !NoneStops(doc, 0, stops) && exists p :: CellRaisedAt(doc, rule, stops, p, r.partial)
    {
      r := StepLocated(doc, images, k, rule, stops, r.value);
      k := k + 1;
    }
    if r.Completed? {
      LocatedDone(doc, images, rule, stops, r.value);
    }
  }

  /** One turn of the walk, on the `k`-th located image: raising when `stops` holds of it,
      else overwriting it by what `rule` gives, or leaving it. */
  method StepLocated(doc: Doc, images: seq<(ImageFormat, nat, nat)>, k: nat, rule: Cell -> Option<Doc>,
                     stops: Cell -> bool, cur: Doc) returns (next: Outcome<Doc>)
    requires LocatedGaps(doc, images) && k < |images|
    requires WalkedTo(doc, rule, stops, LocatedBound(doc, images, k), cur)
    ensures next.Raised? ==> next.partial == cur && CellRaisedAt(doc, rule, stops, images[k].1, cur) && !NoneStops(doc, 0, stops)
    ensures next.Raised? <==> stops(Image(images[k].0))
    ensures next.Completed? ==> WalkedTo(doc, rule, stops, LocatedBound(doc, images, k + 1), next.value)
  {
    var (fmt, p, end) := images[k];
    LocatedAt(doc, images, k);
    CellStep(doc, fmt, p, end, LocatedBound(doc, images, k), rule, stops, cur);
    if stops(Image(fmt)) {
      return Raised(cur);
    }
    if rule(Image(fmt)).Some? {
      return Completed(Apply1(cur, Edit(p, end, rule(Image(fmt)))));
    }
    return Completed(cur);
  }

  lemma WalkStart(doc: Doc, rule: Cell -> Option<Doc>, stops: Cell -> bool)
    ensures WalkedTo(doc, rule, stops, |doc|, doc)
  {
    assert doc[..|doc|] == doc && doc[|doc|..] == [];
  }

  /** The `k`-th located image, read off `LocatedGaps`: an emoji image one cell long, below
      the bound the walk stands at, with no emoji image between them. */
  lemma LocatedAt(doc: Doc, images: seq<(ImageFormat, nat, nat)>, k: nat)
    requires LocatedGaps(doc, images) && k < |images|
    ensures var (fmt, p, end) := images[k];
            && p < LocatedBound(doc, images, k) <= |doc| && end == p + 1
            && IsEmojiCell(doc[p]) && doc[p] == Image(fmt)
            && LocatedBound(doc, images, k + 1) == p
            && forall q :: p < q < LocatedBound(doc, images, k) ==> !IsEmojiCell(doc[q])
  {
  }

  /** One emoji image of the walk, at `p` below the bound `b` with nothing to rewrite
      between them: it raises with the walked part as the result, or the walk moves down to
      it, rewriting it when `rule` gives cells. */
  lemma CellStep(doc: Doc, fmt: ImageFormat, p: nat, end: nat, b: nat, rule: Cell -> Option<Doc>,
                 stops: Cell -> bool, cur: Doc)
    requires p < b <= |doc| && end == p + 1 && IsEmojiCell(doc[p]) && doc[p] == Image(fmt)
    requires forall q :: p < q < b ==> !IsEmojiCell(doc[q])
    requires WalkedTo(doc, rule, stops, b, cur)
    ensures stops(Image(fmt)) ==> CellRaisedAt(doc, rule, stops, p, cur) && !NoneStops(doc, 0, stops)
    ensures !stops(Image(fmt)) && rule(Image(fmt)).Some? ==>
              WalkedTo(doc, rule, stops, p, Apply1(cur, Edit(p, end, rule(Image(fmt)))))
    ensures !stops(Image(fmt)) && rule(Image(fmt)).None? ==> WalkedTo(doc, rule, stops, p, cur)
  {
    SkipUnpicked(doc, p, b, IsEmojiCell, rule, cur);
    PickedCellStep(doc, p, IsEmojiCell, rule, cur);
  }

  /** No emoji image lies strictly between the `k`-th located image and the one before it. */
  lemma LocatedGapFree(doc: Doc, images: seq<(ImageFormat, nat, nat)>, k: nat)
    requires LocatedUpTo(doc, images, |doc|) && k < |images|
    ensures images[k].1 < LocatedBound(doc, images, k) <= |doc|
    ensures forall q :: images[k].1 < q < LocatedBound(doc, images, k) ==> !IsEmojiCell(doc[q])
  {
    var b := LocatedBound(doc, images, k);
    if k > 0 {
      assert images[k - 1].1 > images[k].1;
    }
    forall q | images[k].1 < q < b
      ensures !IsEmojiCell(doc[q])
    {
      forall m | 0 <= m < |images|
        ensures images[m].1 != q
      {
        if m < k - 1 {
          assert images[m].1 > images[k - 1].1;
        } else if m > k {
          assert images[k].1 > images[m].1;
        }
      }
      assert q !in Positions(images);
    }
  }

  /** Past the first located image there is nothing left to rewrite. */
  lemma LocatedDone(doc: Doc, images: seq<(ImageFormat, nat, nat)>, rule: Cell -> Option<Doc>,
                    stops: Cell -> bool, cur: Doc)
    requires LocatedGaps(doc, images)
    requires WalkedTo(doc, rule, stops, LocatedBound(doc, images, |images|), cur)
    ensures cur == RewriteCells(doc, IsEmojiCell, rule)
    ensures NoneStops(doc, 0, stops)
  {
    var b := LocatedBound(doc, images, |images|);
    UnpickedPrefix(doc, b, IsEmojiCell, rule, cur);
  }

  /** Nothing before the first located image is an emoji image. */
  lemma NoEmojiBelowFirst(doc: Doc, images: seq<(ImageFormat, nat, nat)>)
    requires LocatedUpTo(doc, images, |doc|)
    ensures LocatedBound(doc, images, |images|) <= |doc|
    ensures forall q :: 0 <= q < LocatedBound(doc, images, |images|) ==> !IsEmojiCell(doc[q])
  {
    var b := LocatedBound(doc, images, |images|);
    forall q | 0 <= q < b
      ensures !IsEmojiCell(doc[q])
    {
      forall m | 0 <= m < |images|
        ensures images[m].1 != q
      {
        if m < |images| - 1 {
          assert images[m].1 > images[|images| - 1].1;
        }
      }
      assert q !in Positions(images);
    }
  }

  /** What becomes of an emoji image when the document goes back to text: the characters
      of the record its name resolves to, or nothing changes. */
  function DetwemojizeCell(db: EmojiDb, c: Cell): (r: Option<Doc>)
    ensures r.Some? ==> BreakFree(r.value)
    ensures IsEmojiCell(c) && r.Some? ==> CellsText(db, r.value) == CellText(db, c)
    ensures IsEmojiCell(c) && r.None? ==> CellText(db, c) == ""
  {
    if c.Image? && TextImageToEmoji(db, c.format).Some? then
      var text := TextImageToEmoji(db, c.format).value.emoji;
      CellsTextChars(db, text);
      Some(Chars(text))
    else None
  }

  function DetwemojizeRule(db: EmojiDb): Cell -> Option<Doc> {
    (c: Cell) => DetwemojizeCell(db, c)
  }

  /** `_detwemojize`: every emoji image, from the last to the first, is overwritten by its
      emoji's text when its alias resolves. */
  function Detwemojize(s: State, db: EmojiDb): (r: State)
    ensures r.config == s.config && r.lastChangePos == s.lastChangePos
    ensures r.doc == RewriteCells(s.doc, IsEmojiCell, DetwemojizeRule(db))
  {
    CellPass(s.doc, IsEmojiCell, DetwemojizeRule(db));
    s.(doc := ApplyEach(s.doc, Reverse(CellEdits(s.doc, IsEmojiCell, DetwemojizeRule(db), 0))))
  }

  /** No emoji image left whose alias the database resolves. */
  predicate NoKnownEmoji(db: EmojiDb, cells: Doc) {
    forall k :: 0 <= k < |cells| && IsEmojiCell(cells[k]) ==> TextImageToEmoji(db, cells[k].format).None?
  }

  lemma NoKnownEmojiAppend(db: EmojiDb, a: Doc, b: Doc)
    requires NoKnownEmoji(db, a) && NoKnownEmoji(db, b)
    ensures NoKnownEmoji(db, a + b)
  {
    forall k | 0 <= k < |a + b| && IsEmojiCell((a + b)[k])
      ensures TextImageToEmoji(db, (a + b)[k].format).None?
    {
      if k >= |a| {
        assert (a + b)[k] == b[k - |a|];
      }
    }
  }

  lemma {:induction false} RewriteLeavesUnknown(db: EmojiDb, cells: Doc)
    ensures NoKnownEmoji(db, RewriteCells(cells, IsEmojiCell, DetwemojizeRule(db)))
    decreases |cells|
  {
    if cells != [] {
      RewriteLeavesUnknown(db, cells[1..]);
      var head := CellResult(IsEmojiCell, DetwemojizeRule(db), cells[0]);
      assert NoKnownEmoji(db, head);
      NoKnownEmojiAppend(db, head, RewriteCells(cells[1..], IsEmojiCell, DetwemojizeRule(db)));
    }
  }

  /** After going back to text, the only emoji images left are those whose alias the
      database does not know. */
  lemma DetwemojizeLeavesOnlyUnknown(s: State, db: EmojiDb)
    ensures NoKnownEmoji(db, Detwemojize(s, db).doc)
  {
    RewriteLeavesUnknown(db, s.doc);
  }

  /** `_detwemojize` as the program runs it: the located images, from the last to the first.
      Nothing in it raises, and it rewrites exactly as the per-cell reading says. */
  method DetwemojizeLocated(s: State, db: EmojiDb) returns (r: State)
    ensures r.config == s.config && r.lastChangePos == s.lastChangePos
    ensures r.doc == RewriteCells(s.doc, IsEmojiCell, DetwemojizeRule(db))
    ensures r == Detwemojize(s, db)
  {
    var images := LocalizeEmojiImages(s.doc);
    assert LocatedUpTo(s.doc, images, |s.doc|);
    LocatedGapsHold(s.doc, images);
    var walked := WalkLocated(s.doc, images, DetwemojizeRule(db), (c: Cell) => false);
    return s.(doc := walked.value);
  }

  /** What becomes of an emoji image when the size or margin changes: the image of the same
      record at the new size and margin. */
  function UpdateCell(db: EmojiDb, size: int, margin: int, c: Cell): Option<Doc> {
    if c.Image? && TextImageToEmoji(db, c.format).Some? then Some([EmojiImage(TextImageToEmoji(db, c.format).value, size, margin)])
    else None
  }

  function UpdateRule(db: EmojiDb, size: int, margin: int): Cell -> Option<Doc> {
    (c: Cell) => UpdateCell(db, size, margin, c)
  }

  /** `updateEmojiImages`: every emoji image whose alias resolves is replaced, from the last
      to the first, by the image of its record at the current size and margin. */
  function UpdateEmojiImages(s: State, env: Env): (r: State)
    ensures r.config == s.config && r.lastChangePos == s.lastChangePos
    ensures r.doc == RewriteCells(s.doc, IsEmojiCell,
                                  UpdateRule(env.db, CalculateEmojiSize(s.config, env.fontHeight), s.config.emojiMargin))
  {
    var rule := UpdateRule(env.db, CalculateEmojiSize(s.config, env.fontHeight), s.config.emojiMargin);
    CellPass(s.doc, IsEmojiCell, rule);
    s.(doc := ApplyEach(s.doc, Reverse(CellEdits(s.doc, IsEmojiCell, rule, 0))))
  }

  /** Loading the image of an emoji image's record raises: its alias names a record without
      aliases. */
  predicate ImageLoadRaises(db: EmojiDb, c: Cell) {
    c.Image? && TextImageToEmoji(db, c.format).Some? && LoadRaises(TextImageToEmoji(db, c.format).value)
  }

  function ImageLoadRaisesIn(db: EmojiDb): Cell -> bool {
    (c: Cell) => ImageLoadRaises(db, c)
  }

  /** `updateEmojiImages` with its failure modelled: the located images are walked from the
      last to the first, and one whose record has no alias raises before its new image goes
      in. Without such an image the walk is `UpdateEmojiImages`. */
  method UpdateEmojiImagesChecked(s: State, env: Env) returns (r: Outcome<State>)
    ensures Settled(r).config == s.config && Settled(r).lastChangePos == s.lastChangePos
    ensures r.Completed? <==> NoneStops(s.doc, 0, ImageLoadRaisesIn(env.db))
    ensures r.Completed? ==> r.value == UpdateEmojiImages(s, env)
    ensures r.Raised? ==>
              exists p :: CellRaisedAt(s.doc, UpdateRule(env.db, CalculateEmojiSize(s.config, env.fontHeight), s.config.emojiMargin),
                                       ImageLoadRaisesIn(env.db), p, r.partial.doc)
  {
    var images := LocalizeEmojiImages(s.doc);
    assert LocatedUpTo(s.doc, images, |s.doc|);
    LocatedGapsHold(s.doc, images);
    var rule := UpdateRule(env.db, CalculateEmojiSize(s.config, env.fontHeight), s.config.emojiMargin);
    var walked := WalkLocated(s.doc, images, rule, ImageLoadRaisesIn(env.db));
    if walked.Raised? {
      return Raised(s.(doc := walked.partial));
    }
    return Completed(s.(doc := walked.value));
  }

  // ---------------------------------------------------------------------------------
  // Plain text

  /** The text one cell contributes to `toPlainText`: characters as they are, an emoji
      image as its record's characters (nothing when the alias is unknown), any other image
      as its fragment text, the object replacement character. */
  function CellText(db: EmojiDb, c: Cell): string {
    match c
    case Char(ch) => [ch]
    case Break => "\n"
    case Image(f) =>
      if IsEmojiName(f.name) then
        (match TextImageToEmoji(db, f) case Some(e) => e.emoji case None => "")
      else [ObjectReplacement]
  }

  /** Reference: the cells' texts, concatenated; a break reads as a newline. */
  function CellsText(db: EmojiDb, cells: Doc): string {
    if cells == [] then "" else CellText(db, cells[0]) + CellsText(db, cells[1..])
  }

  /** The blocks' texts joined by a newline, with none after the last. */
  function JoinBlocks(db: EmojiDb, bs: seq<Doc>): string
    requires |bs| >= 1
  {
    if |bs| == 1 then CellsText(db, bs[0]) else CellsText(db, bs[0]) + "\n" + JoinBlocks(db, bs[1..])
  }

  /** `toPlainText`, block by block. */
  function ToPlainText(doc: Doc, db: EmojiDb): (r: string)
    ensures BreakFree(doc) ==> r == CellsText(db, doc)
  {
    if BreakFree(doc) then BlocksOfBreakFree(doc); JoinBlocks(db, Blocks(doc))
    else JoinBlocks(db, Blocks(doc))
  }

  lemma {:induction false} CellsTextAppend(db: EmojiDb, a: Doc, b: Doc)
    ensures CellsText(db, a + b) == CellsText(db, a) + CellsText(db, b)
    decreases |a|
  {
    if a == [] {
      assert a + b == b;
    } else {
      var ab := a + b;
      assert ab[0] == a[0];
      assert ab[1..] == a[1..] + b;
      CellsTextHead(db, ab);
      CellsTextHead(db, a);
      CellsTextAppend(db, a[1..], b);
      ConcatAssoc(CellText(db, a[0]), CellsText(db, a[1..]), CellsText(db, b));
    }
  }

  lemma {:induction false} CellsTextChars(db: EmojiDb, t: string)
    ensures CellsText(db, Chars(t)) == t
    decreases |t|
  {
    if t != [] {
      assert Chars(t)[1..] == Chars(t[1..]);
      CellsTextChars(db, t[1..]);
    }
  }

  lemma CellsTextFront(db: EmojiDb, c: Cell, rest: Doc)
    ensures CellsText(db, [c] + rest) == CellText(db, c) + CellsText(db, rest)
  {
    assert ([c] + rest)[0] == c && ([c] + rest)[1..] == rest;
  }

  /** The block-by-block export is the cell-by-cell one: joining the blocks by newlines is
      reading each break as a newline. */
  lemma {:induction false} ToPlainTextByCells(doc: Doc, db: EmojiDb)
    ensures ToPlainText(doc, db) == CellsText(db, doc)
    decreases |doc|
  {
    if doc != [] {
      ToPlainTextByCells(doc[1..], db);
      if doc[0].Break? {
        PlainTextBreakStep(doc, db);
      } else {
        PlainTextCellStep(doc, db);
      }
    }
  }

  /** A leading break ends an empty first block: it is the newline that joins it. */
  lemma PlainTextBreakStep(doc: Doc, db: EmojiDb)
    requires doc != [] && doc[0].Break?
    requires JoinBlocks(db, Blocks(doc[1..])) == CellsText(db, doc[1..])
    ensures JoinBlocks(db, Blocks(doc)) == CellsText(db, doc)
  {
    var rest := Blocks(doc[1..]);
    BlocksBreakHead(doc);
    JoinCons(db, [], rest);
    CellsTextHead(db, doc);
  }

  /** A leading cell that is not a break joins the first block. */
  lemma PlainTextCellStep(doc: Doc, db: EmojiDb)
    requires doc != [] && !doc[0].Break?
    requires JoinBlocks(db, Blocks(doc[1..])) == CellsText(db, doc[1..])
    ensures JoinBlocks(db, Blocks(doc)) == CellsText(db, doc)
  {
    var rest := Blocks(doc[1..]);
    var first := [doc[0]] + rest[0];
    BlocksCellHead(doc);
    CellsTextFront(db, doc[0], rest[0]);
    CellsTextHead(db, doc);
    JoinCons(db, first, rest[1..]);
    JoinSplit(db, rest);
  }

  lemma JoinSplit(db: EmojiDb, bs: seq<Doc>)
    requires |bs| >= 1
    ensures JoinBlocks(db, bs) == CellsText(db, bs[0]) + JoinTail(db, bs[1..])
  {
  }

  lemma CellsTextHead(db: EmojiDb, doc: Doc)
    requires doc != []
    ensures CellsText(db, doc) == CellText(db, doc[0]) + CellsText(db, doc[1..])
  {
  }

  /** The join of a first block and the others. */
  lemma JoinCons(db: EmojiDb, b: Doc, bs: seq<Doc>)
    ensures JoinBlocks(db, [b] + bs) == CellsText(db, b) + JoinTail(db, bs)
  {
    assert ([b] + bs)[0] == b && ([b] + bs)[1..] == bs;
  }

  /** What the blocks after the first add to the join. */
  function JoinTail(db: EmojiDb, bs: seq<Doc>): string {
    if bs == [] then "" else "\n" + JoinBlocks(db, bs)
  }

  /** A per-cell pass that gives every cell a rewrite of the same text keeps the text. */
  lemma {:induction false} RewriteKeepsText(db: EmojiDb, cells: Doc, pick: Cell -> bool, rule: Cell -> Option<Doc>)
    requires forall c :: CellsText(db, CellResult(pick, rule, c)) == CellText(db, c)
    ensures CellsText(db, RewriteCells(cells, pick, rule)) == CellsText(db, cells)
    decreases |cells|
  {
    if cells != [] {
      RewriteKeepsText(db, cells[1..], pick, rule);
      CellsTextAppend(db, CellResult(pick, rule, cells[0]), RewriteCells(cells[1..], pick, rule));
    }
  }

  lemma CellsTextSingle(db: EmojiDb, c: Cell)
    ensures CellsText(db, [c]) == CellText(db, c)
  {
    assert [c][1..] == [];
  }

  /** Going back to text keeps the plain text: an emoji image reads as its record's
      characters either way, and images with an unknown alias stay. */
  lemma DetwemojizeKeepsPlainText(s: State, db: EmojiDb)
    ensures ToPlainText(Detwemojize(s, db).doc, db) == ToPlainText(s.doc, db)
  {
    forall c: Cell
      ensures CellsText(db, CellResult(IsEmojiCell, DetwemojizeRule(db), c)) == CellText(db, c)
    {
      if IsEmojiCell(c) && DetwemojizeCell(db, c).Some? {
        CellsTextChars(db, TextImageToEmoji(db, c.format).value.emoji);
      } else {
        CellsTextSingle(db, c);
      }
    }
    RewriteKeepsText(db, s.doc, IsEmojiCell, DetwemojizeRule(db));
    ToPlainTextByCells(s.doc, db);
    ToPlainTextByCells(Detwemojize(s, db).doc, db);
  }

  /** Every alias the database knows leads to a record whose canonical alias is usable as
      an image name and leads back to the same record. */
  predicate AliasConsistent(db: EmojiDb) {
    forall a :: a in db.byAlias ==>
      && |db.byAlias[a].aliases| > 0
      && DelimiterFree(db.byAlias[a].aliases[0])
      && LookupAlias(db, db.byAlias[a].aliases[0]) == Some(db.byAlias[a])
  }

  /** Resizing the emoji images keeps the plain text. */
  lemma UpdateKeepsPlainText(s: State, env: Env)
    requires AliasConsistent(env.db)
    ensures ToPlainText(UpdateEmojiImages(s, env).doc, env.db) == ToPlainText(s.doc, env.db)
  {
    var db := env.db;
    var size, margin := CalculateEmojiSize(s.config, env.fontHeight), s.config.emojiMargin;
    var rule := UpdateRule(db, size, margin);
    forall c: Cell
      ensures CellsText(db, CellResult(IsEmojiCell, rule, c)) == CellText(db, c)
    {
      if IsEmojiCell(c) && UpdateCell(db, size, margin, c).Some? {
        var e := TextImageToEmoji(db, c.format).value;
        assert Netloc(c.format.name) in db.byAlias;
        ImageRoundTrip(db, e, size, margin);
        CellsTextSingle(db, EmojiImage(e, size, margin));
      } else {
        CellsTextSingle(db, c);
      }
    }
    RewriteKeepsText(db, s.doc, IsEmojiCell, rule);
    ToPlainTextByCells(s.doc, db);
    ToPlainTextByCells(UpdateEmojiImages(s, env).doc, db);
  }

  /** A per-cell pass puts the rewrite of cell `k` between the rewrites of the cells
      before and after it. */
  lemma RewriteAt(cells: Doc, k: nat, pick: Cell -> bool, rule: Cell -> Option<Doc>)
    requires k < |cells|
    ensures RewriteCells(cells, pick, rule)
         == RewriteCells(cells[..k], pick, rule) + CellResult(pick, rule, cells[k])
            + RewriteCells(cells[k + 1..], pick, rule)
  {
    var a, c, b := cells[..k], cells[k], cells[k + 1..];
    SplitAt(cells, k);
    calc {
      RewriteCells(cells, pick, rule);
      { RewriteThree(a, [c], b, pick, rule); }
      RewriteCells(a, pick, rule) + RewriteCells([c], pick, rule) + RewriteCells(b, pick, rule);
      { RewriteSingle(c, pick, rule); }
      RewriteCells(a, pick, rule) + CellResult(pick, rule, c) + RewriteCells(b, pick, rule);
    }
  }

  lemma SplitAt(cells: Doc, k: nat)
    requires k < |cells|
    ensures cells == cells[..k] + [cells[k]] + cells[k + 1..]
  {
  }

  lemma RewriteSingle(c: Cell, pick: Cell -> bool, rule: Cell -> Option<Doc>)
    ensures RewriteCells([c], pick, rule) == CellResult(pick, rule, c)
  {
    assert [c][1..] == [];
  }

  /** After resizing, an emoji image whose alias resolves stands, between the rewrites of
      its neighbours, as the record's image at the current size and margin: a square of side
      size plus twice the margin. */
  lemma UpdateSetsSizes(s: State, env: Env, k: nat)
    requires k < |s.doc| && IsEmojiCell(s.doc[k]) && TextImageToEmoji(env.db, s.doc[k].format).Some?
    ensures var size := CalculateEmojiSize(s.config, env.fontHeight);
            var img := EmojiImage(TextImageToEmoji(env.db, s.doc[k].format).value, size, s.config.emojiMargin);
            var rule := UpdateRule(env.db, size, s.config.emojiMargin);
            && UpdateEmojiImages(s, env).doc
               == RewriteCells(s.doc[..k], IsEmojiCell, rule) + [img] + RewriteCells(s.doc[k + 1..], IsEmojiCell, rule)
            && (|TextImageToEmoji(env.db, s.doc[k].format).value.aliases| > 0 ==>
                  img.format.width == img.format.height == size + 2 * s.config.emojiMargin)
  {
    var size := CalculateEmojiSize(s.config, env.fontHeight);
    RewriteAt(s.doc, k, IsEmojiCell, UpdateRule(env.db, size, s.config.emojiMargin));
  }

  // ---------------------------------------------------------------------------------
  // Round trips

  /** A match the full scan gets right: its cells are the characters of the record the
      matcher paired with it, and that record is found again from its canonical alias. */
  predicate FaithfulPair(doc: Doc, db: EmojiDb, pair: (Emoji, Span)) {
    && pair.1.start <= pair.1.end <= |doc|
    && doc[pair.1.start..pair.1.end] == Chars(pair.0.emoji)
    && |pair.0.aliases| > 0
    && DelimiterFree(pair.0.aliases[0])
    && LookupAlias(db, pair.0.aliases[0]) == Some(pair.0)
  }

  /** An emoji image whose canonical alias leads back to its record turns back into the
      record's characters. */
  lemma ImageUndone(db: EmojiDb, e: Emoji, size: int, margin: int)
    requires |e.aliases| > 0 && DelimiterFree(e.aliases[0]) && LookupAlias(db, e.aliases[0]) == Some(e)
    ensures RewriteCells([EmojiImage(e, size, margin)], IsEmojiCell, DetwemojizeRule(db)) == Chars(e.emoji)
  {
    ImageRoundTrip(db, e, size, margin);
    var img := EmojiImage(e, size, margin);
    assert [img][1..] == [];
    assert RewriteCells([img], IsEmojiCell, DetwemojizeRule(db)) == Chars(e.emoji) + [];
  }

  lemma FullEditsUndone(doc: Doc, db: EmojiDb, pairs: seq<(Emoji, Span)>, size: int, margin: int)
    requires SortedSpans(SpansOf(pairs), |doc|)
    requires forall pair :: pair in pairs ==> FaithfulPair(doc, db, pair)
    ensures UndoneBy(doc, FullEdits(pairs, |doc|, size, margin), IsEmojiCell, DetwemojizeRule(db))
  {
    var edits := FullEdits(pairs, |doc|, size, margin);
    forall i | 0 <= i < |edits| && edits[i].repl.Some? && edits[i].start <= edits[i].end <= |doc|
      ensures RewriteCells(edits[i].repl.value, IsEmojiCell, DetwemojizeRule(db))
           == doc[edits[i].start..edits[i].end]
    {
      assert pairs[i] in pairs;
      ImageUndone(db, pairs[i].0, size, margin);
    }
  }

  /** Converting a text-only document to images and back gives the document back, when the
      matcher pairs each match with the record of exactly its characters. */
  lemma FullRoundTrip(s: State, env: Env)
    requires ValidEnv(env)
    requires forall k :: 0 <= k < |s.doc| ==> !IsEmojiCell(s.doc[k])
    requires forall pair :: pair in env.findEmojiObjects(PlainView(s.doc)) ==> FaithfulPair(s.doc, env.db, pair)
    ensures Detwemojize(TwemojizeFull(s, env), env.db).doc == s.doc
  {
    var pairs := env.findEmojiObjects(PlainView(s.doc));
    var size, margin := CalculateEmojiSize(s.config, env.fontHeight), s.config.emojiMargin;
    var edits := FullEdits(pairs, |s.doc|, size, margin);
    TwemojizeFullResult(s, env);
    FullEditsUndone(s.doc, env.db, pairs, size, margin);
    NothingPicked(s.doc);
    ForwardUndone(s.doc, edits, 0, |s.doc|, IsEmojiCell, DetwemojizeRule(env.db));
  }

  lemma NothingPicked(doc: Doc)
    requires forall k :: 0 <= k < |doc| ==> !IsEmojiCell(doc[k])
    ensures NonePicked(doc, 0, |doc|, IsEmojiCell)
    ensures doc[0..|doc|] == doc
  {
    assert doc[0..|doc|] == doc;
  }

  /** Splicing in replacements that read as the cells they replace keeps the text. */
  lemma {:induction false} ForwardKeepsText(db: EmojiDb, doc: Doc, edits: seq<Edit>, lo: nat, hi: nat)
    requires Sorted(edits, lo, hi) && hi <= |doc|
    requires forall i :: 0 <= i < |edits| && edits[i].repl.Some? ==>
               CellsText(db, edits[i].repl.value) == CellsText(db, doc[edits[i].start..edits[i].end])
    ensures Ascending(edits, lo, hi)
    ensures CellsText(db, Forward(doc, edits, lo, hi)) == CellsText(db, doc[lo..hi])
    decreases |edits|
  {
    SortedIsAscending(edits, lo, hi);
    if edits != [] {
      var e := edits[0];
      assert forall i :: 0 <= i < |edits[1..]| ==> edits[1..][i] == edits[i + 1];
      assert Sorted(edits[1..], e.end, hi);
      ForwardKeepsText(db, doc, edits[1..], e.end, hi);
      KeepsTextStep(db, doc, e, Forward(doc, edits[1..], e.end, hi), lo, hi);
    }
  }

  lemma ForwardWholeKeepsText(db: EmojiDb, doc: Doc, edits: seq<Edit>)
    requires Sorted(edits, 0, |doc|)
    requires forall i :: 0 <= i < |edits| && edits[i].repl.Some? ==>
               CellsText(db, edits[i].repl.value) == CellsText(db, doc[edits[i].start..edits[i].end])
    ensures Ascending(edits, 0, |doc|)
    ensures CellsText(db, Forward(doc, edits, 0, |doc|)) == CellsText(db, doc)
  {
    ForwardKeepsText(db, doc, edits, 0, |doc|);
    assert doc[0..|doc|] == doc;
  }

  lemma KeepsTextStep(db: EmojiDb, doc: Doc, e: Edit, rest: Doc, lo: nat, hi: nat)
    requires lo <= e.start <= e.end <= hi <= |doc|
    requires e.repl.Some? ==> CellsText(db, e.repl.value) == CellsText(db, doc[e.start..e.end])
    requires CellsText(db, rest) == CellsText(db, doc[e.end..hi])
    ensures CellsText(db, doc[lo..e.start] + Replacement(doc, e) + rest) == CellsText(db, doc[lo..hi])
  {
    var a, r := doc[lo..e.start], Replacement(doc, e);
    CellsTextAppend(db, a + r, rest);
    CellsTextAppend(db, a, r);
    SliceThree(doc, lo, e.start, e.end, hi);
    CellsTextAppend(db, a + doc[e.start..e.end], doc[e.end..hi]);
    CellsTextAppend(db, a, doc[e.start..e.end]);
  }

  lemma SameCellsTextSamePlainText(a: Doc, b: Doc, db: EmojiDb)
    requires CellsText(db, a) == CellsText(db, b)
    ensures ToPlainText(a, db) == ToPlainText(b, db)
  {
    ToPlainTextByCells(a, db);
    ToPlainTextByCells(b, db);
  }

  /** A match whose cells read as its record's characters, the record being found again
      from its canonical alias. */
  predicate TextFaithfulPair(doc: Doc, db: EmojiDb, pair: (Emoji, Span)) {
    && pair.1.start <= pair.1.end <= |doc|
    && CellsText(db, doc[pair.1.start..pair.1.end]) == pair.0.emoji
    && |pair.0.aliases| > 0
    && DelimiterFree(pair.0.aliases[0])
    && LookupAlias(db, pair.0.aliases[0]) == Some(pair.0)
  }

  lemma FullEditsKeepText(doc: Doc, db: EmojiDb, pairs: seq<(Emoji, Span)>, size: int, margin: int)
    requires SortedSpans(SpansOf(pairs), |doc|)
    requires forall pair :: pair in pairs ==> TextFaithfulPair(doc, db, pair)
    ensures var edits := FullEdits(pairs, |doc|, size, margin);
            forall i :: 0 <= i < |edits| && edits[i].repl.Some? ==>
              CellsText(db, edits[i].repl.value) == CellsText(db, doc[edits[i].start..edits[i].end])
  {
    var edits := FullEdits(pairs, |doc|, size, margin);
    forall i | 0 <= i < |edits| && edits[i].repl.Some?
      ensures CellsText(db, edits[i].repl.value) == CellsText(db, doc[edits[i].start..edits[i].end])
    {
      assert pairs[i] in pairs;
      ImageRoundTrip(db, pairs[i].0, size, margin);
      CellsTextSingle(db, EmojiImage(pairs[i].0, size, margin));
    }
  }

  /** The full scan keeps the plain text when each match reads as its record's characters
      and the record is found again from its canonical alias. */
  lemma FullKeepsPlainText(s: State, env: Env)
    requires ValidEnv(env)
    requires forall pair :: pair in env.findEmojiObjects(PlainView(s.doc)) ==> TextFaithfulPair(s.doc, env.db, pair)
    ensures ToPlainText(TwemojizeFull(s, env).doc, env.db) == ToPlainText(s.doc, env.db)
  {
    var pairs := env.findEmojiObjects(PlainView(s.doc));
    var size, margin := CalculateEmojiSize(s.config, env.fontHeight), s.config.emojiMargin;
    TwemojizeFullResult(s, env);
    FullEditsKeepText(s.doc, env.db, pairs, size, margin);
    ForwardWholeKeepsText(env.db, s.doc, FullEdits(pairs, |s.doc|, size, margin));
    SameCellsTextSamePlainText(s.doc, TwemojizeFull(s, env).doc, env.db);
  }

  // ---------------------------------------------------------------------------------
  // Selection

  /** A text cursor: the anchor and the position; the selection lies between them. */
  datatype Cursor = Cursor(anchor: int, position: int)

  predicate Covers(lo: int, hi: int, p: int) {
    lo <= p < hi
  }

  /** `_is_fragment_selected`: the cursor has a selection and it overlaps the fragment. For
      a fragment of at least one position this is "some position is both selected and in
      the fragment". */
  function IsFragmentSelected(cursor: Cursor, fragStart: int, fragLength: int): (r: bool)
    ensures cursor.anchor == cursor.position ==> !r
    ensures fragLength > 0 ==>
              (r <==> exists p :: Covers(Min(cursor.anchor, cursor.position), Max(cursor.anchor, cursor.position), p)
                                && Covers(fragStart, fragStart + fragLength, p))
  {
    var selStart, selEnd := Min(cursor.anchor, cursor.position), Max(cursor.anchor, cursor.position);
    var r := cursor.anchor != cursor.position && selEnd > fragStart && selStart < fragStart + fragLength;
    assert r && fragLength > 0 ==> Covers(selStart, selEnd, Max(selStart, fragStart)) && Covers(fragStart, fragStart + fragLength, Max(selStart, fragStart));
    r
  }
}
