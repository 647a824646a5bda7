/** The older revision of the emoji document.

    It converts the whole document at once. Twemojization walks the grapheme clusters of the
    plain text from the end towards the start and turns every cluster the emoji validator
    accepts into an image; a cluster accepted as a record without aliases is removed and
    then stops the walk with an error. Alias replacement finds the `:word:` tokens of the
    plain text and turns every one whose alias the database knows into the emoji (as text
    or as an image, depending on the twemoji flag). Detwemojization puts the emoji text back; it fails on an
    emoji image whose alias the database does not know. */
module LegacyTwemojiDocument {
  import opened Util
  import opened Emoji
  import opened Document
  import opened Splice
  import opened ImageName

  /** The two metrics of the cursor's font that `_font_heigth` reads. */
  datatype FontMetrics = FontMetrics(lineSpacing: int, leading: int)

  /** `_font_heigth`: the height images are given, line spacing plus leading. */
  function FontHeight(fm: FontMetrics): int {
    fm.lineSpacing + fm.leading
  }

  /** The engine's collaborators. `accept` is the emoji validator (`EmojiParams`): the
      record of a cluster it accepts, `None` where validation fails. `segment` lists the
      grapheme boundaries of a text (`QTextBoundaryFinder`). */
  datatype LegacyEnv = LegacyEnv(
    db: EmojiDb,
    accept: string -> Option<Emoji>,
    segment: string -> seq<nat>,
    metrics: FontMetrics)

  /** Boundaries from the start of the text to its end, strictly increasing. */
  predicate ValidBoundaries(b: seq<nat>, n: nat) {
    && |b| >= 1
    && b[0] == 0
    && b[|b| - 1] == n
    && (forall i, j :: 0 <= i < j < |b| ==> b[i] < b[j])
  }

  /** The boundaries the segmenter gives for the document's plain text. */
  function Clusters(doc: Doc, env: LegacyEnv): seq<nat> {
    env.segment(PlainView(doc))
  }

  /** The image a record becomes. */
  function LegacyImage(e: Emoji, height: int): Cell
    requires |e.aliases| > 0
  {
    Image(LegacyEmojiToTextImage(e, height))
  }

  // ---------------------------------------------------------------------------------
  // The grapheme walk

  /** The validator accepts the text of `[lo, hi)` as a record without aliases: the turn
      removes the selection, then building the image raises `IndexError`. */
  predicate ClusterRaises(doc: Doc, env: LegacyEnv, lo: nat, hi: nat)
    requires lo <= hi <= |doc|
  {
    env.accept(SelectedText(doc[lo..hi])).Some? && |env.accept(SelectedText(doc[lo..hi])).value.aliases| == 0
  }

  /** The cells a turn leaves where an accepted cluster was: the record's image, or nothing
      when the record has no alias. */
  function TurnCells(e: Emoji, height: int): Doc {
    if |e.aliases| > 0 then [LegacyImage(e, height)] else []
  }

  /** What the cluster `[lo, hi)` becomes: the image of the record the validator accepts
      its selected text as, nothing when that record has no alias (the turn that raises),
      or no change when the validator refuses it. */
  function ClusterEdit(doc: Doc, env: LegacyEnv, lo: nat, hi: nat): (e: Edit)
    requires lo <= hi <= |doc|
    ensures e.start == lo && e.end == hi
    ensures e.repl.Some? <==> env.accept(SelectedText(doc[lo..hi])).Some?
    ensures e.repl.Some? && !ClusterRaises(doc, env, lo, hi) ==>
              e.repl == Some([LegacyImage(env.accept(SelectedText(doc[lo..hi])).value, FontHeight(env.metrics))])
    ensures ClusterRaises(doc, env, lo, hi) ==> e.repl == Some([])
  {
    var t := SelectedText(doc[lo..hi]);
    match env.accept(t)
    case None => Edit(lo, hi, None)
    case Some(e) => Edit(lo, hi, Some(TurnCells(e, FontHeight(env.metrics))))
  }

  /** One edit per cluster, in document order. */
  function ClusterEdits(doc: Doc, env: LegacyEnv, b: seq<nat>): (edits: seq<Edit>)
    requires ValidBoundaries(b, |doc|)
    ensures |edits| == |b| - 1
    ensures forall k :: 0 <= k < |b| ==> b[k] <= |doc|
    ensures forall k :: 0 <= k < |b| - 1 ==> edits[k] == ClusterEdit(doc, env, b[k], b[k + 1])
  {
    assert forall k :: 0 <= k < |b| ==> b[k] <= |doc| by {
      forall k | 0 <= k < |b|
        ensures b[k] <= |doc|
      {
        if k < |b| - 1 {
          assert b[k] < b[|b| - 1];
        }
      }
    }
    seq(|b| - 1, k requires 0 <= k < |b| - 1 => ClusterEdit(doc, env, b[k], b[k + 1]))
  }

  /** The walk has done the clusters from boundary `j` to the end: the cells before `b[j]`
      are untouched and the rest is the head-to-tail splice of the clusters done. */
  predicate WalkedFrom(doc: Doc, edits: seq<Edit>, b: seq<nat>, j: nat, r: Doc)
    requires |edits| == |b| - 1 && j < |b| && b[j] <= |doc|
  {
    && Ascending(edits[j..], b[j], |doc|)
    && r == doc[..b[j]] + Forward(doc, edits[j..], b[j], |doc|)
  }

  /** One turn of the walk on the current document: the cluster `[lo, hi)` is read from
      it and, when accepted, removed and replaced by the record's image; a record without
      an alias raises once the cluster is removed. */
  function WalkTurn(r: Doc, env: LegacyEnv, lo: nat, hi: nat): Outcome<Doc>
    requires lo <= hi <= |r|
  {
    var accepted := env.accept(SelectedText(r[lo..hi]));
    if accepted.None? then Completed(r)
    else if |accepted.value.aliases| > 0 then
      Completed(r[..lo] + TurnCells(accepted.value, FontHeight(env.metrics)) + r[hi..])
    else Raised(r[..lo] + TurnCells(accepted.value, FontHeight(env.metrics)) + r[hi..])
  }

  lemma WalkTurnIsSplice(doc: Doc, r: Doc, env: LegacyEnv, lo: nat, hi: nat)
    requires lo <= hi <= |doc| && hi <= |r| && r[lo..hi] == doc[lo..hi]
    ensures WalkTurn(r, env, lo, hi).Raised? <==> ClusterRaises(doc, env, lo, hi)
    ensures Settled(WalkTurn(r, env, lo, hi)) == r[..lo] + Replacement(doc, ClusterEdit(doc, env, lo, hi)) + r[hi..]
  {
    assert r == r[..lo] + r[lo..hi] + r[hi..];
  }

  lemma WalkStep(doc: Doc, edits: seq<Edit>, b: seq<nat>, j: nat, r: Doc, env: LegacyEnv)
    requires |edits| == |b| - 1 && 1 <= j < |b| && b[j - 1] < b[j] <= |doc|
    requires edits[j - 1] == ClusterEdit(doc, env, b[j - 1], b[j])
    requires WalkedFrom(doc, edits, b, j, r)
    ensures |r| >= b[j]
    ensures WalkTurn(r, env, b[j - 1], b[j]).Raised? <==> ClusterRaises(doc, env, b[j - 1], b[j])
    ensures WalkedFrom(doc, edits, b, j - 1, Settled(WalkTurn(r, env, b[j - 1], b[j])))
  {
    var lo, hi := b[j - 1], b[j];
    var rest := Forward(doc, edits[j..], hi, |doc|);
    ForwardStepBack(doc, edits, j, lo, hi);
    WalkTurnOnWalked(doc, r, env, lo, hi, rest);
  }

  /** Reading one more span from the left: the span's replacement, then what followed. */
  lemma ForwardStepBack(doc: Doc, edits: seq<Edit>, j: nat, lo: nat, hi: nat)
    requires 1 <= j <= |edits| && hi <= |doc|
    requires edits[j - 1].start == lo && edits[j - 1].end == hi && lo <= hi
    requires Ascending(edits[j..], hi, |doc|)
    ensures Ascending(edits[j - 1..], lo, |doc|)
    ensures Forward(doc, edits[j - 1..], lo, |doc|)
         == Replacement(doc, edits[j - 1]) + Forward(doc, edits[j..], hi, |doc|)
  {
    var e := edits[j - 1];
    assert edits[j - 1..] == [e] + edits[j..];
    AscendingCons(e, edits[j..], lo, |doc|);
    ForwardHead(doc, e, edits[j..], lo, |doc|);
  }

  /** A turn of the walk on a document whose first `hi` cells are still the original's. */
  lemma WalkTurnOnWalked(doc: Doc, r: Doc, env: LegacyEnv, lo: nat, hi: nat, rest: Doc)
    requires lo <= hi <= |doc| && r == doc[..hi] + rest
    ensures |r| >= hi
    ensures WalkTurn(r, env, lo, hi).Raised? <==> ClusterRaises(doc, env, lo, hi)
    ensures Settled(WalkTurn(r, env, lo, hi)) == doc[..lo] + Replacement(doc, ClusterEdit(doc, env, lo, hi)) + rest
  {
    CutPrefix(doc, r, rest, lo, hi);
    WalkTurnIsSplice(doc, r, env, lo, hi);
  }

  /** A document that starts with `doc`'s first `hi` cells, split around `[lo, hi)`. */
  lemma CutPrefix(doc: Doc, r: Doc, rest: Doc, lo: nat, hi: nat)
    requires lo <= hi <= |doc| && r == doc[..hi] + rest
    ensures |r| >= hi && r[..lo] == doc[..lo] && r[lo..hi] == doc[lo..hi] && r[hi..] == rest
  {
    assert |doc[..hi]| == hi;
  }

  lemma WalkStart(doc: Doc, edits: seq<Edit>, b: seq<nat>)
    requires |edits| == |b| - 1 && |b| >= 1 && b[|b| - 1] == |doc|
    ensures WalkedFrom(doc, edits, b, |b| - 1, doc)
  {
    assert edits[|b| - 1..] == [];
    assert doc[..|doc|] == doc && doc[|doc|..|doc|] == [];
  }

  /** No cluster from boundary `j` on is accepted as a record without aliases. */
  predicate NoClusterRaises(doc: Doc, env: LegacyEnv, b: seq<nat>, j: nat)
    requires ValidBoundaries(b, |doc|)
  {
    forall m :: j <= m < |b| - 1 ==> !ClusterRaises(doc, env, b[m], b[m + 1])
  }

  /** The walk raised at cluster `k`: the last cluster accepted as a record without
      aliases, removed, with every later cluster already converted. */
  predicate RaisedAt(doc: Doc, env: LegacyEnv, b: seq<nat>, k: nat, partial: Doc)
    requires ValidBoundaries(b, |doc|)
  {
    && k < |b| - 1
    && ClusterRaises(doc, env, b[k], b[k + 1])
    && NoClusterRaises(doc, env, b, k + 1)
    && WalkedFrom(doc, ClusterEdits(doc, env, b), b, k, partial)
  }

  /** `_twemojize`: from the end of the plain text, each grapheme cluster is selected and,
      when the validator accepts its text, replaced by the image of the accepted record.
      The cluster is read from the document as it is at that point of the walk. The walk
      completes exactly when no accepted record lacks an alias; otherwise it stops at the
      last such cluster, which is already removed, with every later cluster converted. */
  method Twemojize(doc: Doc, env: LegacyEnv) returns (r: Outcome<Doc>)
    requires ValidBoundaries(Clusters(doc, env), |doc|)
    ensures Ascending(ClusterEdits(doc, env, Clusters(doc, env)), 0, |doc|)
    ensures r.Completed? <==> NoClusterRaises(doc, env, Clusters(doc, env), 0)
    ensures r.Completed? ==> r.value == Forward(doc, ClusterEdits(doc, env, Clusters(doc, env)), 0, |doc|)
    ensures r.Raised? ==> exists k :: RaisedAt(doc, env, Clusters(doc, env), k, r.partial)
  {
    var b := Clusters(doc, env);
    ClusterEditsSorted(doc, env, b);
    var edits := ClusterEdits(doc, env, b);
    var cur := doc;
    var j := |b| - 1;
    WalkStart(doc, edits, b);
    while j > 0
      invariant 0 <= j < |b|
      invariant WalkedFrom(doc, edits, b, j, cur)
      invariant NoClusterRaises(doc, env, b, j)
    {
      WalkStep(doc, edits, b, j, cur, env);
      var turn := WalkTurn(cur, env, b[j - 1], b[j]);
      if turn.Raised? {
        assert WalkedFrom(doc, edits, b, j - 1, turn.partial);
        assert RaisedAt(doc, env, b, j - 1, turn.partial);
        return Raised(turn.partial);
      }
      cur := turn.value;
      j := j - 1;
    }
    assert doc[..0] == [];
    return Completed(cur);
  }

  // ---------------------------------------------------------------------------------
  // Back to text

  /** `text_image_to_emoji` then `emoji.emoji`, where it resolves. */
  function LegacyDetwemojizeCell(db: EmojiDb, c: Cell): Option<Doc> {
    if c.Image? && LegacyTextImageToEmoji(db, c.format).Some? then Some(Chars(LegacyTextImageToEmoji(db, c.format).value.emoji))
    else None
  }

  function LegacyRule(db: EmojiDb): Cell -> Option<Doc> {
    (c: Cell) => LegacyDetwemojizeCell(db, c)
  }

  /** Not an emoji image, or one whose alias resolves. */
  predicate Resolvable(db: EmojiDb, c: Cell) {
    IsEmojiCell(c) ==> LegacyTextImageToEmoji(db, c.format).Some?
  }

  function ResolvableIn(db: EmojiDb): Cell -> bool {
    (c: Cell) => Resolvable(db, c)
  }

  lemma RewriteStep(doc: Doc, p: nat, db: EmojiDb)
    requires p < |doc|
    ensures RewriteCells(doc[p..], IsEmojiCell, LegacyRule(db))
         == CellResult(IsEmojiCell, LegacyRule(db), doc[p]) + RewriteCells(doc[p + 1..], IsEmojiCell, LegacyRule(db))
  {
    assert doc[p..][0] == doc[p] && doc[p..][1..] == doc[p + 1..];
  }

  /** `_detwemojize`: the emoji images, from the last to the first, are overwritten by
      their emoji's text. An image whose alias does not resolve stops the walk with an
      error (`None` has no `emoji`), the later images already converted. */
  method Detwemojize(doc: Doc, db: EmojiDb) returns (r: Outcome<Doc>)
    ensures r.Completed? <==> AllCells(doc, ResolvableIn(db))
    ensures r.Completed? ==> r.value == RewriteCells(doc, IsEmojiCell, LegacyRule(db))
    ensures r.Raised? ==>
              exists p :: 0 <= p < |doc| && !Resolvable(db, doc[p])
                       && AllCells(doc[p + 1..], ResolvableIn(db))
                       && r.partial == doc[..p + 1] + RewriteCells(doc[p + 1..], IsEmojiCell, LegacyRule(db))
  {
    var cur := doc;
    var p := |doc|;
    assert doc[..p] == doc && doc[p..] == [];
    while p > 0
      invariant 0 <= p <= |doc|
      invariant cur == doc[..p] + RewriteCells(doc[p..], IsEmojiCell, LegacyRule(db))
      invariant AllCells(doc[p..], ResolvableIn(db))
    {
      var q := p - 1;
      if IsEmojiCell(doc[q]) && LegacyTextImageToEmoji(db, doc[q].format).None? {
        assert !ResolvableIn(db)(doc[q]);
        assert !Resolvable(db, doc[q]) && doc[q + 1..] == doc[p..];
        return Raised(cur);
      }
      DetwemojizeStep(doc, db, q, cur);
      if IsEmojiCell(doc[q]) {
        var e := LegacyTextImageToEmoji(db, doc[q].format).value;
        cur := doc[..q] + Chars(e.emoji) + RewriteCells(doc[q + 1..], IsEmojiCell, LegacyRule(db));
      }
      p := q;
    }
    assert doc[0..] == doc;
    return Completed(cur);
  }

  /** One cell of the walk: a resolvable cell at `p` keeps the walked part resolvable, and
      converting it (or keeping it) extends the converted suffix by one cell. */
  lemma DetwemojizeStep(doc: Doc, db: EmojiDb, p: nat, cur: Doc)
    requires p < |doc| && Resolvable(db, doc[p])
    requires AllCells(doc[p + 1..], ResolvableIn(db))
    requires cur == doc[..p + 1] + RewriteCells(doc[p + 1..], IsEmojiCell, LegacyRule(db))
    ensures AllCells(doc[p..], ResolvableIn(db))
    ensures !IsEmojiCell(doc[p]) ==> cur == doc[..p] + RewriteCells(doc[p..], IsEmojiCell, LegacyRule(db))
    ensures IsEmojiCell(doc[p]) ==>
              doc[..p] + Chars(LegacyTextImageToEmoji(db, doc[p].format).value.emoji)
                + RewriteCells(doc[p + 1..], IsEmojiCell, LegacyRule(db))
              == doc[..p] + RewriteCells(doc[p..], IsEmojiCell, LegacyRule(db))
  {
    ResolvableSuffix(doc, db, p);
    var tail := RewriteCells(doc[p + 1..], IsEmojiCell, LegacyRule(db));
    RewriteStep(doc, p, db);
    if IsEmojiCell(doc[p]) {
      assert CellResult(IsEmojiCell, LegacyRule(db), doc[p]) == Chars(LegacyTextImageToEmoji(db, doc[p].format).value.emoji);
    } else {
      assert CellResult(IsEmojiCell, LegacyRule(db), doc[p]) == [doc[p]];
      KeptCellJoins(doc, p, tail);
    }
  }

  lemma ResolvableSuffix(doc: Doc, db: EmojiDb, p: nat)
    requires p < |doc| && Resolvable(db, doc[p])
    requires AllCells(doc[p + 1..], ResolvableIn(db))
    ensures AllCells(doc[p..], ResolvableIn(db))
  {
    AllCellsAppend([doc[p]], doc[p + 1..], ResolvableIn(db));
    assert [doc[p]] + doc[p + 1..] == doc[p..];
  }

  lemma KeptCellJoins(doc: Doc, p: nat, tail: Doc)
    requires p < |doc|
    ensures doc[..p + 1] + tail == doc[..p] + ([doc[p]] + tail)
  {
    assert doc[..p + 1] == doc[..p] + [doc[p]];
  }

  /** Every cluster the validator accepts holds exactly the characters of the accepted
      record, and the record's canonical alias leads back to it. */
  ghost predicate FaithfulClusters(doc: Doc, env: LegacyEnv, b: seq<nat>)
    requires ValidBoundaries(b, |doc|)
  {
    forall k :: 0 <= k < |b| - 1 && env.accept(SelectedText(doc[b[k]..b[k + 1]])).Some? ==>
      var e := env.accept(SelectedText(doc[b[k]..b[k + 1]])).value;
      doc[b[k]..b[k + 1]] == Chars(e.emoji) && |e.aliases| > 0 && LookupAlias(env.db, e.aliases[0]) == Some(e)
  }

  lemma ClusterEditsUndone(doc: Doc, env: LegacyEnv, b: seq<nat>)
    requires ValidBoundaries(b, |doc|)
    requires FaithfulClusters(doc, env, b)
    ensures var edits := ClusterEdits(doc, env, b);
            && (forall i :: 0 <= i < |edits| && edits[i].repl.Some? ==> AllCells(edits[i].repl.value, ResolvableIn(env.db)))
            && UndoneBy(doc, edits, IsEmojiCell, LegacyRule(env.db))
  {
    var edits := ClusterEdits(doc, env, b);
    forall i | 0 <= i < |edits| && edits[i].repl.Some?
      ensures AllCells(edits[i].repl.value, ResolvableIn(env.db))
      ensures RewriteCells(edits[i].repl.value, IsEmojiCell, LegacyRule(env.db)) == doc[edits[i].start..edits[i].end]
    {
      var e := env.accept(SelectedText(doc[b[i]..b[i + 1]])).value;
      LegacyImageUndone(env.db, e, FontHeight(env.metrics));
    }
  }

  lemma ClusterEditsSorted(doc: Doc, env: LegacyEnv, b: seq<nat>)
    requires ValidBoundaries(b, |doc|)
    ensures Sorted(ClusterEdits(doc, env, b), 0, |doc|)
    ensures Ascending(ClusterEdits(doc, env, b), 0, |doc|)
  {
    var edits := ClusterEdits(doc, env, b);
    forall i | 0 <= i < |edits|
      ensures 0 <= edits[i].start <= edits[i].end <= |doc|
      ensures edits[i].start == b[i] && edits[i].end == b[i + 1]
    {
      assert edits[i] == ClusterEdit(doc, env, b[i], b[i + 1]);
    }
    BoundariesApart(b, |doc|);
    assert Sorted(edits, 0, |doc|);
    SortedIsAscending(edits, 0, |doc|);
  }

  /** The boundaries never go back, so the end of one cluster is at or before the start
      of every later one. */
  lemma BoundariesApart(b: seq<nat>, n: nat)
    requires ValidBoundaries(b, n)
    ensures forall k, j :: 0 <= k <= j < |b| ==> b[k] <= b[j]
  {
    forall k, j | 0 <= k <= j < |b|
      ensures b[k] <= b[j]
    {
      if k < j {
        assert b[k] < b[j];
      }
    }
  }

  lemma NoEmojiYet(doc: Doc, db: EmojiDb)
    requires forall k :: 0 <= k < |doc| ==> !IsEmojiCell(doc[k])
    ensures doc[0..|doc|] == doc
    ensures AllCells(doc[0..|doc|], ResolvableIn(db))
    ensures NonePicked(doc, 0, |doc|, IsEmojiCell)
  {
    assert doc[0..|doc|] == doc;
  }

  /** The walk then going back to text gives the document back, without error, when the
      document has no emoji image yet and every accepted cluster holds exactly the
      characters of a record whose canonical alias leads back to it. */
  lemma LegacyRoundTrip(doc: Doc, env: LegacyEnv)
    requires ValidBoundaries(Clusters(doc, env), |doc|)
    requires forall k :: 0 <= k < |doc| ==> !IsEmojiCell(doc[k])
    requires FaithfulClusters(doc, env, Clusters(doc, env))
    ensures NoClusterRaises(doc, env, Clusters(doc, env), 0)
    ensures var edits := ClusterEdits(doc, env, Clusters(doc, env));
            && Ascending(edits, 0, |doc|)
            && AllCells(Forward(doc, edits, 0, |doc|), ResolvableIn(env.db))
            && RewriteCells(Forward(doc, edits, 0, |doc|), IsEmojiCell, LegacyRule(env.db)) == doc
  {
    var b := Clusters(doc, env);
    var edits := ClusterEdits(doc, env, b);
    ClusterEditsSorted(doc, env, b);
    ClusterEditsUndone(doc, env, b);
    NoEmojiYet(doc, env.db);
    UndoneEdits(doc, edits, env.db);
  }

  /** Sorted edits over a document without emoji images, each replacement resolvable and
      converting back to what it replaced, are undone by the conversion back to text. */
  lemma UndoneEdits(doc: Doc, edits: seq<Edit>, db: EmojiDb)
    requires Sorted(edits, 0, |doc|) && Ascending(edits, 0, |doc|)
    requires NonePicked(doc, 0, |doc|, IsEmojiCell)
    requires AllCells(doc[0..|doc|], ResolvableIn(db))
    requires forall i :: 0 <= i < |edits| && edits[i].repl.Some? ==> AllCells(edits[i].repl.value, ResolvableIn(db))
    requires UndoneBy(doc, edits, IsEmojiCell, LegacyRule(db))
    ensures AllCells(Forward(doc, edits, 0, |doc|), ResolvableIn(db))
    ensures RewriteCells(Forward(doc, edits, 0, |doc|), IsEmojiCell, LegacyRule(db)) == doc
  {
    ForwardAllCells(doc, edits, 0, |doc|, ResolvableIn(db));
    ForwardUndone(doc, edits, 0, |doc|, IsEmojiCell, LegacyRule(db));
  }

  lemma LegacyImageUndone(db: EmojiDb, e: Emoji, h: int)
    requires |e.aliases| > 0 && LookupAlias(db, e.aliases[0]) == Some(e)
    ensures RewriteCells([LegacyImage(e, h)], IsEmojiCell, LegacyRule(db)) == Chars(e.emoji)
  {
    LegacyImageRoundTrip(db, e, h);
    assert [LegacyImage(e, h)][1..] == [];
    assert RewriteCells([LegacyImage(e, h)], IsEmojiCell, LegacyRule(db)) == Chars(e.emoji) + [];
  }

  // ---------------------------------------------------------------------------------
  // Alias replacement

  /** `\w` of the pattern engine without Unicode properties: ASCII letters, digits and
      the underscore. */
  predicate IsWordChar(c: char) {
    ('a' <= c <= 'z') || ('A' <= c <= 'Z') || ('0' <= c <= '9') || c == '_'
  }

  /** The end of the run of word characters that starts at `i`. */
  function WordEnd(t: string, i: nat): (k: nat)
    requires i <= |t|
    ensures i <= k <= |t|
    ensures k < |t| ==> !IsWordChar(t[k])
    ensures forall j :: i <= j < k ==> IsWordChar(t[j])
    decreases |t| - i
  {
    if i == |t| || !IsWordChar(t[i]) then i else WordEnd(t, i + 1)
  }

  /** A match of the pattern, as the span `[start, end)` of the plain text. */
  datatype Token = Token(start: nat, end: nat)

  /** `t[start..end]` is a `:word:` token: a colon, one or more word characters, a colon. */
  predicate IsAliasToken(t: string, tok: Token) {
    && tok.start + 3 <= tok.end <= |t|
    && t[tok.start] == ':' && t[tok.end - 1] == ':'
    && (forall j :: tok.start < j < tok.end - 1 ==> IsWordChar(t[j]))
  }

  /** The alias a token spells: its text without the two colons. */
  function TokenAlias(t: string, tok: Token): string
    requires IsAliasToken(t, tok)
  {
    t[tok.start + 1..tok.end - 1]
  }

  /** The match of `:\w+:` tried at `i`. The greedy `\w+` can only stop before a non-word
      character, so the closing colon must follow the whole run of word characters. */
  function TokenAt(t: string, i: nat): (r: Option<Token>)
    requires i <= |t|
    ensures r.Some? ==> r.value.start == i && IsAliasToken(t, r.value)
    ensures r.None? ==> forall e: nat :: !IsAliasToken(t, Token(i, e))
  {
    if i < |t| && t[i] == ':' then
      var k := WordEnd(t, i + 1);
      if k > i + 1 && k < |t| && t[k] == ':' then Some(Token(i, k + 1))
      else
        None
    else None
  }

  /** `globalMatch` of `(:\w+:)` from `i`: the pattern is tried at each position in turn,
      and after a match the search resumes where the match ends. The matches are tokens,
      in order and disjoint. */
  function AliasMatches(t: string, i: nat): (ms: seq<Token>)
    requires i <= |t|
    ensures forall k :: 0 <= k < |ms| ==> IsAliasToken(t, ms[k]) && i <= ms[k].start
    ensures forall k, l :: 0 <= k < l < |ms| ==> ms[k].end <= ms[l].start
    decreases |t| - i
  {
    if i == |t| then []
    else match TokenAt(t, i)
      case Some(tok) => [tok] + AliasMatches(t, tok.end)
      case None => AliasMatches(t, i + 1)
  }

  /** No token is missed: every token of the text from `i` on overlaps a match (it is
      either matched or starts inside a match, sharing its colon). */
  lemma AliasMatchesComplete(t: string, i: nat, tok: Token)
    requires i <= tok.start && IsAliasToken(t, tok)
    ensures exists k :: 0 <= k < |AliasMatches(t, i)| && AliasMatches(t, i)[k].start <= tok.start < AliasMatches(t, i)[k].end
  {
    var k := MatchCovering(t, i, tok);
  }

  /** The match that covers `tok`, by its index. */
  lemma {:induction false} MatchCovering(t: string, i: nat, tok: Token) returns (k: nat)
    requires i <= tok.start && IsAliasToken(t, tok)
    ensures k < |AliasMatches(t, i)|
    ensures AliasMatches(t, i)[k].start <= tok.start < AliasMatches(t, i)[k].end
    decreases |t| - i
  {
    match TokenAt(t, i)
    case Some(first) =>
      if tok.start < first.end {
        k := CoveredByFirst(t, i, first, tok);
      } else {
        var j := MatchCovering(t, first.end, tok);
        k := CoveredLater(t, i, first, tok, j);
      }
    case None =>
      NoTokenAtStart(t, i, tok);
      var j := MatchCovering(t, i + 1, tok);
      k := CoveredAfterSkip(t, i, tok, j);
  }

  lemma CoveredByFirst(t: string, i: nat, first: Token, tok: Token) returns (k: nat)
    requires i <= tok.start && i <= |t| && TokenAt(t, i) == Some(first) && tok.start < first.end
    ensures k < |AliasMatches(t, i)|
    ensures AliasMatches(t, i)[k].start <= tok.start < AliasMatches(t, i)[k].end
  {
    assert AliasMatches(t, i)[0] == first;
    k := 0;
  }

  lemma CoveredLater(t: string, i: nat, first: Token, tok: Token, j: nat) returns (k: nat)
    requires i <= |t| && TokenAt(t, i) == Some(first)
    requires j < |AliasMatches(t, first.end)|
    requires AliasMatches(t, first.end)[j].start <= tok.start < AliasMatches(t, first.end)[j].end
    ensures k < |AliasMatches(t, i)|
    ensures AliasMatches(t, i)[k].start <= tok.start < AliasMatches(t, i)[k].end
  {
    var ms := AliasMatches(t, i);
    assert ms == [first] + AliasMatches(t, first.end);
    k := j + 1;
    assert ms[k] == AliasMatches(t, first.end)[j];
  }

  lemma NoTokenAtStart(t: string, i: nat, tok: Token)
    requires i <= tok.start && i <= |t| && IsAliasToken(t, tok) && TokenAt(t, i).None?
    ensures i + 1 <= tok.start
  {
    assert !IsAliasToken(t, Token(i, tok.end));
  }

  lemma CoveredAfterSkip(t: string, i: nat, tok: Token, j: nat) returns (k: nat)
    requires i < |t| && TokenAt(t, i).None?
    requires j < |AliasMatches(t, i + 1)|
    requires AliasMatches(t, i + 1)[j].start <= tok.start < AliasMatches(t, i + 1)[j].end
    ensures k < |AliasMatches(t, i)|
    ensures AliasMatches(t, i)[k].start <= tok.start < AliasMatches(t, i)[k].end
  {
    assert AliasMatches(t, i) == AliasMatches(t, i + 1);
    k := j;
  }

  /** What a token becomes: nothing changes when the database does not know its alias;
      otherwise the emoji's characters (`insertText`) or, with twemoji on, its image. */
  function AliasEdit(doc: Doc, db: EmojiDb, twemoji: bool, height: int, tok: Token): (e: Edit)
    requires AliasesPresent(db)
    requires IsAliasToken(PlainView(doc), tok)
    ensures e.start == tok.start && e.end == tok.end
    ensures e.repl.Some? <==> LookupAlias(db, TokenAlias(PlainView(doc), tok)).Some?
    ensures e.repl.Some? && !twemoji ==>
              e.repl.value == Chars(LookupAlias(db, TokenAlias(PlainView(doc), tok)).value.emoji)
    ensures e.repl.Some? && twemoji ==>
              && |LookupAlias(db, TokenAlias(PlainView(doc), tok)).value.aliases| > 0
              && e.repl.value == [LegacyImage(LookupAlias(db, TokenAlias(PlainView(doc), tok)).value, height)]
  {
    match LookupAlias(db, TokenAlias(PlainView(doc), tok))
    case None => Edit(tok.start, tok.end, None)
    case Some(emoji) =>
      Edit(tok.start, tok.end, Some(if twemoji then [LegacyImage(emoji, height)] else Chars(emoji.emoji)))
  }

  /** One edit per match, in document order. */
  function AliasEdits(doc: Doc, db: EmojiDb, twemoji: bool, height: int, ms: seq<Token>): (edits: seq<Edit>)
    requires AliasesPresent(db)
    requires forall k :: 0 <= k < |ms| ==> IsAliasToken(PlainView(doc), ms[k])
    ensures |edits| == |ms|
    ensures forall k :: 0 <= k < |ms| ==> edits[k] == AliasEdit(doc, db, twemoji, height, ms[k])
  {
    if ms == [] then []
    else [AliasEdit(doc, db, twemoji, height, ms[0])] + AliasEdits(doc, db, twemoji, height, ms[1..])
  }

  /** The edits of the matches from `i` on lie, in order and disjoint, in `[i, |doc|)`. */
  lemma AliasEditsAscending(doc: Doc, db: EmojiDb, twemoji: bool, height: int, i: nat)
    requires AliasesPresent(db) && i <= |doc|
    ensures Ascending(AliasEdits(doc, db, twemoji, height, AliasMatches(PlainView(doc), i)), i, |doc|)
  {
    var edits := AliasEdits(doc, db, twemoji, height, AliasMatches(PlainView(doc), i));
    assert Sorted(edits, i, |doc|);
    SortedIsAscending(edits, i, |doc|);
  }

  /** `_replace_alias`: the matches are collected first, then replaced from the last to
      the first through a cursor, so that earlier offsets stay valid. Images get the font
      height of the cursor at the start of the document. */
  function ReplaceAlias(doc: Doc, env: LegacyEnv, twemoji: bool): (r: Doc)
    requires AliasesPresent(env.db)
    ensures var edits := AliasEdits(doc, env.db, twemoji, FontHeight(env.metrics), AliasMatches(PlainView(doc), 0));
            Ascending(edits, 0, |doc|) && r == Forward(doc, edits, 0, |doc|)
  {
    var edits := AliasEdits(doc, env.db, twemoji, FontHeight(env.metrics), AliasMatches(PlainView(doc), 0));
    AliasEditsAscending(doc, env.db, twemoji, FontHeight(env.metrics), 0);
    ApplyWhole(doc, edits);
    ApplyEach(doc, Reverse(edits))
  }

  /** A single left-to-right reading of the replacement: the plain text is scanned from
      `i`; a `:word:` token whose alias is known becomes the emoji's characters, or its
      image with twemoji on, and the scan resumes after the token; anything else is kept
      and the scan moves one cell on. */
  function Substituted(doc: Doc, db: EmojiDb, twemoji: bool, height: int, i: nat): Doc
    requires AliasesPresent(db) && i <= |doc|
    decreases |doc| - i
  {
    if i == |doc| then []
    else match TokenAt(PlainView(doc), i)
      case None => [doc[i]] + Substituted(doc, db, twemoji, height, i + 1)
      case Some(tok) =>
        match LookupAlias(db, TokenAlias(PlainView(doc), tok))
        case None => doc[i..tok.end] + Substituted(doc, db, twemoji, height, tok.end)
        case Some(emoji) =>
          (if twemoji then [LegacyImage(emoji, height)] else Chars(emoji.emoji))
          + Substituted(doc, db, twemoji, height, tok.end)
  }

  lemma AliasEditsCons(doc: Doc, db: EmojiDb, twemoji: bool, height: int, tok: Token, ms: seq<Token>)
    requires AliasesPresent(db)
    requires IsAliasToken(PlainView(doc), tok)
    requires forall k :: 0 <= k < |ms| ==> IsAliasToken(PlainView(doc), ms[k])
    ensures AliasEdits(doc, db, twemoji, height, [tok] + ms)
         == [AliasEdit(doc, db, twemoji, height, tok)] + AliasEdits(doc, db, twemoji, height, ms)
  {
    assert ([tok] + ms)[0] == tok && ([tok] + ms)[1..] == ms;
  }

  /** Where no token starts, the cell is kept and both readings move one cell on. */
  lemma SubstitutedSkip(doc: Doc, db: EmojiDb, twemoji: bool, height: int, i: nat)
    requires AliasesPresent(db) && i < |doc| && TokenAt(PlainView(doc), i).None?
    ensures AliasMatches(PlainView(doc), i) == AliasMatches(PlainView(doc), i + 1)
    ensures Substituted(doc, db, twemoji, height, i) == [doc[i]] + Substituted(doc, db, twemoji, height, i + 1)
  {
  }

  /** Where a token starts, it is replaced as its edit says and both readings resume
      after it. */
  lemma SubstitutedToken(doc: Doc, db: EmojiDb, twemoji: bool, height: int, i: nat, tok: Token)
    requires AliasesPresent(db) && i < |doc| && TokenAt(PlainView(doc), i) == Some(tok)
    ensures AliasMatches(PlainView(doc), i) == [tok] + AliasMatches(PlainView(doc), tok.end)
    ensures Substituted(doc, db, twemoji, height, i)
         == Replacement(doc, AliasEdit(doc, db, twemoji, height, tok)) + Substituted(doc, db, twemoji, height, tok.end)
  {
  }

  /** The edits of the matches from `i` on, read head to tail from `i`. */
  function ForwardFrom(doc: Doc, db: EmojiDb, twemoji: bool, height: int, i: nat): Doc
    requires AliasesPresent(db) && i <= |doc|
  {
    AliasEditsAscending(doc, db, twemoji, height, i);
    Forward(doc, AliasEdits(doc, db, twemoji, height, AliasMatches(PlainView(doc), i)), i, |doc|)
  }

  lemma ForwardFromSkip(doc: Doc, db: EmojiDb, twemoji: bool, height: int, i: nat)
    requires AliasesPresent(db) && i < |doc| && TokenAt(PlainView(doc), i).None?
    requires ForwardFrom(doc, db, twemoji, height, i + 1) == Substituted(doc, db, twemoji, height, i + 1)
    ensures ForwardFrom(doc, db, twemoji, height, i) == Substituted(doc, db, twemoji, height, i)
  {
    var edits := AliasEdits(doc, db, twemoji, height, AliasMatches(PlainView(doc), i));
    SubstitutedSkip(doc, db, twemoji, height, i);
    ForwardFromUnfold(doc, db, twemoji, height, i + 1);
    ForwardFromUnfold(doc, db, twemoji, height, i);
    ForwardWiden(doc, edits, i, i + 1, |doc|);
    assert doc[i..i + 1] == [doc[i]];
  }

  lemma ForwardFromUnfold(doc: Doc, db: EmojiDb, twemoji: bool, height: int, i: nat)
    requires AliasesPresent(db) && i <= |doc|
    ensures Ascending(AliasEdits(doc, db, twemoji, height, AliasMatches(PlainView(doc), i)), i, |doc|)
    ensures ForwardFrom(doc, db, twemoji, height, i)
         == Forward(doc, AliasEdits(doc, db, twemoji, height, AliasMatches(PlainView(doc), i)), i, |doc|)
  {
    AliasEditsAscending(doc, db, twemoji, height, i);
  }

  /** A list whose first span starts at the lower bound reads as that span's cells, then
      the rest. */
  lemma ForwardAtStart(doc: Doc, edits: seq<Edit>, lo: nat, hi: nat)
    requires Ascending(edits, lo, hi) && hi <= |doc|
    requires edits != [] && edits[0].start == lo
    ensures Forward(doc, edits, lo, hi) == Replacement(doc, edits[0]) + Forward(doc, edits[1..], edits[0].end, hi)
  {
    assert doc[lo..edits[0].start] == [];
  }

  lemma ForwardFromToken(doc: Doc, db: EmojiDb, twemoji: bool, height: int, i: nat, tok: Token)
    requires AliasesPresent(db) && i < |doc| && TokenAt(PlainView(doc), i) == Some(tok)
    requires ForwardFrom(doc, db, twemoji, height, tok.end) == Substituted(doc, db, twemoji, height, tok.end)
    ensures ForwardFrom(doc, db, twemoji, height, i) == Substituted(doc, db, twemoji, height, i)
  {
    var t := PlainView(doc);
    var edits := AliasEdits(doc, db, twemoji, height, AliasMatches(t, i));
    SubstitutedToken(doc, db, twemoji, height, i, tok);
    AliasEditsAscending(doc, db, twemoji, height, i);
    AliasEditsAscending(doc, db, twemoji, height, tok.end);
    var rest := AliasEdits(doc, db, twemoji, height, AliasMatches(t, tok.end));
    AliasEditsCons(doc, db, twemoji, height, tok, AliasMatches(t, tok.end));
    assert edits[1..] == rest;
    ForwardAtStart(doc, edits, i, |doc|);
  }

  lemma {:induction false} ForwardIsSubstituted(doc: Doc, db: EmojiDb, twemoji: bool, height: int, i: nat)
    requires AliasesPresent(db) && i <= |doc|
    ensures ForwardFrom(doc, db, twemoji, height, i) == Substituted(doc, db, twemoji, height, i)
    decreases |doc| - i
  {
    if i < |doc| {
      match TokenAt(PlainView(doc), i)
      case None =>
        ForwardIsSubstituted(doc, db, twemoji, height, i + 1);
        ForwardFromSkip(doc, db, twemoji, height, i);
      case Some(tok) =>
        ForwardIsSubstituted(doc, db, twemoji, height, tok.end);
        ForwardFromToken(doc, db, twemoji, height, i, tok);
    }
  }

  /** The cursor loop, from the last match to the first, gives the left-to-right reading
      of the whole document. */
  lemma ReplaceAliasIsSubstitution(doc: Doc, env: LegacyEnv, twemoji: bool)
    requires AliasesPresent(env.db)
    ensures ReplaceAlias(doc, env, twemoji) == Substituted(doc, env.db, twemoji, FontHeight(env.metrics), 0)
  {
    var h := FontHeight(env.metrics);
    var edits := AliasEdits(doc, env.db, twemoji, h, AliasMatches(PlainView(doc), 0));
    AliasEditsAscending(doc, env.db, twemoji, h, 0);
    ForwardIsSubstituted(doc, env.db, twemoji, h, 0);
    ApplyWhole(doc, edits);
  }

  /** No token of the text names a known alias. */
  ghost predicate NoKnownAlias(doc: Doc, db: EmojiDb) {
    forall tok :: IsAliasToken(PlainView(doc), tok) ==> LookupAlias(db, TokenAlias(PlainView(doc), tok)).None?
  }

  /** A text whose tokens are all unknown aliases is left alone. */
  lemma UnknownAliasesKept(doc: Doc, env: LegacyEnv, twemoji: bool)
    requires AliasesPresent(env.db)
    requires NoKnownAlias(doc, env.db)
    ensures ReplaceAlias(doc, env, twemoji) == doc
  {
    var h := FontHeight(env.metrics);
    var edits := AliasEdits(doc, env.db, twemoji, h, AliasMatches(PlainView(doc), 0));
    AliasEditsAscending(doc, env.db, twemoji, h, 0);
    ApplyWhole(doc, edits);
    ForwardAllKept(doc, edits, 0, |doc|);
    assert doc[0..|doc|] == doc;
  }
}
