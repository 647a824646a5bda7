/** Qt's fragment view of emoji images, as the current document reads it.

    Qt keeps one index per distinct character format, and a block's iterator joins
    neighbouring pieces that share an index into one fragment. Two equal image formats side
    by side are therefore one fragment two characters long. The document's fragment
    readers (`toPlainText`, `_localize_emoji_images`, and through it `_detwemojize` and
    `updateEmojiImages`) take one emoji per fragment, so a run of equal emoji images is
    read as one emoji. This module models those readers as written, shows the collapse on
    two equal images, and shows that they agree with the per-cell reading of
    `TwemojiDocument` whenever no emoji image is followed by an equal one. */
module Fragments {
  import opened Util
  import opened Emoji
  import opened Document
  import opened Splice
  import opened ImageName
  import opened TwemojiDocument

  /** The end of the run of cells equal to `doc[p]` that starts at `p`. */
  function RunEnd(doc: Doc, p: nat): (e: nat)
    requires p < |doc|
    ensures p < e <= |doc|
    ensures forall q :: p <= q < e ==> doc[q] == doc[p]
    ensures e == |doc| || doc[e] != doc[p]
    decreases |doc| - p
  {
    if p + 1 < |doc| && doc[p + 1] == doc[p] then RunEnd(doc, p + 1) else p + 1
  }

  /** `_localize_emoji_images` from position `i` on, in document order: one edit per emoji
      fragment, spanning the whole run of equal images and carrying what `rule` makes of
      the image. Each fragment starts where the previous cell differs from it. */
  function RunEdits(doc: Doc, rule: Cell -> Option<Doc>, i: nat): (edits: seq<Edit>)
    requires i <= |doc|
    ensures Ascending(edits, i, |doc|)
    ensures forall k :: 0 <= k < |edits| ==>
              && edits[k].start < |doc|
              && IsEmojiCell(doc[edits[k].start])
              && edits[k].end == RunEnd(doc, edits[k].start)
              && edits[k].repl == rule(doc[edits[k].start])
              && i <= edits[k].start
              && (i < edits[k].start ==> doc[edits[k].start - 1] != doc[edits[k].start])
    decreases |doc| - i
  {
    if i == |doc| then []
    else if IsEmojiCell(doc[i]) then
      var e := RunEnd(doc, i);
      var rest := RunEdits(doc, rule, e);
      assert rest == [] || (i < rest[0].start && doc[rest[0].start - 1] != doc[rest[0].start]) by {
        if rest != [] && rest[0].start == e {
          assert doc[e - 1] == doc[i];
        }
      }
      [Edit(i, e, rule(doc[i]))] + rest
    else
      RunEdits(doc, rule, i + 1)
  }

  /** Every emoji image lies inside exactly the fragment that covers it. */
  lemma {:induction false} RunEditsCover(doc: Doc, rule: Cell -> Option<Doc>, i: nat, q: nat)
    requires i <= q < |doc| && IsEmojiCell(doc[q])
    ensures exists k :: 0 <= k < |RunEdits(doc, rule, i)|
                        && RunEdits(doc, rule, i)[k].start <= q < RunEdits(doc, rule, i)[k].end
    decreases |doc| - i
  {
    var edits := RunEdits(doc, rule, i);
    if IsEmojiCell(doc[i]) {
      var e := RunEnd(doc, i);
      var rest := RunEdits(doc, rule, e);
      assert edits == [Edit(i, e, rule(doc[i]))] + rest;
      if q < e {
        assert edits[0].start <= q < edits[0].end;
      } else {
        RunEditsCover(doc, rule, e, q);
        var k :| 0 <= k < |rest| && rest[k].start <= q < rest[k].end;
        assert edits[k + 1] == rest[k];
      }
    } else {
      RunEditsCover(doc, rule, i + 1, q);
    }
  }

  /** The loop of `_detwemojize` or `updateEmojiImages` over `_localize_emoji_images`, as
      written: the emoji fragments from the last to the first, each overwritten as a whole
      by what `rule` makes of its image, or left when `rule` gives nothing. It is the
      left-to-right reading of the fragments' edits. */
  function FragmentPass(doc: Doc, rule: Cell -> Option<Doc>): (r: Doc)
    ensures Descending(Reverse(RunEdits(doc, rule, 0)), |doc|)
    ensures r == Forward(doc, RunEdits(doc, rule, 0), 0, |doc|)
  {
    ApplyWhole(doc, RunEdits(doc, rule, 0));
    ApplyEach(doc, Reverse(RunEdits(doc, rule, 0)))
  }

  /** `_detwemojize` over Qt's fragments: a run of equal known emoji images becomes one
      copy of its emoji's text. */
  function DetwemojizeAsWritten(s: State, db: EmojiDb): (r: State)
    ensures r.config == s.config && r.lastChangePos == s.lastChangePos
    ensures r.doc == Forward(s.doc, RunEdits(s.doc, DetwemojizeRule(db), 0), 0, |s.doc|)
  {
    s.(doc := FragmentPass(s.doc, DetwemojizeRule(db)))
  }

  /** `updateEmojiImages` over Qt's fragments, for a pass that completes: a run of equal
      known emoji images becomes one image at the current size and margin. */
  function UpdateEmojiImagesAsWritten(s: State, env: Env): (r: State)
    ensures r.config == s.config && r.lastChangePos == s.lastChangePos
    ensures r.doc == Forward(s.doc, RunEdits(s.doc, UpdateRule(env.db, CalculateEmojiSize(s.config, env.fontHeight),
                                                                   s.config.emojiMargin), 0), 0, |s.doc|)
  {
    s.(doc := FragmentPass(s.doc, UpdateRule(env.db, CalculateEmojiSize(s.config, env.fontHeight), s.config.emojiMargin)))
  }

  /** The text of a block's fragments from `i` on, as `toPlainText` reads them: an emoji
      fragment adds its record's text once, however many images it spans; any other cell
      adds its own text. */
  function FragmentsText(db: EmojiDb, cells: Doc, i: nat): string
    requires i <= |cells|
    decreases |cells| - i
  {
    if i == |cells| then ""
    else if IsEmojiCell(cells[i]) then CellText(db, cells[i]) + FragmentsText(db, cells, RunEnd(cells, i))
    else CellText(db, cells[i]) + FragmentsText(db, cells, i + 1)
  }

  function JoinFragments(db: EmojiDb, bs: seq<Doc>): string
    requires |bs| >= 1
  {
    if |bs| == 1 then FragmentsText(db, bs[0], 0)
    else FragmentsText(db, bs[0], 0) + "\n" + JoinFragments(db, bs[1..])
  }

  /** `toPlainText` over Qt's fragments, block by block. */
  function ToPlainTextAsWritten(doc: Doc, db: EmojiDb): (r: string)
    ensures BreakFree(doc) ==> r == FragmentsText(db, doc, 0)
  {
    if BreakFree(doc) then BlocksOfBreakFree(doc); JoinFragments(db, Blocks(doc))
    else JoinFragments(db, Blocks(doc))
  }

  // ---------------------------------------------------------------------------------
  // The collapse

  /** Two equal emoji images that `rule` rewrites: the fragment pass rewrites them once, as
      one fragment, where the per-cell rewrite rewrites each. */
  lemma PairPass(c: Cell, rule: Cell -> Option<Doc>)
    requires IsEmojiCell(c) && rule(c).Some?
    ensures FragmentPass([c, c], rule) == rule(c).value
    ensures RewriteCells([c, c], IsEmojiCell, rule) == rule(c).value + rule(c).value
  {
    var doc := [c, c];
    assert RunEnd(doc, 1) == 2;
    assert RunEnd(doc, 0) == 2;
    assert RunEdits(doc, rule, 2) == [];
    var edit := Edit(0, 2, rule(c));
    assert RunEdits(doc, rule, 0) == [edit] + [];
    ForwardHead(doc, edit, [], 0, 2);
    assert doc[2..2] == [];
    assert doc[1..][1..] == [];
    assert RewriteCells(doc[1..], IsEmojiCell, rule) == rule(c).value + RewriteCells(doc[1..][1..], IsEmojiCell, rule);
  }

  /** Two equal images of a known emoji, as twemojizing its text twice gives them: the
      fragment readers see one emoji where there are two. Going back to text loses a copy,
      and so does the plain-text export; the per-cell reading keeps both. */
  lemma RepeatedEmojiCollapses(s: State, db: EmojiDb, e: Emoji, size: int, margin: int)
    requires |e.aliases| > 0 && DelimiterFree(e.aliases[0]) && LookupAlias(db, e.aliases[0]) == Some(e)
    requires e.emoji != []
    requires s.doc == [EmojiImage(e, size, margin), EmojiImage(e, size, margin)]
    ensures DetwemojizeAsWritten(s, db).doc == Chars(e.emoji)
    ensures Detwemojize(s, db).doc == Chars(e.emoji) + Chars(e.emoji)
    ensures DetwemojizeAsWritten(s, db) != Detwemojize(s, db)
    ensures ToPlainTextAsWritten(s.doc, db) == e.emoji
    ensures ToPlainText(s.doc, db) == e.emoji + e.emoji
    ensures ToPlainTextAsWritten(s.doc, db) != ToPlainText(s.doc, db)
  {
    var img := EmojiImage(e, size, margin);
    ImageRoundTrip(db, e, size, margin);
    assert IsEmojiCell(img) && DetwemojizeRule(db)(img) == Some(Chars(e.emoji));
    assert CellText(db, img) == e.emoji;
    var doc := s.doc;
    PairPass(img, DetwemojizeRule(db));
    assert RunEnd(doc, 0) == 2;
    assert !doc[0].Break? && !doc[1].Break?;
    BlocksOfBreakFree(doc);
    assert FragmentsText(db, doc, 0) == e.emoji;
    assert CellsText(db, doc) == e.emoji + e.emoji by {
      CellsTextHead(db, doc);
      CellsTextSingle(db, img);
      assert doc[1..] == [img];
    }
    assert |Chars(e.emoji)| < |Chars(e.emoji) + Chars(e.emoji)|;
  }

  /** The same two images under `updateEmojiImages`: the program puts one image at the new
      size and margin where the per-cell reading puts two. */
  lemma RepeatedEmojiUpdateCollapses(s: State, env: Env, e: Emoji, size: int, margin: int)
    requires |e.aliases| > 0 && DelimiterFree(e.aliases[0]) && LookupAlias(env.db, e.aliases[0]) == Some(e)
    requires s.doc == [EmojiImage(e, size, margin), EmojiImage(e, size, margin)]
    ensures var img := EmojiImage(e, CalculateEmojiSize(s.config, env.fontHeight), s.config.emojiMargin);
            && UpdateEmojiImagesAsWritten(s, env).doc == [img]
            && UpdateEmojiImages(s, env).doc == [img, img]
  {
    var img := EmojiImage(e, size, margin);
    ImageRoundTrip(env.db, e, size, margin);
    var rule := UpdateRule(env.db, CalculateEmojiSize(s.config, env.fontHeight), s.config.emojiMargin);
    assert IsEmojiCell(img) && rule(img).Some?;
    PairPass(img, rule);
  }

  // ---------------------------------------------------------------------------------
  // Agreement with the per-cell reading

  /** No emoji image is followed by an equal one, so every emoji fragment is one cell. */
  predicate NoRepeatedEmoji(doc: Doc) {
    forall i :: 0 <= i < |doc| - 1 && IsEmojiCell(doc[i]) ==> doc[i + 1] != doc[i]
  }

  /** Without repeated emoji images, each emoji fragment is a single cell, and the fragment
      edits are the per-cell edits. */
  lemma {:induction false} RunsAreCells(doc: Doc, rule: Cell -> Option<Doc>, i: nat)
    requires i <= |doc| && NoRepeatedEmoji(doc)
    ensures RunEdits(doc, rule, i) == CellEdits(doc, IsEmojiCell, rule, i)
    decreases |doc| - i
  {
    if i < |doc| {
      RunsAreCells(doc, rule, i + 1);
      if IsEmojiCell(doc[i]) {
        assert i + 1 < |doc| ==> doc[i + 1] != doc[i];
        assert RunEnd(doc, i) == i + 1;
      }
    }
  }

  /** Without repeated emoji images, the fragment pass is the per-cell rewrite. */
  lemma FragmentPassPerCell(doc: Doc, rule: Cell -> Option<Doc>)
    requires NoRepeatedEmoji(doc)
    ensures FragmentPass(doc, rule) == RewriteCells(doc, IsEmojiCell, rule)
  {
    RunsAreCells(doc, rule, 0);
    CellPass(doc, IsEmojiCell, rule);
  }

  /** `_detwemojize` as written is `Detwemojize` exactly when no run collapses; with a run of
      two equal known images it is not (`RepeatedEmojiCollapses`). */
  lemma DetwemojizeAsWrittenAgrees(s: State, db: EmojiDb)
    requires NoRepeatedEmoji(s.doc)
    ensures DetwemojizeAsWritten(s, db) == Detwemojize(s, db)
  {
    FragmentPassPerCell(s.doc, DetwemojizeRule(db));
  }

  lemma UpdateAsWrittenAgrees(s: State, env: Env)
    requires NoRepeatedEmoji(s.doc)
    ensures UpdateEmojiImagesAsWritten(s, env) == UpdateEmojiImages(s, env)
  {
    FragmentPassPerCell(s.doc, UpdateRule(env.db, CalculateEmojiSize(s.config, env.fontHeight), s.config.emojiMargin));
  }

  /** Without repeated emoji images, a block's fragment text is its cell-by-cell text. */
  lemma {:induction false} FragmentsTextPerCell(db: EmojiDb, cells: Doc, i: nat)
    requires i <= |cells| && NoRepeatedEmoji(cells)
    ensures FragmentsText(db, cells, i) == CellsText(db, cells[i..])
    decreases |cells| - i
  {
    if i < |cells| {
      FragmentsTextPerCell(db, cells, i + 1);
      if IsEmojiCell(cells[i]) {
        assert i + 1 < |cells| ==> cells[i + 1] != cells[i];
        assert RunEnd(cells, i) == i + 1;
      }
      assert cells[i..][1..] == cells[i + 1..];
      CellsTextHead(db, cells[i..]);
    }
  }

  lemma {:induction false} JoinFragmentsPerCell(db: EmojiDb, bs: seq<Doc>)
    requires |bs| >= 1
    requires forall k :: 0 <= k < |bs| ==> NoRepeatedEmoji(bs[k])
    ensures JoinFragments(db, bs) == JoinBlocks(db, bs)
    decreases |bs|
  {
    FragmentsTextPerCell(db, bs[0], 0);
    assert bs[0][0..] == bs[0];
    if |bs| > 1 {
      JoinFragmentsPerCell(db, bs[1..]);
    }
  }

  /** `toPlainText` as written is the per-cell export when no block repeats an emoji image. */
  lemma PlainTextAsWrittenAgrees(doc: Doc, db: EmojiDb)
    requires forall k :: 0 <= k < |Blocks(doc)| ==> NoRepeatedEmoji(Blocks(doc)[k])
    ensures ToPlainTextAsWritten(doc, db) == ToPlainText(doc, db)
  {
    JoinFragmentsPerCell(db, Blocks(doc));
  }
}
