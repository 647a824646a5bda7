# ExtraQWidgets: emoji document engine and widget rules, in Dafny

This project models the core of ExtraQWidgets, a PySide6 widget library, and proves
properties of the model.

The centre of the model is `QTwemojiTextDocument`, a rich-text document that shows emoji
as `twemoji://<alias>` inline images. Both revisions are covered:

- the current one, under `qextrawidgets`;
- the older one, under `extra_qwidgets`.

The document is the toolkit's own buffer, a sequence of cells:

- a text character, an image, or a block (paragraph) break;
- every offset the engine computes indexes that sequence;
- the sequence-of-blocks view is derived from it (`Document.Blocks`).

Each rewriting pass selects spans found in one snapshot and overwrites them last-first, so
earlier offsets stay valid. `Splice.ApplyEach` is that loop, and `Splice.Forward` is an
independent head-to-tail description of its result. Both revisions' passes are stated in
those terms:

- incremental and full twemojization;
- detwemojization;
- image updates;
- alias replacement;
- the grapheme walk.

Everything the engine asks of other libraries is a parameter:

- the emoji database (two finite maps);
- the emoji matcher (`EmojiFinder`);
- the grapheme segmenter (`QTextBoundaryFinder`);
- the emoji validator (`EmojiParams`);
- font metrics;
- the image reader.

Besides the document, the project models:

- the image naming both revisions use (`ImageName`);
- skin-tone stripping (`Emoji`);
- the picker's pixmap cache (`ImageProvider`);
- `scale_inside` geometry (`ScaleInside`);
- the accordion header and item (`AccordionItem`);
- both accordions (`Accordion`, `LegacyAccordion`);
- the colour button (`ColorButton`);
- the growing text edit (`ExtraTextEdit`).

Floating-point quantities are rational numbers (`Util.Ratio`):

- the 0.9 emoji scale;
- the device pixel ratio;
- the document height;
- the luminance coefficients, scaled by 1000.

Python's `int()` is truncation toward zero (`Util.TruncDiv`). Qt's `QSize * qreal` rounds
half away from zero (`Util.RoundDiv`).

In the current revision, turning alias replacement on raises after the flag is set: the
method it connects is name-mangled, so the lookup by the plain name fails. The model keeps
that behaviour, and `TwemojiSettings.SetAliasReplacement` returns a `Raised` outcome.
Alias replacement itself is modelled from the older revision's `_replace_alias`, which
works (`LegacyTwemojiDocument.ReplaceAlias`).

## Model

| member | source | states |
|---|---|---|
| Document.PlainView | source/qextrawidgets/documents/twemoji_text_document.py:220 | the toolkit's plain text has one position per cell; images show as U+FFFC and breaks as '\n' |
| Document.Blocks | source/qextrawidgets/documents/twemoji_text_document.py:334-338 | a document always has at least one block |
| Document.BlockCountIsBreaksPlusOne | source/qextrawidgets/documents/twemoji_text_document.py:291 | the block count is the number of breaks plus one |
| Document.BlocksAroundBreak | source/qextrawidgets/documents/twemoji_text_document.py:334-338 | a break splits the document into the blocks before it and the blocks after it |
| Document.FindBlock | source/qextrawidgets/documents/twemoji_text_document.py:168-170 | `findBlock` gives a valid block exactly for positions 0..length; the block is break-free, bounded by breaks or the ends, and contains the position |
| Document.BlockRangeUnique | source/qextrawidgets/documents/twemoji_text_document.py:168-173 | any break-delimited range containing a position is the block `findBlock` returns |
| Document.ReplaceInsideBlock | source/qextrawidgets/documents/twemoji_text_document.py:193-210 | replacing a block's cells with break-free cells changes that block in the block list and no other |
| Splice.Apply1 | source/qextrawidgets/documents/twemoji_text_document.py:196-210 | one cursor replacement keeps everything before the span and after it |
| Splice.ApplyDescending | source/qextrawidgets/documents/twemoji_text_document.py:187-210 | the last-first loop over ascending spans equals the prefix, then each gap and replacement left to right, then the suffix |
| Splice.ApplyWhole | source/qextrawidgets/documents/twemoji_text_document.py:220-230 | over a whole document, the last-first loop equals the left-to-right reading |
| Splice.ApplyEach | source/qextrawidgets/documents/twemoji_text_document.py:187-210 | the last-first loop over spans listed from the end leaves the document as it was when no edit replaces its span |
| Splice.ForwardAllKept | source/qextrawidgets/documents/twemoji_text_document.py:205-210 | a pass in which no span is replaced leaves the document unchanged |
| Splice.SpliceInsideBlock | source/qextrawidgets/documents/twemoji_text_document.py:187-212 | break-free replacements inside one block change that block only |
| Splice.RewriteCellsAppend | source/qextrawidgets/documents/twemoji_text_document.py:357-364 | the per-cell rewrite distributes over concatenation |
| Splice.ForwardUndone | source/qextrawidgets/documents/twemoji_text_document.py:357-364 | when every replacement's images rewrite back to the original span, rewriting the pass's result gives the original text back |
| Splice.CellPass | source/qextrawidgets/documents/twemoji_text_document.py:357-364 | visiting the picked cells last-first and replacing each by its rule's result equals the per-cell rewrite of the whole document |
| Splice.SortedIsAscending | source/qextrawidgets/documents/twemoji_text_document.py:176-188 | sorted, disjoint matches within bounds can be read left to right |
| Splice.ForwardAllCells | source/extra_qwidgets/documents/twemoji_text_document.py:100-114 | when the untouched cells and every replacement satisfy a cell property, the result does too |
| Splice.ApplyUntil | source/qextrawidgets/documents/twemoji_text_document.py:187-210 | the last-first loop over ascending spans, where an edit may raise before its insertion, completes exactly when no edit raises, with the left-to-right reading as its result; otherwise it stops at the last raising edit, which stays as it was, with every later edit applied |
| Emoji.StripSkinTones | source/qextrawidgets/documents/twemoji_text_document.py:383-386 | the result is no longer than the input and holds no modifier U+1F3FB..U+1F3FF |
| Emoji.EmojiColors | source/qextrawidgets/documents/twemoji_text_document.py:372-381 | the set is exactly the skin-tone modifiers present in the string |
| Emoji.RemoveEmojiColor | source/qextrawidgets/documents/twemoji_text_document.py:383-386 | removing each found modifier in turn leaves no modifier, and equals stripping them all in one pass |
| Emoji.RemoveColorsIsStrip | source/qextrawidgets/documents/twemoji_text_document.py:383-386 | removing any superset of the present modifiers, as long as it holds only modifiers, is the same as stripping |
| Emoji.StripKeepsOthers | source/qextrawidgets/documents/twemoji_text_document.py:383-386 | every non-modifier character occurs as often after stripping as before |
| Emoji.StripAppend | source/qextrawidgets/documents/twemoji_text_document.py:383-386 | stripping works piecewise and keeps order: strip(a+b) = strip(a)+strip(b) |
| Emoji.StripToneFree | source/qextrawidgets/documents/twemoji_text_document.py:383-386 | a modifier-free string is left unchanged |
| Emoji.StripIdempotent | source/qextrawidgets/documents/twemoji_text_document.py:383-386 | stripping twice is stripping once |
| Emoji.ToneIgnoredByLookup | source/qextrawidgets/documents/twemoji_text_document.py:202-203 | a toned emoji is looked up as its untoned base |
| ImageName.EmojiToTextImage | source/qextrawidgets/documents/twemoji_text_document.py:388-401 | with an alias, the name has the `twemoji://` scheme, and a query exactly when the margin is positive; alignment is middle; width = height = size + 2 x margin; without an alias, the format is empty |
| ImageName.Netloc | source/qextrawidgets/documents/twemoji_text_document.py:405 | the authority `urlparse` reads never holds '/', '?' or '#' |
| ImageName.NetlocOfImageName | source/qextrawidgets/documents/twemoji_text_document.py:392-406 | the authority of `twemoji://<alias>[?m=<margin>]` is the alias |
| ImageName.TextImageToEmoji | source/qextrawidgets/documents/twemoji_text_document.py:404-406 | a record is found exactly when the name's authority is an alias of the database, and it is that alias's record; the path, query and fragment are not read |
| ImageName.ImageRoundTrip | source/qextrawidgets/documents/twemoji_text_document.py:388-406 | decoding an encoded image finds the record of its canonical alias |
| ImageName.EncodeUrl | source/qextrawidgets/documents/twemoji_text_document.py:147-152 | the resource key is `twemoji://<alias>?margin=<margin>&size=<size>` followed by `&dpr=1.0`, and its authority reads back as the alias |
| ImageName.ResourceKeyIsNotImageName | source/qextrawidgets/documents/twemoji_text_document.py:147-152 | the resource key never equals the image name it is registered for |
| ImageName.LegacyEmojiToTextImage | source/extra_qwidgets/documents/twemoji_text_document.py:138-144 | the older name has the `twemoji://` scheme, middle alignment, the given height and no width |
| ImageName.LegacyTextImageToEmoji | source/extra_qwidgets/documents/twemoji_text_document.py:146-149 | the first ten characters are dropped unchecked and the rest is looked up as the alias; a name shorter than ten characters looks up the empty alias |
| ImageName.LegacyImageRoundTrip | source/extra_qwidgets/documents/twemoji_text_document.py:138-149 | dropping the ten scheme characters gives back exactly `aliases[0]` |
| TwemojiDocument.CalculateEmojiSize | source/qextrawidgets/documents/twemoji_text_document.py:154-160 | an explicit size is used as is; -1 gives 0.9 x font height truncated toward zero |
| TwemojiDocument.MatchEdit | source/qextrawidgets/documents/twemoji_text_document.py:189-210 | a match at block-relative [s, e) acts on [blockPos+s, blockPos+e); it becomes one image exactly when the tone-stripped code is known |
| TwemojiDocument.BlockEdits | source/qextrawidgets/documents/twemoji_text_document.py:176-210 | one edit per match, in order; they are sorted within the block and bring in no break |
| TwemojiDocument.Twemojize | source/qextrawidgets/documents/twemoji_text_document.py:162-212 | the configuration is untouched, and nothing changes when the change position has no valid block |
| TwemojiDocument.TwemojizeResult | source/qextrawidgets/documents/twemoji_text_document.py:168-212 | the document is the text before the block, the block rewritten left to right, then the text after it |
| TwemojiDocument.TwemojizeEditsShape | source/qextrawidgets/documents/twemoji_text_document.py:189-210 | the i-th match is shifted by the block position; it becomes the image of the found record at the configured size and margin, or stays text |
| TwemojiDocument.TwemojizeTouchesOneBlock | source/qextrawidgets/documents/twemoji_text_document.py:162-212 | the block count is kept and every block other than the edited one is unchanged |
| TwemojiDocument.TwemojizeUnknownOnly | source/qextrawidgets/documents/twemoji_text_document.py:178-210 | when no match names a known emoji, the state is unchanged |
| TwemojiDocument.TwemojizeChecked | source/qextrawidgets/documents/twemoji_text_document.py:114-212 | `_twemojize` completes exactly when no match of the edited block names a record without aliases, and then equals `Twemojize`; otherwise it raises at the last such match, which stays text, with every later match converted; the configuration and change position are kept either way |
| TwemojiDocument.FullEdits | source/qextrawidgets/documents/twemoji_text_document.py:220-230 | every paired match becomes the image of its record, sorted over the whole document |
| TwemojiDocument.TwemojizeFull | source/qextrawidgets/documents/twemoji_text_document.py:214-230 | the configuration and change position are kept, and a text in which the matcher finds no emoji is left as it was |
| TwemojiDocument.TwemojizeFullResult | source/qextrawidgets/documents/twemoji_text_document.py:214-230 | the full scan's result is the left-to-right reading of those edits |
| TwemojiDocument.TwemojizeFullChecked | source/qextrawidgets/documents/twemoji_text_document.py:114-230 | `_twemojize_full` completes exactly when every paired record has an alias, and then equals `TwemojizeFull`; otherwise it raises at the last record without one, whose match stays text, with every later match converted |
| TwemojiDocument.LocalizeEmojiImages | source/qextrawidgets/documents/twemoji_text_document.py:317-355 | exactly the `twemoji://` image positions are listed, in reverse document order, each one cell long with its format |
| TwemojiDocument.WalkLocated | source/qextrawidgets/documents/twemoji_text_document.py:232-250 | walking the located images last-first, rewriting each by a rule, completes exactly when no emoji image stops the walk, with the per-cell rewrite as its result; otherwise it stops at the last stopping image, which stays, with every later image rewritten |
| TwemojiDocument.DetwemojizeCell | source/qextrawidgets/documents/twemoji_text_document.py:360-364 | a known emoji image becomes break-free text that reads in `toPlainText` exactly as the image did; an unknown one is left, and reads as nothing |
| TwemojiDocument.Detwemojize | source/qextrawidgets/documents/twemoji_text_document.py:357-364 | only emoji images are rewritten: known ones become their text, unknown ones and foreign images stay |
| TwemojiDocument.DetwemojizeLocated | source/qextrawidgets/documents/twemoji_text_document.py:357-364 | the walk over the located images never raises and gives exactly the per-cell rewrite of `Detwemojize`, so the images it visits are the cells that rewrite changes |
| TwemojiDocument.RewriteLeavesUnknown | source/qextrawidgets/documents/twemoji_text_document.py:357-364 | after the rewrite, no emoji image with a known alias is left |
| TwemojiDocument.DetwemojizeLeavesOnlyUnknown | source/qextrawidgets/documents/twemoji_text_document.py:357-364 | after detwemojization, only emoji images the database does not know remain |
| TwemojiDocument.UpdateEmojiImages | source/qextrawidgets/documents/twemoji_text_document.py:232-252 | every emoji image with a known alias is re-rendered at the current size and margin; all other cells stay |
| TwemojiDocument.UpdateSetsSizes | source/qextrawidgets/documents/twemoji_text_document.py:241-250 | a known emoji image at position k becomes one image of size + 2 x margin, with the cells around it rewritten independently |
| TwemojiDocument.UpdateEmojiImagesChecked | source/qextrawidgets/documents/twemoji_text_document.py:114-250 | `updateEmojiImages` completes exactly when no emoji image's alias names a record without aliases, and then equals `UpdateEmojiImages`; otherwise it raises at the last such image, which stays, with every later image re-rendered |
| TwemojiDocument.ToPlainText | source/qextrawidgets/documents/twemoji_text_document.py:300-313 | a document without breaks is one block, read cell by cell: a known emoji image gives its record's text, an unknown one nothing, another image U+FFFC |
| TwemojiDocument.ToPlainTextByCells | source/qextrawidgets/documents/twemoji_text_document.py:300-313 | joining blocks with '\n', and not after the last, equals reading cell by cell: a break is '\n', a known emoji its text, an unknown emoji nothing, and any other image U+FFFC |
| TwemojiDocument.CellsTextAppend | source/qextrawidgets/documents/twemoji_text_document.py:300-313 | plain text distributes over concatenation |
| TwemojiDocument.CellsTextChars | source/qextrawidgets/documents/twemoji_text_document.py:308-310 | text cells read back as the string they hold |
| TwemojiDocument.DetwemojizeKeepsPlainText | source/qextrawidgets/documents/twemoji_text_document.py:357-364 | detwemojization leaves `toPlainText` unchanged |
| TwemojiDocument.UpdateKeepsPlainText | source/qextrawidgets/documents/twemoji_text_document.py:232-252 | re-rendering images leaves `toPlainText` unchanged when the alias maps are consistent |
| TwemojiDocument.FullRoundTrip | source/qextrawidgets/documents/twemoji_text_document.py:214-230 | on a document without emoji images whose matches are faithful, the full scan followed by detwemojization gives the document back |
| TwemojiDocument.FullKeepsPlainText | source/qextrawidgets/documents/twemoji_text_document.py:214-230 | the full scan leaves `toPlainText` unchanged when every match reads as its record |
| TwemojiDocument.IsFragmentSelected | source/qextrawidgets/documents/twemoji_text_document.py:408-416 | false without a selection; for a non-empty fragment, true exactly when the selection and the fragment share a position |
| Fragments.RunEnd | source/qextrawidgets/documents/twemoji_text_document.py:340-347 | the run that starts at a position is maximal: every cell in it equals the first, and the cell after it differs |
| Fragments.RunEdits | source/qextrawidgets/documents/twemoji_text_document.py:317-332 | `_localize_emoji_images` in document order: one edit per emoji fragment, each starting where the previous cell differs and spanning the whole run of equal images, in order and without overlap |
| Fragments.RunEditsCover | source/qextrawidgets/documents/twemoji_text_document.py:317-332 | every emoji image lies in one of the fragments |
| Fragments.FragmentPass | source/qextrawidgets/documents/twemoji_text_document.py:237-250 | rewriting the fragments last-first gives the left-to-right reading of one rewrite per fragment |
| Fragments.DetwemojizeAsWritten | source/qextrawidgets/documents/twemoji_text_document.py:357-364 | `_detwemojize` over Qt's fragments keeps the configuration and change position and writes one emoji text per fragment |
| Fragments.UpdateEmojiImagesAsWritten | source/qextrawidgets/documents/twemoji_text_document.py:232-252 | `updateEmojiImages` over Qt's fragments keeps the configuration and change position and puts one image per fragment |
| Fragments.ToPlainTextAsWritten | source/qextrawidgets/documents/twemoji_text_document.py:300-313 | a document without breaks is one block, read one fragment at a time, each run of equal emoji images giving its text once |
| Fragments.PairPass | source/qextrawidgets/documents/twemoji_text_document.py:317-364 | two equal emoji images are rewritten once by the fragment pass and twice by the per-cell rewrite |
| Fragments.RepeatedEmojiCollapses | source/qextrawidgets/documents/twemoji_text_document.py:300-364 | two equal images of a known emoji with a non-empty text detwemojize to one copy of the text, and export as one copy, where the per-cell reading gives two |
| Fragments.RepeatedEmojiUpdateCollapses | source/qextrawidgets/documents/twemoji_text_document.py:232-252 | the same two images are re-rendered as one image where the per-cell reading gives two |
| Fragments.RunsAreCells | source/qextrawidgets/documents/twemoji_text_document.py:317-322 | when no emoji image is followed by an equal one, the fragment edits are the per-cell edits |
| Fragments.FragmentPassPerCell | source/qextrawidgets/documents/twemoji_text_document.py:317-364 | then the fragment pass is the per-cell rewrite |
| Fragments.DetwemojizeAsWrittenAgrees | source/qextrawidgets/documents/twemoji_text_document.py:357-364 | then `_detwemojize` as written equals `TwemojiDocument.Detwemojize` |
| Fragments.UpdateAsWrittenAgrees | source/qextrawidgets/documents/twemoji_text_document.py:232-252 | then `updateEmojiImages` as written equals `TwemojiDocument.UpdateEmojiImages` |
| Fragments.FragmentsTextPerCell | source/qextrawidgets/documents/twemoji_text_document.py:303-310 | then a block's fragment text is its cell-by-cell text |
| Fragments.JoinFragmentsPerCell | source/qextrawidgets/documents/twemoji_text_document.py:300-313 | then joining the blocks' fragment texts is joining their cell texts |
| Fragments.PlainTextAsWrittenAgrees | source/qextrawidgets/documents/twemoji_text_document.py:300-313 | when no block repeats an emoji image, `toPlainText` as written equals `TwemojiDocument.ToPlainText` |
| TwemojiSettings.SetLineLimit | source/qextrawidgets/documents/twemoji_text_document.py:41-51 | the same value is a no-op; otherwise only the limit changes |
| TwemojiSettings.SetTwemoji | source/qextrawidgets/documents/twemoji_text_document.py:56-69 | the same value is a no-op; only the flag changes in the configuration; turning it off leaves no known emoji image |
| TwemojiSettings.TwemojiOnThenOff | source/qextrawidgets/documents/twemoji_text_document.py:56-69 | on then off restores a faithful emoji-free document exactly |
| TwemojiSettings.SetTwemojiKeepsPlainText | source/qextrawidgets/documents/twemoji_text_document.py:56-69 | switching twemoji either way keeps `toPlainText` |
| TwemojiSettings.SetAliasReplacement | source/qextrawidgets/documents/twemoji_text_document.py:74-85 | the same value is a no-op; switching on records the flag and raises; switching off clears it; the document is never changed |
| TwemojiSettings.Resize | source/qextrawidgets/documents/twemoji_text_document.py:90-107 | resizing changes nothing unless twemoji is on |
| TwemojiSettings.SetEmojiMargin | source/qextrawidgets/documents/twemoji_text_document.py:90-96 | the same value is a no-op; with twemoji off only the margin changes |
| TwemojiSettings.SetEmojiMarginResizes | source/qextrawidgets/documents/twemoji_text_document.py:90-96 | with twemoji on, a new margin re-renders each known emoji image with that margin |
| TwemojiSettings.SetEmojiSize | source/qextrawidgets/documents/twemoji_text_document.py:101-107 | the same value is a no-op; with twemoji off only the size changes |
| TwemojiSettings.SetDefaultFont | source/qextrawidgets/documents/twemoji_text_document.py:418-424 | with an explicit emoji size, a font change does nothing to the document |
| TwemojiSettings.ResizeKeepsPlainText | source/qextrawidgets/documents/twemoji_text_document.py:232-252 | resizing keeps `toPlainText` |
| TwemojiSettings.OnContentsChange | source/qextrawidgets/documents/twemoji_text_document.py:111-113 | only the change position is recorded |
| TwemojiSettings.TwemojizeKeepsBlockCount | source/qextrawidgets/documents/twemoji_text_document.py:162-212 | the incremental pass never changes the block count |
| TwemojiSettings.AfterEdit | source/qextrawidgets/documents/twemoji_text_document.py:287-298 | after an edit, with the corrected line limit (see Findings), the block count is min(count, limit) when the limit is positive, and unchanged otherwise |
| TwemojiSettings.AfterEditAsWritten | source/qextrawidgets/documents/twemoji_text_document.py:287-298 | after an edit, with `_limit_line` as written, the block count is at most the limit when it is positive, and without twemoji what remains is a prefix of the edited document |
| TwemojiSettings.AfterEditAsWrittenLosesLine | source/qextrawidgets/documents/twemoji_text_document.py:287-298 | typing "a", Enter, "b" under a one-line limit leaves nothing as written, and "a" with the corrected limit |
| TwemojiSettings.NewDocument | source/qextrawidgets/documents/twemoji_text_document.py:15-34 | the constructor raises exactly when alias replacement is requested; the state it leaves is empty, with the given margin, size -1 (follow the font) and no line limit |
| LineLimit.LastBlockStart | source/qextrawidgets/documents/twemoji_text_document.py:293-296 | the last block starts at 0 or right after a break, and runs break-free to the end |
| LineLimit.LimitLineAsWritten | source/qextrawidgets/documents/twemoji_text_document.py:287-298 | the loop as written: a no-op for a limit of 0 or less; otherwise it cuts a prefix with at most `limit` blocks |
| LineLimit.DropLastAsWrittenEatsOneMore | source/qextrawidgets/documents/twemoji_text_document.py:296-298 | each turn of the loop as written removes one cell more than the last block |
| LineLimit.LimitLineLosesKeptText | source/qextrawidgets/documents/twemoji_text_document.py:287-298 | "a\nb" limited to one line becomes "" as written and "a" when corrected |
| LineLimit.LimitLineOvershoots | source/qextrawidgets/documents/twemoji_text_document.py:287-298 | "a\n\nb" limited to two lines keeps one line as written and two when corrected |
| LineLimit.DropLast | source/qextrawidgets/documents/twemoji_text_document.py:296-298 | the corrected turn removes exactly the last block and its separator |
| LineLimit.LimitLine | source/qextrawidgets/documents/twemoji_text_document.py:287-298 | a no-op for a limit of 0 or less; otherwise exactly the first min(count, limit) blocks are kept, as a prefix |
| LineLimit.LimitLineIdempotent | source/qextrawidgets/documents/twemoji_text_document.py:287-298 | limiting twice is limiting once |
| LegacyTwemojiDocument.ClusterEdit | source/extra_qwidgets/documents/twemoji_text_document.py:101-114 | a cluster the validator accepts becomes one image of the accepted emoji at line spacing + leading; one accepted as a record without aliases is left removed, as the turn raises after the removal; a refused cluster is unchanged |
| LegacyTwemojiDocument.ClusterEdits | source/extra_qwidgets/documents/twemoji_text_document.py:96-114 | one edit per pair of neighbouring boundaries |
| LegacyTwemojiDocument.WalkStep | source/extra_qwidgets/documents/twemoji_text_document.py:100-114 | after each turn, the text before the current boundary is untouched and the rest is the left-to-right reading of the clusters done so far |
| LegacyTwemojiDocument.Twemojize | source/extra_qwidgets/documents/twemoji_text_document.py:90-114 | the backwards walk completes exactly when no cluster is accepted as a record without aliases, yielding the left-to-right reading of the cluster edits; otherwise it raises at the last such cluster, with that cluster removed and every later one converted |
| LegacyTwemojiDocument.ClusterEditsSorted | source/extra_qwidgets/documents/twemoji_text_document.py:96-104 | the clusters are sorted and cover the text |
| LegacyTwemojiDocument.Detwemojize | source/extra_qwidgets/documents/twemoji_text_document.py:116-136 | it completes exactly when every emoji image resolves, giving every emoji image's text; otherwise it raises at the last unresolvable image, with the images after it already rewritten |
| LegacyTwemojiDocument.LegacyRoundTrip | source/extra_qwidgets/documents/twemoji_text_document.py:90-136 | on an emoji-free document whose accepted clusters are faithful, twemojizing raises nowhere, and then detwemojizing completes and gives the document back |
| LegacyTwemojiDocument.LegacyImageUndone | source/extra_qwidgets/documents/twemoji_text_document.py:138-149 | an image of a record found by its canonical alias reads back as the record's text |
| LegacyTwemojiDocument.WordEnd | source/extra_qwidgets/documents/twemoji_text_document.py:57 | the longest run of `\w` characters from a position |
| LegacyTwemojiDocument.TokenAt | source/extra_qwidgets/documents/twemoji_text_document.py:57-64 | a `:\w+:` token starts at a position exactly when one is reported |
| LegacyTwemojiDocument.AliasMatches | source/extra_qwidgets/documents/twemoji_text_document.py:57-64 | the global match yields `:\w+:` tokens in order, without overlap |
| LegacyTwemojiDocument.AliasMatchesComplete | source/extra_qwidgets/documents/twemoji_text_document.py:57-64 | every token start is inside some reported match |
| LegacyTwemojiDocument.AliasEdit | source/extra_qwidgets/documents/twemoji_text_document.py:66-81 | the inner word is looked up; unknown leaves the text; known becomes the emoji text with twemoji off, or one image with it on |
| LegacyTwemojiDocument.AliasEditsAscending | source/extra_qwidgets/documents/twemoji_text_document.py:63-66 | the matches' edits are in order, without overlap |
| LegacyTwemojiDocument.ReplaceAlias | source/extra_qwidgets/documents/twemoji_text_document.py:55-81 | the matches, collected first, are in order and without overlap, and replacing them last-first gives the same document as replacing them left to right |
| LegacyTwemojiDocument.ReplaceAliasIsSubstitution | source/extra_qwidgets/documents/twemoji_text_document.py:55-81 | processing the tokens last-first equals scanning left to right and substituting each token |
| LegacyTwemojiDocument.UnknownAliasesKept | source/extra_qwidgets/documents/twemoji_text_document.py:72-73 | when no token names a known alias, the document is unchanged |
| ImageProvider.CacheKey | source/extra_qwidgets/widgets/emoji_picker/emoji_image_provider.py:29-30 | the key is "emoji_" + aliases[0] and does not depend on size or ratio; a record without aliases gives none |
| ImageProvider.TargetSize | source/extra_qwidgets/widgets/emoji_picker/emoji_image_provider.py:24-25 | the physical size is each side times the ratio, truncated toward zero: the largest integer not above a non-negative product, the smallest not below a negative one |
| ImageProvider.FallbackSize | source/extra_qwidgets/widgets/emoji_picker/emoji_image_provider.py:57 | the fallback size is each side times the ratio, rounded to the nearest integer |
| ImageProvider.GetPixmap | source/extra_qwidgets/widgets/emoji_picker/emoji_image_provider.py:14-60 | a hit returns the cached pixmap and reads no file; a miss reads the emoji's file at the target size and caches it on success; on failure it returns a transparent fallback and caches nothing |
| ImageProvider.CacheOnlyGrows | source/extra_qwidgets/widgets/emoji_picker/emoji_image_provider.py:33-54 | no entry is ever removed or changed |
| ImageProvider.SecondCallHits | source/extra_qwidgets/widgets/emoji_picker/emoji_image_provider.py:29-54 | once cached, any call for the same alias at any size is a hit |
| ImageProvider.FailureRetries | source/extra_qwidgets/widgets/emoji_picker/emoji_image_provider.py:43-60 | a failed read leaves the cache as it was, so the next call reads again |
| ImageProvider.KeysSeparateAliases | source/extra_qwidgets/widgets/emoji_picker/emoji_image_provider.py:29-30 | two records share a key exactly when they share the canonical alias |
| ImageProvider.HitIgnoresRequestedSize | source/extra_qwidgets/widgets/emoji_picker/emoji_image_provider.py:29-45 | a 32 x 32 request after a 16 x 16 load returns the 16 x 16 rendering |
| ImageProvider.FallbackRoundsTargetTruncates | source/extra_qwidgets/widgets/emoji_picker/emoji_image_provider.py:24-59 | at ratio 1.25 a width of 10 reads at 12 but falls back at 13 |
| ScaleInside.CentreOffset | source/extra_qwidgets/utils.py:25-26 | the two margins around the inner length differ by at most one, the extra pixel going right or bottom |
| ScaleInside.ScaleInside | source/extra_qwidgets/utils.py:11-34 | the canvas keeps the input's size; the box is each side times the factor, truncated, and centred |
| ScaleInside.ShrinkStaysInside | source/extra_qwidgets/utils.py:21-26 | for a factor in [0, 1] the box lies inside the canvas |
| ScaleInside.ScaledNoLarger | source/extra_qwidgets/utils.py:21-22 | for a factor in [0, 1] the scaled side is between 0 and the side |
| ScaleInside.NinetyPercentOf72 | source/extra_qwidgets/utils.py:21-26 | a 72 x 72 image at 0.9, the factor the older document loads its emoji with, is drawn 64 x 64 at offset (4, 4) |
| AccordionItem.IconName | source/extra_qwidgets/widgets/accordion_item.py:86-97 | Arrow gives angle-down or angle-right and PlusMinus gives minus or plus, by the expanded flag; any other style gives no name |
| AccordionItem.UpdateIcon | source/extra_qwidgets/widgets/accordion_item.py:86-97 | the icon changes only when a name was chosen; nothing else changes |
| AccordionItem.RefreshLayout | source/extra_qwidgets/widgets/accordion_item.py:104-116 | the row holds the icon and the title once each, with the icon first exactly when the position is Leading |
| AccordionItem.HeaderSetFlat | source/extra_qwidgets/widgets/accordion_item.py:55-67 | `flat()` afterwards returns the value set |
| AccordionItem.NewHeader | source/extra_qwidgets/widgets/accordion_item.py:19-53 | a new header is collapsed, Leading, Arrow and raised, with the angle-right icon before the title |
| AccordionItem.HeaderSetExpanded | source/extra_qwidgets/widgets/accordion_item.py:74-79 | `isExpanded()` returns the value set, and the icon follows |
| AccordionItem.HeaderSetIconStyle | source/extra_qwidgets/widgets/accordion_item.py:81-84 | values other than Arrow and PlusMinus are ignored |
| AccordionItem.HeaderSetIconPosition | source/extra_qwidgets/widgets/accordion_item.py:99-102 | values other than Leading and Trailing are ignored; a position given is laid out |
| AccordionItem.NewItem | source/extra_qwidgets/widgets/accordion_item.py:130-143 | a new item is consistent, its header collapsed and its content hidden, so `isExpanded` is false whether or not it is shown |
| AccordionItem.SetExpanded | source/extra_qwidgets/widgets/accordion_item.py:148-153 | the header flag and the content's own visibility flag both take the value; `isExpanded` then returns it while the ancestors are shown and false otherwise |
| AccordionItem.Toggle | source/extra_qwidgets/widgets/accordion_item.py:145-146 | the item ends expanded exactly when `isVisible()` was false: when its content was hidden if the ancestors are shown, and always under a hidden ancestor |
| AccordionItem.Press | source/extra_qwidgets/widgets/accordion_item.py:69-72 | a left-button press toggles the item, which is on screen; other buttons change nothing |
| AccordionItem.IsExpanded | source/extra_qwidgets/widgets/accordion_item.py:152-153 | false under a hidden ancestor; for a consistent item, true exactly while shown with its content's own flag set |
| AccordionItem.SetIconPosition | source/extra_qwidgets/widgets/accordion_item.py:155-156 | passed on to the header: an unknown value leaves the item as it was, a position is stored; the expansion flags and consistency are kept |
| AccordionItem.SetIconStyle | source/extra_qwidgets/widgets/accordion_item.py:158-159 | passed on to the header: an unknown style leaves the item as it was, a style is stored; the expansion flags and consistency are kept |
| AccordionItem.SetFlat | source/extra_qwidgets/widgets/accordion_item.py:161-162 | `flat()` afterwards returns the value set; the expansion flags and consistency are kept |
| AccordionItem.ToggleTwice | source/extra_qwidgets/widgets/accordion_item.py:145-150 | with the ancestors shown, toggling twice restores a consistent item |
| AccordionItem.ToggleHiddenExpands | source/extra_qwidgets/widgets/accordion_item.py:145-153 | under a hidden ancestor every toggle expands: twice from collapsed ends expanded, an expanded item stays expanded, and `isExpanded` stays false until the ancestors are shown |
| AccordionItem.IconShowsState | source/extra_qwidgets/widgets/accordion_item.py:86-97 | in a consistent item the icon shows whether the content's own flag is set |
| LegacyAccordion.NewAccordion | source/extra_qwidgets/widgets/accordion.py:8-23 | a new accordion has no items, so every item is consistent |
| LegacyAccordion.AddSection | source/extra_qwidgets/widgets/accordion.py:26-30 | exactly one new, collapsed item is appended and returned |
| LegacyAccordion.SetIconPosition | source/extra_qwidgets/widgets/accordion.py:32-35 | the position is passed on to every item; an unknown value leaves the accordion as it was |
| LegacyAccordion.SetIconStyle | source/extra_qwidgets/widgets/accordion.py:37-40 | the style is passed on to every header; an unknown style leaves the accordion as it was |
| LegacyAccordion.SetFlat | source/extra_qwidgets/widgets/accordion.py:42-44 | every header ends flat or raised as asked, expansion untouched |
| LegacyAccordion.ExpandAll | source/extra_qwidgets/widgets/accordion.py:46-48 | every item's flags are set, so `isExpanded` holds exactly while the accordion is shown |
| LegacyAccordion.CollapseAll | source/extra_qwidgets/widgets/accordion.py:50-52 | every item's flags are cleared, so no item is expanded |
| LegacyAccordion.ScrollToItem | source/extra_qwidgets/widgets/accordion.py:55-56 | a target whose content is not visible is toggled, and a visible one is left alone; either way a consistent target ends with its flags expanded |
| LegacyAccordion.CollapseAfterExpand | source/extra_qwidgets/widgets/accordion.py:46-52 | collapsing after expanding is collapsing alone |
| LegacyAccordion.AddedSectionStartsCollapsed | source/extra_qwidgets/widgets/accordion.py:26-30 | a section added after `expandAll` starts collapsed |
| Accordion.NewAccordion | source/qextrawidgets/widgets/accordion.py:16-40 | no items, no active section; animation on, 200 ms, InOutQuart |
| Accordion.FirstEntered | source/qextrawidgets/widgets/accordion.py:46-47 | the first item in list order that the value lies on and that is not the active section |
| Accordion.OnScrollAsWritten | source/qextrawidgets/widgets/accordion.py:45-52 | as written: when an item is entered it becomes active and `enteredSection` fires; `leftSection` fires with the entered item if a section was active; otherwise nothing happens |
| Accordion.LeftSectionCarriesEnteredItem | source/qextrawidgets/widgets/accordion.py:49-50 | scrolling from section 1 into section 2 reports leaving section 2 as written, and section 1 when corrected |
| Accordion.OnScroll | source/qextrawidgets/widgets/accordion.py:45-52 | the corrected handler: `leftSection` carries the section that was active |
| Accordion.OnScrollPicksFirst | source/qextrawidgets/widgets/accordion.py:45-52 | nothing fires exactly when no item qualifies; otherwise the first qualifying item becomes active and is entered |
| Accordion.InsertAccordionItem | source/qextrawidgets/widgets/accordion.py:87-96 | the item is appended to the list whatever the layout position |
| Accordion.InsertSection | source/qextrawidgets/widgets/accordion.py:69-85 | the new item carries the current animation defaults and is appended |
| Accordion.RemoveAccordionItem | source/qextrawidgets/widgets/accordion.py:98-105 | exactly the first occurrence of the item is removed; removing an absent item fails |
| Accordion.InsertThenRemove | source/qextrawidgets/widgets/accordion.py:87-105 | inserting a new item and removing it gives the accordion back |
| Accordion.SetIconPosition | source/qextrawidgets/widgets/accordion.py:109-112 | the position is passed on to every item |
| Accordion.SetIconStyle | source/qextrawidgets/widgets/accordion.py:114-117 | the style is passed on to every item |
| Accordion.SetFlat | source/qextrawidgets/widgets/accordion.py:119-122 | the flat flag is passed on to every item |
| Accordion.SetAnimationEnabled | source/qextrawidgets/widgets/accordion.py:126-138 | the default is stored, read back, and applied to every item |
| Accordion.SetAnimationDuration | source/qextrawidgets/widgets/accordion.py:140-152 | the default is stored, read back, and applied to every item |
| Accordion.SetAnimationEasing | source/qextrawidgets/widgets/accordion.py:154-173 | the default is stored, read back, and applied to every item |
| Accordion.AnimationSettingsReachNewSections | source/qextrawidgets/widgets/accordion.py:126-169 | after the three setters, old and newly inserted items alike carry the values set |
| Accordion.ExpandAll | source/qextrawidgets/widgets/accordion.py:177-184 | every item is expanded, nothing else changes |
| Accordion.CollapseAll | source/qextrawidgets/widgets/accordion.py:186-193 | every item is collapsed, nothing else changes |
| Accordion.ExpandCollapseLastWins | source/qextrawidgets/widgets/accordion.py:177-193 | after both operations, the last one decides |
| ColorButton.Luminance | source/extra_qwidgets/widgets/color_button.py:84-90 | the weighted brightness, times 1000, lies in 0..255000 |
| ColorButton.ContrastingTextColor | source/extra_qwidgets/widgets/color_button.py:78-95 | always black or white; black exactly when the luminance exceeds 128 |
| ColorButton.ExtremesContrast | source/extra_qwidgets/widgets/color_button.py:92-95 | white gets black text and black gets white text |
| ColorButton.ContrastMonotone | source/extra_qwidgets/widgets/color_button.py:90-95 | a background at least as bright in every channel keeps black text |
| ColorButton.SetColor | source/extra_qwidgets/widgets/color_button.py:57-62 | a name is parsed, a colour is kept, other values are ignored; the text colour is untouched |
| ColorButton.SetTextColor | source/extra_qwidgets/widgets/color_button.py:67-76 | "auto" is stored as the sentinel, another name is parsed, a colour is kept, other values are ignored |
| ColorButton.NewButton | source/extra_qwidgets/widgets/color_button.py:8-16 | each attribute is set exactly when its argument is a string or a colour |
| ColorButton.StylePalette | source/extra_qwidgets/widgets/color_button.py:21-52 | sunken wins over hover: pressed uses darker(115), hover lighter(115), otherwise the colour, for Button and Window alike; "auto" text contrasts with the stored colour |
| ColorButton.AutoTextIgnoresState | source/extra_qwidgets/widgets/color_button.py:48-49 | with "auto" the text colour is the same in every state |
| ColorButton.NewButtonAutoText | source/extra_qwidgets/widgets/color_button.py:8-16 | a button built with a colour and the default text colour paints contrasting text in every state |
| ExtraTextEdit.ContentHeight | source/extra_qwidgets/widgets/extra_text_edit.py:36-43 | the document height plus top and bottom margins plus twice the frame width |
| ExtraTextEdit.PolicyFor | source/extra_qwidgets/widgets/extra_text_edit.py:108-114 | "as needed" exactly when the content is taller than the maximum, else "always off" |
| ExtraTextEdit.SizeHint | source/extra_qwidgets/widgets/extra_text_edit.py:30-50 | responsive: base width, and the content height truncated, or the maximum when the content is taller, so never above the maximum; otherwise the base hint |
| ExtraTextEdit.ClampHeight | source/extra_qwidgets/widgets/extra_text_edit.py:46-48 | `int(min(height, bound))` never exceeds the bound |
| ExtraTextEdit.OnTextChanged | source/extra_qwidgets/widgets/extra_text_edit.py:98-114 | a no-op unless responsive; otherwise the policy follows the content |
| ExtraTextEdit.TextChanged | source/extra_qwidgets/widgets/extra_text_edit.py:73-79 | the handler runs only while connected; only the policy can change |
| ExtraTextEdit.ScrollBarIffClamped | source/extra_qwidgets/widgets/extra_text_edit.py:98-114 | after a text change, the scroll bar may show exactly when the size hint was clamped to the maximum |
| ExtraTextEdit.SetResponsive | source/extra_qwidgets/widgets/extra_text_edit.py:66-85 | the same value is a no-op; on connects the handler and applies the content rule; off disconnects it and restores "as needed"; connection follows responsiveness |
| ExtraTextEdit.SetResponsiveIdempotent | source/extra_qwidgets/widgets/extra_text_edit.py:66-68 | setting the same value twice equals setting it once |
| ExtraTextEdit.OffThenOn | source/extra_qwidgets/widgets/extra_text_edit.py:66-85 | off and on again keeps the maximum and reapplies the content rule |
| ExtraTextEdit.SetMaximumHeight | source/extra_qwidgets/widgets/extra_text_edit.py:87-94 | `maximumHeight` returns the value set; nothing else changes |
| ExtraTextEdit.MaximumHeight | source/extra_qwidgets/widgets/extra_text_edit.py:87-88 | the stored value bounds a responsive edit's size hint |
| ExtraTextEdit.NewTextEdit | source/extra_qwidgets/widgets/extra_text_edit.py:9-20 | a new edit is responsive and connected, with maximum 16777215 and the content rule applied |
| ExtraTextEdit.MaximumHeightLeavesPolicy | source/extra_qwidgets/widgets/extra_text_edit.py:90-114 | a lowered maximum clamps the size hint at once, but the scroll bar stays off until the text next changes |

## Left out

- Rendering and resources are left out: painting, pixel contents, `addResource` and
  `resource`. Only image identity and dimensions are modelled; the margin composition in
  `_ensure_resource_loaded` is painting only. Its one effect on the document, the
  IndexError on a record without aliases, is modelled by the checked passes below.
- Signal wiring is not modelled: connection, disconnection, `QSignalBlocker` and edit
  blocks. The handlers are functions that the model calls after an edit
  (`TwemojiSettings.AfterEdit`).
- Because of that, re-entrant signal rounds are not modelled.
- TwemojiSettings.SetTwemoji: `_detwemojize` inserts text without a `QSignalBlocker`, so
  every replacement runs the connected handlers: `_on_contents_change` moves
  `_last_change_pos` to the replaced position, and `_limit_line` runs when connected.
  (`__replace_alias` is never connected, since switching alias replacement on raises
  first.) The model runs the rewrite alone, so its promise that the change
  position is kept holds in the program only when no emoji image is rewritten.
- The settings handlers (`TwemojiSettings.SetTwemoji`, `TwemojiSettings.Resize`,
  `TwemojiSettings.AfterEdit`, `TwemojiSettings.NewDocument`) compose the passes as they
  complete. The raise part-way is modelled on the passes themselves:
  `TwemojiDocument.TwemojizeChecked`, `TwemojiDocument.TwemojizeFullChecked` and
  `TwemojiDocument.UpdateEmojiImagesChecked`.
- TwemojiDocument.MatchEdit: states the image a match becomes as if its record always
  renders. A record without aliases makes `_ensure_resource_loaded` raise at
  `emoji.aliases[0]` before anything is inserted; `TwemojiDocument.TwemojizeChecked`
  models that.
- TwemojiDocument.TwemojizeEditsShape: as for `MatchEdit`, the shape of each edit is
  stated as if every found record renders; the raise is in `TwemojiDocument.TwemojizeChecked`.
- TwemojiDocument.TwemojizeResult: describes a `_twemojize` that completes.
  `TwemojiDocument.TwemojizeChecked` shows that this happens exactly when no match names a
  record without aliases, and what is left when one does.
- TwemojiDocument.FullEdits: states the image of every paired record as if it renders;
  the raise on a record without aliases is in `TwemojiDocument.TwemojizeFullChecked`.
- TwemojiDocument.TwemojizeFullResult: describes a `_twemojize_full` that completes;
  `TwemojiDocument.TwemojizeFullChecked` covers the raise.
- TwemojiDocument.UpdateCell: states the new image as if the record renders; the raise on
  a record without aliases is in `TwemojiDocument.UpdateEmojiImagesChecked`.
- TwemojiDocument.UpdateEmojiImages: describes an `updateEmojiImages` that completes;
  `TwemojiDocument.UpdateEmojiImagesChecked` covers the raise. It also re-renders each
  image, where the program re-renders a run of equal images as one image (see Findings).
- TwemojiDocument.UpdateSetsSizes: holds for an update that completes; see
  `TwemojiDocument.UpdateEmojiImagesChecked` for the raise. It also holds for the program
  only when no emoji image is followed by an equal one (see Findings).
- The mismatched disconnect in `setLineLimit` is not modelled either. It connects
  `contentsChange` but disconnects `contentsChanged`, and that only matters to the wiring.
- The current `__replace_alias` body is not modelled. It is unreachable, since switching
  alias replacement on raises first, and it uses an undefined `cursor`. The older
  `_replace_alias` is modelled instead.
- External libraries are parameters:
  - the emoji database lookups;
  - `EmojiFinder`, whose matches are given as sorted disjoint spans;
  - `QTextBoundaryFinder`, given as boundaries;
  - the `EmojiParams` validator;
  - `QFontMetrics`, given as an integer font height;
  - the image reader.
- The older `_load_emojis` and `scale_inside`'s painting are left out. Only the geometry is
  modelled, and `twemoji_api` is not part of this model.
- Floating point is replaced by exact rationals. The 0.9 factor is 9/10, the device pixel
  ratio and the document height are rationals, and the luminance coefficients are scaled
  by 1000. Float rounding at the boundaries is not modelled; for example, a luminance that
  is 128 only after rounding.
- ImageName.Netloc: `urlparse`'s IPv6 bracket check, its control-character stripping and
  its NFKC netloc check are not modelled; the names the engine builds never reach them.
- Qt joins neighbouring characters of equal formats into one fragment, so a run of equal
  emoji images is one fragment, and the program reads one emoji from it (see Findings).
  The members below read each image as its own fragment, the evidently intended reading.
  For the program they hold when no emoji image is followed by an equal one
  (`Fragments.NoRepeatedEmoji`); `Fragments` models the readers as written.
- TwemojiDocument.LocalizeEmojiImages: lists every emoji image as one cell; the program
  lists a run of equal emoji images as one fragment (`Fragments.RunEdits`).
- TwemojiDocument.WalkLocated: walks the images one cell at a time; the program walks runs
  of equal emoji images as one fragment.
- TwemojiDocument.Detwemojize: writes one text per image; the program writes one text per
  run of equal images (`Fragments.DetwemojizeAsWritten`).
- TwemojiDocument.DetwemojizeLocated: as for `Detwemojize`, one image per visit.
- TwemojiDocument.ToPlainText: reads each emoji image; the program reads a run of equal
  emoji images once (`Fragments.ToPlainTextAsWritten`).
- TwemojiDocument.ToPlainTextByCells: the per-cell export; the program's export collapses
  runs of equal emoji images.
- TwemojiDocument.FullRoundTrip: an emoji repeated back to back becomes equal neighbouring
  images, which the program turns back into one copy; the round trip holds for the
  program only when no emoji image is followed by an equal one.
- TwemojiDocument.FullKeepsPlainText: the program's export of a twemojized emoji repeated
  back to back gives one copy, so the text is kept only without such repeats.
- TwemojiDocument.DetwemojizeKeepsPlainText: stated for the per-cell readings of both
  passes.
- TwemojiDocument.UpdateKeepsPlainText: stated for the per-cell readings of both passes.
- TwemojiDocument.UpdateEmojiImagesChecked: re-renders each image; the program re-renders
  a run of equal images as one image (`Fragments.UpdateEmojiImagesAsWritten`).
- TwemojiSettings.TwemojiOnThenOff: "😂😂" on then off gives "😂" in the program, since
  the two images are one fragment; the model's promise holds without such repeats.
- TwemojiSettings.SetTwemojiKeepsPlainText: holds for the per-cell export; the program's
  export reads a run of equal emoji images once.
- TwemojiSettings.SetEmojiMarginResizes: re-renders each image; the program replaces a
  run of equal images by one image.
- TwemojiSettings.ResizeKeepsPlainText: holds for the per-cell readings; the program's
  resize collapses runs of equal images.
- LegacyTwemojiDocument.Detwemojize: the older `_detwemojize` also collects fragments and
  so writes one text per run of equal emoji images; the model reads one image per cell,
  and the as-written run reading is modelled for the current revision only.
- LegacyTwemojiDocument.LegacyRoundTrip: an emoji repeated back to back becomes equal
  neighbouring images, which the older `_detwemojize` turns back into one copy; the round
  trip holds for the program only without such repeats.
- LegacyTwemojiDocument.Detwemojize: the fragment-collection pass is folded into the rewrite.
- Offsets count cells, and a cell is one code point. Qt counts positions in UTF-16 code
  units: cursor positions, `findBlock`, `capturedStart`, `contentsChange` and
  `QTextBoundaryFinder` boundaries. A character outside the Basic Multilingual Plane,
  which includes most emoji, is one cell here but two positions in Qt. The model uses
  cell offsets consistently throughout, so the two agree up to that renumbering.
- TwemojiSettings.AfterEdit: composes the corrected `LineLimit.LimitLine`, not
  `_limit_line` as written, so its exact block count is not what the program gives. The
  program's handler is `TwemojiSettings.AfterEditAsWritten`, which promises only that the
  limit bounds the block count, and what remains is a prefix of the edited document.
- A block break reads as U+2029 in a cursor's selected text and '\n' in `toPlainText`;
  other characters are taken as they are. Non-breaking spaces and similar conversions are
  not modelled.
- The pixmap cache is a map that only grows. `QPixmapCache` eviction is not modelled.
- The model does not say whether the reader honours the scaled size. The cached pixmap
  records the size that was requested.
- The current accordion's item class (`qextrawidgets/widgets/accordion_item.py`) is not
  part of this model. Its items are records whose setters store what they are given.
- Accordion.InsertAccordionItem: the layout position, the stretch handler and the item's
  widget order in the layout are not modelled. The list the container keeps is modelled.
- Accordion scrolling (`scrollToItem`, `resetScroll`), `setSectionTitle` and the
  `addSection` / `addAccordionItem` shorthands are left out. They are scroll-bar calls or
  one-line delegations.
- LegacyAccordion.ScrollToItem: `processEvents` and `ensureWidgetVisible` are not
  modelled. Only the expand rule is.
- Animations are left out. `expandAll` and `collapseAll` ignore the `animated` argument.
- ColorButton.StylePalette: `darker(115)`, `lighter(115)` and the colour-name parser are
  named or taken as a parameter, not computed.
- ColorButton.ContrastingTextColor: `QColor` channel accessors are taken as integers
  0..255.
- ExtraTextEdit.SetResponsive: `updateGeometry` and the vertical size policy are layout
  side effects and are not modelled.
- `createMimeDataFromSelection` is left out. It calls a `toText` that neither document
  revision defines.

## Findings

| source | as written | input that shows it | evidently intended | confidence | as-written member | corrected member |
|---|---|---|---|---|---|---|
| source/qextrawidgets/documents/twemoji_text_document.py:295-298 | each turn selects the last block, which takes the paragraph separator before it along, then also deletes the character before the cursor, the last cell of the block that was meant to stay | the document "a\nb" with limit 1 becomes ""; the document "a\n\nb" with limit 2 keeps one line | drop surplus blocks from the end and keep the first `limit` blocks intact | medium, not executed | LineLimit.LimitLineAsWritten (LineLimit.LimitLineLosesKeptText, LineLimit.LimitLineOvershoots) | LineLimit.LimitLine (LineLimit.LimitLineIdempotent) |
| source/qextrawidgets/widgets/accordion.py:49-50 | `leftSection` is emitted with the item being entered | section 1 active, scroll to a value inside section 2: both signals carry section 2 | `leftSection` carries the section that was active | medium, not executed | Accordion.OnScrollAsWritten (Accordion.LeftSectionCarriesEnteredItem) | Accordion.OnScroll (Accordion.OnScrollPicksFirst) |
| source/qextrawidgets/documents/twemoji_text_document.py:317-322, 357-364 | `_localize_emoji_images` lists Qt fragments, and Qt joins equal neighbouring image formats into one fragment; `_detwemojize` then writes one emoji text over the whole run | "😂😂" twemojized gives two equal images, which detwemojize to "😂" | each emoji image goes back to its own text, so twemoji on then off gives the text back | medium, not executed; rests on Qt's fragment merging | Fragments.DetwemojizeAsWritten (Fragments.RepeatedEmojiCollapses) | TwemojiDocument.Detwemojize (TwemojiDocument.FullRoundTrip) |
| source/qextrawidgets/documents/twemoji_text_document.py:232-252, 317-322 | `updateEmojiImages` replaces each fragment, a run of equal images, by one image | the two images of "😂😂" become one image after a resize | each image is re-rendered in place | medium, not executed; rests on Qt's fragment merging | Fragments.UpdateEmojiImagesAsWritten (Fragments.RepeatedEmojiUpdateCollapses) | TwemojiDocument.UpdateEmojiImages (TwemojiDocument.UpdateKeepsPlainText) |
| source/qextrawidgets/documents/twemoji_text_document.py:300-313 | `toPlainText` adds one emoji text per emoji fragment | the two images of "😂😂" export as "😂" | one emoji text per image | medium, not executed; rests on Qt's fragment merging | Fragments.ToPlainTextAsWritten (Fragments.RepeatedEmojiCollapses) | TwemojiDocument.ToPlainText (TwemojiDocument.ToPlainTextByCells) |
