/** The rich-text document as the emoji engine sees it.

    The toolkit stores a document as one character buffer in which blocks (paragraphs) are
    separated by a paragraph-separator position and each inline image occupies exactly one
    position. The model keeps that buffer: a `Doc` is a sequence of cells, each a text
    character, an image, or a block break. Every document offset the engine computes is an
    index into this sequence. The sequence-of-blocks view is derived (`Blocks`), and the
    lemmas below connect the two views. */
module Document {
  import opened Util

  /** The properties of an inline image the engine sets or reads. A width or height of 0
      is the toolkit's "not set". */
  datatype ImageFormat = ImageFormat(name: string, width: int, height: int, alignMiddle: bool)

  /** A freshly constructed image format: nothing set. */
  const EmptyImageFormat := ImageFormat("", 0, 0, false)

  datatype Cell = Char(c: char) | Image(format: ImageFormat) | Break

  type Doc = seq<Cell>

  /** The character the toolkit shows for an image position in plain text. */
  const ObjectReplacement: char := '\U{FFFC}'
  /** The character a cursor's selected text shows for a block break. */
  const ParagraphSeparator: char := '\U{2029}'

  /** One position of the toolkit's own plain-text export: images become the object
      replacement character and block breaks become '\n'. */
  function PlainChar(cell: Cell): char {
    match cell
    case Char(c) => c
    case Image(_) => ObjectReplacement
    case Break => '\n'
  }

  /** The toolkit's plain text of a run of cells (`QTextDocument.toPlainText`,
      `QTextBlock.text`). It has one character per cell, so offsets carry over. */
  function PlainView(cells: Doc): (t: string)
    ensures |t| == |cells|
    ensures forall i :: 0 <= i < |cells| ==> t[i] == PlainChar(cells[i])
  {
    seq(|cells|, i requires 0 <= i < |cells| => PlainChar(cells[i]))
  }

  /** A cursor's `selectedText`: like the plain view, but a block break reads as U+2029. */
  function SelectedText(cells: Doc): (t: string)
    ensures |t| == |cells|
    ensures forall i :: 0 <= i < |cells| ==>
              t[i] == (if cells[i].Break? then ParagraphSeparator else PlainChar(cells[i]))
  {
    seq(|cells|, i requires 0 <= i < |cells| =>
      if cells[i].Break? then ParagraphSeparator else PlainChar(cells[i]))
  }

  /** Text inserted through a cursor: one character cell per character. */
  function Chars(s: string): (cells: Doc)
    ensures |cells| == |s|
    ensures forall i :: 0 <= i < |s| ==> cells[i] == Char(s[i])
  {
    seq(|s|, i requires 0 <= i < |s| => Char(s[i]))
  }

  predicate BreakFree(cells: Doc) {
    forall i :: 0 <= i < |cells| ==> !cells[i].Break?
  }

  lemma PlainViewAppend(a: Doc, b: Doc)
    ensures PlainView(a + b) == PlainView(a) + PlainView(b)
  {
  }

  // ---------------------------------------------------------------------------------
  // The block view

  /** The document cut at its block breaks. There is always at least one block. */
  function Blocks(doc: Doc): (bs: seq<Doc>)
    ensures |bs| >= 1
  {
    if doc == [] then [[]]
    else
      var rest := Blocks(doc[1..]);
      if doc[0].Break? then [[]] + rest
      else [[doc[0]] + rest[0]] + rest[1..]
  }

  function CountBreaks(doc: Doc): nat {
    if doc == [] then 0 else (if doc[0].Break? then 1 else 0) + CountBreaks(doc[1..])
  }

  /** `blockCount()` */
  function BlockCount(doc: Doc): nat {
    |Blocks(doc)|
  }

  lemma {:induction false} CountBreaksAppend(a: Doc, b: Doc)
    ensures CountBreaks(a + b) == CountBreaks(a) + CountBreaks(b)
  {
    if a == [] {
      assert a + b == b;
    } else {
      assert (a + b)[0] == a[0] && (a + b)[1..] == a[1..] + b;
      CountBreaksAppend(a[1..], b);
    }
  }

  /** There is one block more than there are breaks. */
  lemma {:induction false} BlockCountIsBreaksPlusOne(doc: Doc)
    ensures BlockCount(doc) == CountBreaks(doc) + 1
  {
    if doc != [] {
      BlockCountIsBreaksPlusOne(doc[1..]);
    }
  }

  /** A break-free run is one block. */
  lemma {:induction false} BlocksOfBreakFree(b: Doc)
    requires BreakFree(b)
    ensures Blocks(b) == [b]
  {
    if b != [] {
      BlocksOfBreakFree(b[1..]);
      assert [b[0]] + b[1..] == b;
    }
  }

  lemma BreakFreeHasNoBreaks(b: Doc)
    requires BreakFree(b)
    ensures CountBreaks(b) == 0
  {
    BlocksOfBreakFree(b);
    BlockCountIsBreaksPlusOne(b);
  }

  /** A break separates the blocks before it from the blocks after it. */
  lemma {:induction false} BlocksAroundBreak(p: Doc, q: Doc)
    ensures Blocks(p + [Break] + q) == Blocks(p) + Blocks(q)
  {
    if p == [] {
      assert p + [Break] + q == [Break] + q;
      assert ([Break] + q)[1..] == q;
    } else {
      var d := p + [Break] + q;
      assert d[0] == p[0];
      assert d[1..] == p[1..] + [Break] + q;
      BlocksAroundBreak(p[1..], q);
    }
  }

  // ---------------------------------------------------------------------------------
  // Locating the block around a position

  datatype BlockRange = BlockRange(start: nat, end: nat)

  /** `r` delimits one whole block of `doc`: no break inside, a break (or the document's
      edge) on each side. */
  predicate IsBlockRange(doc: Doc, r: BlockRange) {
    && r.start <= r.end <= |doc|
    && BreakFree(doc[r.start..r.end])
    && (r.start == 0 || doc[r.start - 1].Break?)
    && (r.end == |doc| || doc[r.end].Break?)
  }

  function BlockStart(doc: Doc, pos: nat): (s: nat)
    requires pos <= |doc|
    ensures s <= pos
    ensures s == 0 || doc[s - 1].Break?
    ensures BreakFree(doc[s..pos])
  {
    if pos == 0 then 0
    else if doc[pos - 1].Break? then pos
    else
      var s := BlockStart(doc, pos - 1);
      assert doc[s..pos] == doc[s..pos - 1] + [doc[pos - 1]];
      s
  }

  function BlockEnd(doc: Doc, i: nat): (e: nat)
    requires i <= |doc|
    ensures i <= e <= |doc|
    ensures e == |doc| || doc[e].Break?
    ensures BreakFree(doc[i..e])
    decreases |doc| - i
  {
    if i == |doc| || doc[i].Break? then i
    else
      var e := BlockEnd(doc, i + 1);
      assert doc[i..e] == [doc[i]] + doc[i + 1..e];
      e
  }

  /** `findBlock(pos)`: the block whose positions, its trailing separator included, contain
      `pos`. The toolkit reports an invalid block outside 0..characterCount-1, and the
      character count is the buffer plus one final separator. */
  function FindBlock(doc: Doc, pos: int): (r: Option<BlockRange>)
    ensures r.Some? <==> 0 <= pos <= |doc|
    ensures r.Some? ==> IsBlockRange(doc, r.value) && r.value.start <= pos <= r.value.end
  {
    if 0 <= pos <= |doc| then
      var s := BlockStart(doc, pos);
      var e := BlockEnd(doc, pos);
      assert forall i :: s <= i < e ==> !doc[i].Break? by {
        forall i | s <= i < e
          ensures !doc[i].Break?
        {
          if i < pos {
            assert doc[i] == doc[s..pos][i - s];
          } else {
            assert doc[i] == doc[pos..e][i - pos];
          }
        }
      }
      Some(BlockRange(s, e))
    else None
  }

  /** Only one block contains a position, so `FindBlock` is determined by its contract. */
  lemma BlockRangeUnique(doc: Doc, pos: int, r: BlockRange)
    requires IsBlockRange(doc, r) && r.start <= pos <= r.end
    ensures FindBlock(doc, pos) == Some(r)
  {
    BreakFreeSlice(doc, r.start, r.end, r.start, pos);
    BreakFreeSlice(doc, r.start, r.end, pos, r.end);
    BlockStartIs(doc, pos, r.start);
    BlockEndIs(doc, pos, r.end);
  }

  lemma BreakFreeSlice(doc: Doc, lo: nat, hi: nat, a: nat, b: nat)
    requires lo <= a <= b <= hi <= |doc| && BreakFree(doc[lo..hi])
    ensures BreakFree(doc[a..b])
  {
    forall i | 0 <= i < b - a
      ensures !doc[a..b][i].Break?
    {
      assert doc[a..b][i] == doc[lo..hi][a - lo + i];
    }
  }

  lemma BreakFreeConcat(a: Doc, b: Doc)
    requires BreakFree(a) && BreakFree(b)
    ensures BreakFree(a + b)
  {
    forall i | |a| <= i < |a + b|
      ensures !(a + b)[i].Break?
    {
      assert (a + b)[i] == b[i - |a|];
    }
  }

  /** Walking back from `pos` stops at the start of the break-free run it is in. */
  lemma {:induction false} BlockStartIs(doc: Doc, pos: nat, start: nat)
    requires start <= pos <= |doc| && BreakFree(doc[start..pos])
    requires start == 0 || doc[start - 1].Break?
    ensures BlockStart(doc, pos) == start
    decreases pos
  {
    if pos > start {
      assert doc[pos - 1] == doc[start..pos][pos - 1 - start];
      BreakFreeSlice(doc, start, pos, start, pos - 1);
      BlockStartIs(doc, pos - 1, start);
    }
  }

  /** Walking on from `i` stops at the end of the break-free run it is in. */
  lemma {:induction false} BlockEndIs(doc: Doc, i: nat, end: nat)
    requires i <= end <= |doc| && BreakFree(doc[i..end])
    requires end == |doc| || doc[end].Break?
    ensures BlockEnd(doc, i) == end
    decreases end - i
  {
    if i < end {
      assert doc[i] == doc[i..end][0];
      BreakFreeSlice(doc, i, end, i + 1, end);
      BlockEndIs(doc, i + 1, end);
    }
  }

  /** The index, in `Blocks`, of the block that starts at `r.start`. */
  function BlockIndex(doc: Doc, r: BlockRange): nat
    requires r.start <= |doc|
  {
    CountBreaks(doc[..r.start])
  }

  /** A leading break closes an empty first block. */
  lemma BlocksBreakHead(doc: Doc)
    requires doc != [] && doc[0].Break?
    ensures Blocks(doc) == [[]] + Blocks(doc[1..])
  {
  }

  /** A leading cell that is not a break opens the first block. */
  lemma BlocksCellHead(doc: Doc)
    requires doc != [] && !doc[0].Break?
    ensures Blocks(doc) == [[doc[0]] + Blocks(doc[1..])[0]] + Blocks(doc[1..])[1..]
  {
  }

  /** A break-free run followed by nothing or by a break is the first block. */
  lemma {:induction false} LeadingBlock(b: Doc, tail: Doc)
    requires BreakFree(b)
    requires tail == [] || tail[0].Break?
    ensures Blocks(b + tail) == [b] + Blocks(tail)[1..]
  {
    if b == [] {
      assert b + tail == tail;
    } else {
      var d := b + tail;
      assert d[0] == b[0];
      assert d[1..] == b[1..] + tail;
      LeadingBlock(b[1..], tail);
      assert [b[0]] + b[1..] == b;
    }
  }

  /** Blocks of a document ending in a break: those before it, then an empty one. */
  lemma BlocksEndingInBreak(before: Doc)
    ensures Blocks(before + [Break]) == Blocks(before) + [[]]
  {
    BlocksAroundBreak(before, []);
    assert before + [Break] + [] == before + [Break];
  }

  lemma BlocksAfterBreak(before: Doc, b: Doc, tail: Doc)
    requires BreakFree(b)
    requires tail == [] || tail[0].Break?
    ensures Blocks(before + [Break] + (b + tail)) == Blocks(before) + [b] + Blocks(tail)[1..]
  {
    LeadingBlock(b, tail);
    BlocksAroundBreak(before, b + tail);
  }

  /** The block view of a document cut at block boundaries: the blocks before, the block
      itself, the blocks after. */
  lemma BlocksSplit(head: Doc, b: Doc, tail: Doc)
    requires head == [] || head[|head| - 1].Break?
    requires BreakFree(b)
    requires tail == [] || tail[0].Break?
    ensures |Blocks(head)| - 1 == CountBreaks(head)
    ensures Blocks(head + b + tail) == Blocks(head)[..|Blocks(head)| - 1] + [b] + Blocks(tail)[1..]
  {
    BlockCountIsBreaksPlusOne(head);
    if head == [] {
      BlocksSplitAtStart(head, b, tail);
    } else {
      BlocksSplitAfterBreak(head, b, tail);
    }
  }

  lemma BlocksSplitAtStart(head: Doc, b: Doc, tail: Doc)
    requires head == []
    requires BreakFree(b)
    requires tail == [] || tail[0].Break?
    ensures Blocks(head + b + tail) == Blocks(head)[..|Blocks(head)| - 1] + [b] + Blocks(tail)[1..]
  {
    var bs := Blocks(head);
    assert bs == [[]];
    assert bs[..|bs| - 1] == [];
    assert head + b + tail == b + tail;
    LeadingBlock(b, tail);
  }

  lemma BlocksSplitAfterBreak(head: Doc, b: Doc, tail: Doc)
    requires head != [] && head[|head| - 1].Break?
    requires BreakFree(b)
    requires tail == [] || tail[0].Break?
    requires |Blocks(head)| >= 1
    ensures Blocks(head + b + tail) == Blocks(head)[..|Blocks(head)| - 1] + [b] + Blocks(tail)[1..]
  {
    var before := head[..|head| - 1];
    assert head == before + [Break];
    BlocksEndingInBreak(before);
    assert Blocks(head)[..|Blocks(head)| - 1] == Blocks(before);
    assert head + b + tail == before + [Break] + (b + tail);
    BlocksAfterBreak(before, b, tail);
  }

  /** Rewriting the inside of one block, without adding breaks, changes that block of the
      block view and no other. */
  lemma ReplaceInsideBlock(doc: Doc, r: BlockRange, nb: Doc)
    requires IsBlockRange(doc, r)
    requires BreakFree(nb)
    ensures BlockIndex(doc, r) < BlockCount(doc)
    ensures Blocks(doc)[BlockIndex(doc, r)] == doc[r.start..r.end]
    ensures Blocks(doc[..r.start] + nb + doc[r.end..]) == Blocks(doc)[BlockIndex(doc, r) := nb]
  {
    var head := doc[..r.start];
    var tail := doc[r.end..];
    CutAtBlock(doc, r);
    BlocksSplit(head, doc[r.start..r.end], tail);
    BlocksSplit(head, nb, tail);
    var pre := Blocks(head)[..|Blocks(head)| - 1];
    ReplaceMiddle(pre, doc[r.start..r.end], nb, Blocks(tail)[1..]);
  }

  /** The cut around a block range: the parts before and after end and start at a break
      or at the document's edge. */
  lemma CutAtBlock(doc: Doc, r: BlockRange)
    requires IsBlockRange(doc, r)
    ensures doc == doc[..r.start] + doc[r.start..r.end] + doc[r.end..]
    ensures doc[..r.start] == [] || doc[..r.start][r.start - 1].Break?
    ensures doc[r.end..] == [] || doc[r.end..][0].Break?
  {
    assert doc == doc[..r.start] + doc[r.start..r.end] + doc[r.end..];
  }

  lemma ReplaceMiddle<T>(pre: seq<T>, x: T, y: T, post: seq<T>)
    ensures (pre + [x] + post)[|pre|] == x
    ensures (pre + [x] + post)[|pre| := y] == pre + [y] + post
  {
  }
}
