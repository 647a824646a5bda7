/** `_limit_line`: keeping the document to a number of blocks (lines).

    With a positive limit, the engine moves a cursor to the end of the document and, while
    there are more blocks than the limit, selects the block under the cursor, removes the
    selection and deletes the character before the cursor. The toolkit's block selection
    takes the paragraph separator before the block with it (and selects nothing in an empty
    block), so the extra deletion eats the last character of the block that was meant to
    stay. `LimitLineAsWritten` is that loop; `LimitLine` drops exactly the surplus blocks and
    is what the rest of the model uses. */
module LineLimit {
  import opened Util
  import opened Document

  /** Where the last block starts; the toolkit's cursor sits at the end, in that block. */
  function LastBlockStart(doc: Doc): (s: nat)
    ensures s <= |doc|
    ensures s == 0 || doc[s - 1].Break?
    ensures BreakFree(doc[s..])
  {
    var s := BlockStart(doc, |doc|);
    assert doc[s..] == doc[s..|doc|];
    s
  }

  /** A document of more than one block has a break before its last block. */
  lemma LastBlockAfterBreak(doc: Doc)
    requires BlockCount(doc) >= 2
    ensures LastBlockStart(doc) > 0
  {
    if LastBlockStart(doc) == 0 {
      assert doc[0..] == doc;
      BlocksOfBreakFree(doc);
    }
  }

  // ---------------------------------------------------------------------------------
  // The loop as written

  /** One turn of the loop: the last block goes with the separator before it, then the
      character before the cursor goes too. In an empty last block nothing is selected and
      only the separator before it is deleted. */
  function DropLastAsWritten(doc: Doc): (r: Doc)
    requires BlockCount(doc) >= 2
    ensures |r| < |doc|
    ensures |r| <= |doc| && r == doc[..|r|]
  {
    LastBlockAfterBreak(doc);
    var s := LastBlockStart(doc);
    if s == |doc| then doc[..|doc| - 1]
    else if s >= 2 then doc[..s - 2]
    else []
  }

  function TrimAsWritten(doc: Doc, limit: nat): (r: Doc)
    requires limit >= 1
    ensures BlockCount(r) <= limit
    ensures |r| <= |doc| && r == doc[..|r|]
    decreases |doc|
  {
    if BlockCount(doc) <= limit then doc
    else
      var d := DropLastAsWritten(doc);
      var r := TrimAsWritten(d, limit);
      assert r == doc[..|r|] by {
        assert d == doc[..|d|];
        assert d[..|r|] == doc[..|r|];
      }
      r
  }

  /** `_limit_line` as written: nothing without a positive limit. */
  function LimitLineAsWritten(doc: Doc, limit: int): (r: Doc)
    ensures limit <= 0 ==> r == doc
    ensures limit > 0 ==> BlockCount(r) <= limit
    ensures |r| <= |doc| && r == doc[..|r|]
  {
    if limit <= 0 then doc else TrimAsWritten(doc, limit)
  }

  // ---------------------------------------------------------------------------------
  // Dropping exactly the surplus blocks

  /** The last block goes with the separator before it, and nothing else. */
  function DropLast(doc: Doc): (r: Doc)
    requires BlockCount(doc) >= 2
    ensures Blocks(r) == Blocks(doc)[..BlockCount(doc) - 1]
    ensures |r| < |doc| && r == doc[..|r|]
  {
    LastBlockAfterBreak(doc);
    var s := LastBlockStart(doc);
    var r := doc[..s - 1];
    assert doc == r + [Break] + doc[s..];
    BlocksAroundBreak(r, doc[s..]);
    BlocksOfBreakFree(doc[s..]);
    r
  }

  function Trim(doc: Doc, limit: nat): (r: Doc)
    requires limit >= 1
    ensures BlockCount(doc) <= limit ==> r == doc
    ensures BlockCount(doc) > limit ==> Blocks(r) == Blocks(doc)[..limit]
    ensures |r| <= |doc| && r == doc[..|r|]
    decreases |doc|
  {
    if BlockCount(doc) <= limit then doc
    else
      var d := DropLast(doc);
      var r := Trim(d, limit);
      assert r == doc[..|r|] by {
        assert d == doc[..|d|];
        assert d[..|r|] == doc[..|r|];
      }
      r
  }

  /** `_limit_line`, corrected: with a positive limit the document keeps its first `limit`
      blocks exactly; otherwise it is left alone. */
  function LimitLine(doc: Doc, limit: int): (r: Doc)
    ensures limit <= 0 ==> r == doc
    ensures limit > 0 ==> BlockCount(r) == Min(BlockCount(doc), limit)
    ensures limit > 0 ==> Blocks(r) == Blocks(doc)[..Min(BlockCount(doc), limit)]
    ensures |r| <= |doc| && r == doc[..|r|]
  {
    if limit <= 0 then doc else Trim(doc, limit)
  }

  /** The trimmed document is the untrimmed one whenever it is within the limit, so
      trimming twice is trimming once. */
  lemma LimitLineIdempotent(doc: Doc, limit: int)
    ensures LimitLine(LimitLine(doc, limit), limit) == LimitLine(doc, limit)
  {
  }

  // ---------------------------------------------------------------------------------
  // Where the two differ

  /** When the last block is not empty and the block before it is not empty either, the
      loop as written removes one character more than the surplus block. */
  lemma DropLastAsWrittenEatsOneMore(doc: Doc)
    requires BlockCount(doc) >= 2
    requires LastBlockStart(doc) < |doc|
    ensures |DropLast(doc)| >= 1 ==> DropLastAsWritten(doc) == DropLast(doc)[..|DropLast(doc)| - 1]
  {
    LastBlockAfterBreak(doc);
  }

  /** Two lines, limit one: the first line should stay, but the loop as written leaves an
      empty document. */
  lemma LimitLineLosesKeptText()
    ensures LimitLineAsWritten([Char('a'), Break, Char('b')], 1) == []
    ensures LimitLine([Char('a'), Break, Char('b')], 1) == [Char('a')]
  {
    var a, b := [Char('a')], [Char('b')];
    var doc := a + [Break] + b;
    assert doc == [Char('a'), Break, Char('b')];
    BlocksOfBreakFree(a);
    BlocksOfBreakFree(b);
    BlocksAroundBreak(a, b);
    assert BlockCount(doc) == 2;
    assert doc[1].Break? && !doc[2].Break?;
    assert BlockStart(doc, 3) == 2;
    assert DropLastAsWritten(doc) == [];
    assert DropLast(doc) == a;
  }

  /** Three lines with an empty middle one, limit two: the loop as written goes down to one
      line. */
  lemma LimitLineOvershoots()
    ensures BlockCount(LimitLineAsWritten([Char('a'), Break, Break, Char('b')], 2)) == 1
    ensures BlockCount(LimitLine([Char('a'), Break, Break, Char('b')], 2)) == 2
  {
    var a, b := [Char('a')], [Char('b')];
    var doc := a + [Break] + ([] + [Break] + b);
    assert doc == [Char('a'), Break, Break, Char('b')];
    BlocksOfBreakFree(a);
    BlocksOfBreakFree(b);
    BlocksOfBreakFree([]);
    BlocksAroundBreak([], b);
    BlocksAroundBreak(a, [] + [Break] + b);
    assert BlockCount(doc) == 3;
    assert doc[2].Break? && !doc[3].Break?;
    assert BlockStart(doc, 4) == 3;
    assert DropLastAsWritten(doc) == a;
  }
}
