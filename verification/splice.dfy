/** Replacing spans of a document through a cursor, last span first.

    Every rewriting pass of the engine (incremental and full twemojization, alias
    replacement, detwemojization, image updates) selects a list of spans found in one
    snapshot of the document and overwrites them one by one, walking the list from its end
    so that the offsets of the spans still to do stay valid. `ApplyEach` is that loop;
    `Forward` is an independent head-to-tail description of its result, and
    `ApplyDescending` proves the two agree. */
module Splice {
  import opened Util
  import opened Document

  /** One span `[start, end)` of the snapshot and what it becomes. `None` means the pass
      leaves the span alone (a match whose emoji is unknown, say). */
  datatype Edit = Edit(start: nat, end: nat, repl: Option<Doc>)

  /** The cells the span holds afterwards. */
  function Replacement(doc: Doc, e: Edit): Doc
    requires e.start <= e.end <= |doc|
  {
    if e.repl.Some? then e.repl.value else doc[e.start..e.end]
  }

  /** Selecting `[start, end)` and inserting the replacement over the selection. */
  function Apply1(doc: Doc, e: Edit): (r: Doc)
    requires e.start <= e.end <= |doc|
    ensures r == doc[..e.start] + Replacement(doc, e) + doc[e.end..]
    ensures |r| >= e.start && r[..e.start] == doc[..e.start]
  {
    if e.repl.Some? then doc[..e.start] + e.repl.value + doc[e.end..]
    else
      assert doc == doc[..e.start] + doc[e.start..e.end] + doc[e.end..];
      doc
  }

  /** Spans listed from the end of the document towards its start, each ending where the
      next-listed one may begin at the latest, all ending at or before `bound`. */
  predicate Descending(edits: seq<Edit>, bound: nat) {
    edits == [] || (edits[0].start <= edits[0].end <= bound && Descending(edits[1..], edits[0].start))
  }

  /** Spans listed from the start of `[lo, hi)` towards its end, pairwise disjoint. */
  predicate Ascending(edits: seq<Edit>, lo: nat, hi: nat) {
    && lo <= hi
    && (edits == [] || (lo <= edits[0].start <= edits[0].end <= hi && Ascending(edits[1..], edits[0].end, hi)))
  }

  /** The cursor loop: apply the edits in list order. */
  function ApplyEach(doc: Doc, edits: seq<Edit>): (r: Doc)
    requires Descending(edits, |doc|)
    ensures AllKept(edits) ==> r == doc
    decreases |edits|
  {
    if edits == [] then doc
    else
      var d := Apply1(doc, edits[0]);
      assert AllKept(edits) ==> AllKept(edits[1..]) && edits[0].repl.None?;
      DescendingWeaken(edits[1..], edits[0].start, |d|);
      ApplyEach(d, edits[1..])
  }

  /** Reference: the region `[lo, hi)` read head to tail, each span replaced. */
  function Forward(doc: Doc, edits: seq<Edit>, lo: nat, hi: nat): Doc
    requires Ascending(edits, lo, hi) && hi <= |doc|
    decreases |edits|
  {
    if edits == [] then doc[lo..hi]
    else doc[lo..edits[0].start] + Replacement(doc, edits[0]) + Forward(doc, edits[1..], edits[0].end, hi)
  }

  lemma {:induction false} AscendingSnoc(init: seq<Edit>, m: Edit, lo: nat, hi: nat)
    requires Ascending(init + [m], lo, hi)
    ensures Ascending(init, lo, m.start)
    ensures lo <= m.start <= m.end <= hi
    decreases |init|
  {
    if init == [] {
      assert (init + [m])[0] == m && (init + [m])[1..] == [];
    } else {
      assert (init + [m])[0] == init[0];
      assert (init + [m])[1..] == init[1..] + [m];
      AscendingSnoc(init[1..], m, init[0].end, hi);
    }
  }

  /** Listing ascending spans back to front gives a descending list. */
  lemma {:induction false} ReverseAscending(edits: seq<Edit>, lo: nat, hi: nat)
    requires Ascending(edits, lo, hi)
    ensures Descending(Reverse(edits), hi)
    decreases |edits|
  {
    if edits != [] {
      var init, m := edits[..|edits| - 1], edits[|edits| - 1];
      assert edits == init + [m];
      AscendingSnoc(init, m, lo, hi);
      ReverseAscending(init, lo, m.start);
      ReverseSnoc(init, m);
      assert Reverse(edits)[1..] == Reverse(init);
    }
  }

  /** The last span comes off the end of the reference. */
  lemma {:induction false} ForwardSnoc(doc: Doc, init: seq<Edit>, m: Edit, lo: nat, hi: nat)
    requires Ascending(init + [m], lo, hi) && hi <= |doc|
    ensures Ascending(init, lo, m.start) && lo <= m.start <= m.end <= hi
    ensures Forward(doc, init + [m], lo, hi)
         == Forward(doc, init, lo, m.start) + Replacement(doc, m) + doc[m.end..hi]
    decreases |init|
  {
    AscendingSnoc(init, m, lo, hi);
    var all := init + [m];
    if init == [] {
      assert all[0] == m && all[1..] == [];
    } else {
      assert all[0] == init[0];
      assert all[1..] == init[1..] + [m];
      ForwardSnoc(doc, init[1..], m, init[0].end, hi);
    }
  }

  /** The reference reads only the cells before `hi`. */
  lemma {:induction false} ForwardFrame(d1: Doc, d2: Doc, edits: seq<Edit>, lo: nat, hi: nat)
    requires Ascending(edits, lo, hi) && hi <= |d1| && hi <= |d2|
    requires d1[..hi] == d2[..hi]
    ensures Forward(d1, edits, lo, hi) == Forward(d2, edits, lo, hi)
    decreases |edits|
  {
    if edits == [] {
      SliceOfPrefix(d1, d2, lo, hi, hi);
    } else {
      var e := edits[0];
      SliceOfPrefix(d1, d2, lo, e.start, hi);
      SliceOfPrefix(d1, d2, e.start, e.end, hi);
      ForwardFrame(d1, d2, edits[1..], e.end, hi);
    }
  }

  /** Two documents that agree before `hi` agree on every slice there. */
  lemma SliceOfPrefix(d1: Doc, d2: Doc, a: nat, b: nat, hi: nat)
    requires a <= b <= hi <= |d1| && hi <= |d2| && d1[..hi] == d2[..hi]
    ensures d1[a..b] == d2[a..b]
  {
    forall k | 0 <= k < b - a
      ensures d1[a..b][k] == d2[a..b][k]
    {
      assert d1[..hi][a + k] == d2[..hi][a + k];
    }
  }

  /** The cursor loop over the reversed list has the head-to-tail result: the region is
      rewritten as `Forward` says and everything outside it is left as it was. */
  lemma {:induction false} ApplyDescending(doc: Doc, edits: seq<Edit>, lo: nat, hi: nat)
    requires Ascending(edits, lo, hi) && hi <= |doc|
    ensures Descending(Reverse(edits), |doc|)
    ensures ApplyEach(doc, Reverse(edits)) == doc[..lo] + Forward(doc, edits, lo, hi) + doc[hi..]
    decreases |edits|
  {
    ReverseAscending(edits, lo, hi);
    DescendingWeaken(Reverse(edits), hi, |doc|);
    if edits == [] {
      assert doc == doc[..lo] + doc[lo..hi] + doc[hi..];
    } else {
      var init, m := edits[..|edits| - 1], edits[|edits| - 1];
      assert edits == init + [m];
      AscendingSnoc(init, m, lo, hi);
      ApplyDescending(Apply1(doc, m), init, lo, m.start);
      ApplyLast(doc, init, m, lo, hi);
    }
  }

  /** The inductive step of `ApplyDescending`: splicing the last span first, then the
      rest, given the claim for the rest. */
  lemma ApplyLast(doc: Doc, init: seq<Edit>, m: Edit, lo: nat, hi: nat)
    requires Ascending(init + [m], lo, hi) && hi <= |doc|
    requires Ascending(init, lo, m.start) && lo <= m.start <= m.end <= hi
    requires Descending(Reverse(init), |Apply1(doc, m)|)
    requires ApplyEach(Apply1(doc, m), Reverse(init))
          == Apply1(doc, m)[..lo] + Forward(Apply1(doc, m), init, lo, m.start) + Apply1(doc, m)[m.start..]
    ensures Descending(Reverse(init + [m]), |doc|)
    ensures ApplyEach(doc, Reverse(init + [m])) == doc[..lo] + Forward(doc, init + [m], lo, hi) + doc[hi..]
  {
    var d := Apply1(doc, m);
    var f := Forward(doc, init, lo, m.start);
    var r := Replacement(doc, m);
    ApplyReversedSnoc(doc, init, m, lo, hi);
    calc {
      ApplyEach(doc, Reverse(init + [m]));
      ApplyEach(d, Reverse(init));
      d[..lo] + Forward(d, init, lo, m.start) + d[m.start..];
      { SpliceParts(doc, m, lo, hi); ForwardFrame(d, doc, init, lo, m.start); }
      doc[..lo] + f + (r + doc[m.end..hi] + doc[hi..]);
      { Regroup(doc[..lo], f, r, doc[m.end..hi], doc[hi..]); }
      doc[..lo] + (f + r + doc[m.end..hi]) + doc[hi..];
      { ForwardSnoc(doc, init, m, lo, hi); }
      doc[..lo] + Forward(doc, init + [m], lo, hi) + doc[hi..];
    }
  }

  lemma Regroup(a: Doc, f: Doc, r: Doc, b: Doc, c: Doc)
    ensures a + f + (r + b + c) == a + (f + r + b) + c
  {
  }

  lemma ApplyReversedSnoc(doc: Doc, init: seq<Edit>, m: Edit, lo: nat, hi: nat)
    requires Ascending(init + [m], lo, hi) && hi <= |doc|
    requires lo <= m.start <= m.end <= hi
    requires Descending(Reverse(init), |Apply1(doc, m)|)
    ensures Descending(Reverse(init + [m]), |doc|)
    ensures ApplyEach(doc, Reverse(init + [m])) == ApplyEach(Apply1(doc, m), Reverse(init))
  {
    ReverseAscending(init + [m], lo, hi);
    DescendingWeaken(Reverse(init + [m]), hi, |doc|);
    ReverseSnoc(init, m);
    ApplyEachCons(doc, m, Reverse(init));
  }

  /** Over the whole document, the cursor loop is the reference. */
  lemma ApplyWhole(doc: Doc, edits: seq<Edit>)
    requires Ascending(edits, 0, |doc|)
    ensures Descending(Reverse(edits), |doc|)
    ensures ApplyEach(doc, Reverse(edits)) == Forward(doc, edits, 0, |doc|)
  {
    ApplyDescending(doc, edits, 0, |doc|);
    assert doc[..0] == [] && doc[|doc|..] == [];
  }

  lemma ApplyEachCons(doc: Doc, m: Edit, rest: seq<Edit>)
    requires Descending([m] + rest, |doc|)
    ensures Descending(rest, |Apply1(doc, m)|)
    ensures ApplyEach(doc, [m] + rest) == ApplyEach(Apply1(doc, m), rest)
  {
    assert ([m] + rest)[0] == m && ([m] + rest)[1..] == rest;
    DescendingWeaken(rest, m.start, |Apply1(doc, m)|);
  }

  /** One splice leaves the cells before the span and re-reads the cells after it. */
  lemma SpliceParts(doc: Doc, m: Edit, lo: nat, hi: nat)
    requires lo <= m.start <= m.end <= hi <= |doc|
    ensures |Apply1(doc, m)| >= m.start
    ensures Apply1(doc, m)[..m.start] == doc[..m.start]
    ensures Apply1(doc, m)[..lo] == doc[..lo]
    ensures Apply1(doc, m)[m.start..] == Replacement(doc, m) + doc[m.end..hi] + doc[hi..]
  {
    var d := Apply1(doc, m);
    assert d[..lo] == d[..m.start][..lo];
    assert doc[m.end..] == doc[m.end..hi] + doc[hi..];
  }

  lemma DescendingWeaken(edits: seq<Edit>, b1: nat, b2: nat)
    requires Descending(edits, b1) && b1 <= b2
    ensures Descending(edits, b2)
  {
  }

  /** Spans the pass leaves alone change nothing. */
  predicate AllKept(edits: seq<Edit>) {
    forall i :: 0 <= i < |edits| ==> edits[i].repl.None?
  }

  lemma {:induction false} ForwardAllKept(doc: Doc, edits: seq<Edit>, lo: nat, hi: nat)
    requires Ascending(edits, lo, hi) && hi <= |doc|
    requires AllKept(edits)
    ensures Forward(doc, edits, lo, hi) == doc[lo..hi]
    ensures doc[..lo] + Forward(doc, edits, lo, hi) + doc[hi..] == doc
    decreases |edits|
  {
    assert doc == doc[..lo] + doc[lo..hi] + doc[hi..];
    if edits != [] {
      ForwardAllKept(doc, edits[1..], edits[0].end, hi);
      assert doc[lo..hi] == doc[lo..edits[0].start] + doc[edits[0].start..edits[0].end] + doc[edits[0].end..hi];
    }
  }

  /** Replacements without breaks keep a break-free region break-free. */
  predicate ReplacementsBreakFree(edits: seq<Edit>) {
    forall i :: 0 <= i < |edits| && edits[i].repl.Some? ==> BreakFree(edits[i].repl.value)
  }

  lemma {:induction false} ForwardBreakFree(doc: Doc, edits: seq<Edit>, lo: nat, hi: nat)
    requires Ascending(edits, lo, hi) && hi <= |doc|
    requires BreakFree(doc[lo..hi])
    requires ReplacementsBreakFree(edits)
    ensures BreakFree(Forward(doc, edits, lo, hi))
    decreases |edits|
  {
    if edits != [] {
      var e := edits[0];
      BreakFreeSlice(doc, lo, hi, lo, e.start);
      BreakFreeSlice(doc, lo, hi, e.start, e.end);
      BreakFreeSlice(doc, lo, hi, e.end, hi);
      assert ReplacementsBreakFree(edits[1..]) by {
        forall i | 0 <= i < |edits[1..]| && edits[1..][i].repl.Some?
          ensures BreakFree(edits[1..][i].repl.value)
        {
          assert edits[1..][i] == edits[i + 1];
        }
      }
      ForwardBreakFree(doc, edits[1..], e.end, hi);
      BreakFreeConcat(doc[lo..e.start], Replacement(doc, e));
      BreakFreeConcat(doc[lo..e.start] + Replacement(doc, e), Forward(doc, edits[1..], e.end, hi));
    }
  }

  /** Rewriting spans inside one block, with replacements that hold no break, changes that
      block of the block view and no other. */
  lemma SpliceInsideBlock(doc: Doc, block: BlockRange, edits: seq<Edit>)
    requires IsBlockRange(doc, block)
    requires Ascending(edits, block.start, block.end)
    requires ReplacementsBreakFree(edits)
    ensures BlockIndex(doc, block) < BlockCount(doc)
    ensures Blocks(doc[..block.start] + Forward(doc, edits, block.start, block.end) + doc[block.end..])
         == Blocks(doc)[BlockIndex(doc, block) := Forward(doc, edits, block.start, block.end)]
  {
    ForwardBreakFree(doc, edits, block.start, block.end);
    ReplaceInsideBlock(doc, block, Forward(doc, edits, block.start, block.end));
  }

  // ---------------------------------------------------------------------------------
  // Passes that rewrite single cells

  /** A per-cell rewriting pass: the cells `pick` selects become `rule`'s result, or stay
      when `rule` gives nothing. */
  function CellResult(pick: Cell -> bool, rule: Cell -> Option<Doc>, c: Cell): Doc {
    if pick(c) && rule(c).Some? then rule(c).value else [c]
  }

  /** Reference: every cell rewritten independently, results concatenated. */
  function RewriteCells(cells: Doc, pick: Cell -> bool, rule: Cell -> Option<Doc>): Doc {
    if cells == [] then []
    else CellResult(pick, rule, cells[0]) + RewriteCells(cells[1..], pick, rule)
  }

  lemma {:induction false} RewriteCellsAppend(a: Doc, b: Doc, pick: Cell -> bool, rule: Cell -> Option<Doc>)
    ensures RewriteCells(a + b, pick, rule) == RewriteCells(a, pick, rule) + RewriteCells(b, pick, rule)
    decreases |a|
  {
    if a == [] {
      assert a + b == b;
    } else {
      assert (a + b)[0] == a[0];
      assert (a + b)[1..] == a[1..] + b;
      RewriteCellsAppend(a[1..], b, pick, rule);
    }
  }

  /** Cells the pass does not select come through unchanged. */
  lemma {:induction false} RewriteUnpicked(cells: Doc, pick: Cell -> bool, rule: Cell -> Option<Doc>)
    requires forall i :: 0 <= i < |cells| ==> !pick(cells[i])
    ensures RewriteCells(cells, pick, rule) == cells
    decreases |cells|
  {
    if cells != [] {
      RewriteUnpicked(cells[1..], pick, rule);
      assert [cells[0]] + cells[1..] == cells;
    }
  }

  predicate NonePicked(doc: Doc, lo: nat, hi: nat, pick: Cell -> bool)
    requires lo <= hi <= |doc|
  {
    forall k :: lo <= k < hi ==> !pick(doc[k])
  }

  /** Every replacement rewrites back to the cells it replaced. */
  predicate UndoneBy(doc: Doc, edits: seq<Edit>, pick: Cell -> bool, rule: Cell -> Option<Doc>) {
    forall i :: 0 <= i < |edits| && edits[i].repl.Some? && edits[i].start <= edits[i].end <= |doc| ==>
      RewriteCells(edits[i].repl.value, pick, rule) == doc[edits[i].start..edits[i].end]
  }

  /** A per-cell pass undoes a splice when the region held no selected cell and each
      replacement rewrites back to the cells it replaced. */
  lemma {:induction false} ForwardUndone(doc: Doc, edits: seq<Edit>, lo: nat, hi: nat,
                                         pick: Cell -> bool, rule: Cell -> Option<Doc>)
    requires Sorted(edits, lo, hi) && hi <= |doc|
    requires NonePicked(doc, lo, hi, pick)
    requires UndoneBy(doc, edits, pick, rule)
    ensures Ascending(edits, lo, hi)
    ensures RewriteCells(Forward(doc, edits, lo, hi), pick, rule) == doc[lo..hi]
    decreases |edits|
  {
    SortedIsAscending(edits, lo, hi);
    if edits == [] {
      RewriteUnpickedSlice(doc, lo, hi, pick, rule);
    } else {
      var e := edits[0];
      assert forall i :: 0 <= i < |edits[1..]| ==> edits[1..][i] == edits[i + 1];
      assert Sorted(edits[1..], e.end, hi);
      ForwardUndone(doc, edits[1..], e.end, hi, pick, rule);
      UndoneStep(doc, e, Forward(doc, edits[1..], e.end, hi), lo, hi, pick, rule);
    }
  }

  lemma UndoneStep(doc: Doc, e: Edit, rest: Doc, lo: nat, hi: nat, pick: Cell -> bool, rule: Cell -> Option<Doc>)
    requires lo <= e.start <= e.end <= hi <= |doc|
    requires NonePicked(doc, lo, hi, pick)
    requires e.repl.Some? ==> RewriteCells(e.repl.value, pick, rule) == doc[e.start..e.end]
    requires RewriteCells(rest, pick, rule) == doc[e.end..hi]
    ensures RewriteCells(doc[lo..e.start] + Replacement(doc, e) + rest, pick, rule) == doc[lo..hi]
  {
    var a, r := doc[lo..e.start], Replacement(doc, e);
    if e.repl.None? {
      RewriteUnpickedSlice(doc, e.start, e.end, pick, rule);
    }
    RewriteUnpickedSlice(doc, lo, e.start, pick, rule);
    RewriteThree(a, r, rest, pick, rule);
    SliceThree(doc, lo, e.start, e.end, hi);
  }

  lemma RewriteThree(a: Doc, r: Doc, rest: Doc, pick: Cell -> bool, rule: Cell -> Option<Doc>)
    ensures RewriteCells(a + r + rest, pick, rule)
         == RewriteCells(a, pick, rule) + RewriteCells(r, pick, rule) + RewriteCells(rest, pick, rule)
  {
    RewriteCellsAppend(a + r, rest, pick, rule);
    RewriteCellsAppend(a, r, pick, rule);
  }

  lemma SliceThree(doc: Doc, lo: nat, m1: nat, m2: nat, hi: nat)
    requires lo <= m1 <= m2 <= hi <= |doc|
    ensures doc[lo..hi] == doc[lo..m1] + doc[m1..m2] + doc[m2..hi]
  {
  }

  lemma RewriteUnpickedSlice(doc: Doc, lo: nat, hi: nat, pick: Cell -> bool, rule: Cell -> Option<Doc>)
    requires lo <= hi <= |doc|
    requires forall k :: lo <= k < hi ==> !pick(doc[k])
    ensures RewriteCells(doc[lo..hi], pick, rule) == doc[lo..hi]
  {
    assert forall k :: 0 <= k < hi - lo ==> doc[lo..hi][k] == doc[lo + k];
    RewriteUnpicked(doc[lo..hi], pick, rule);
  }

  /** The edit list of a per-cell pass over `doc[i..]`: one single-cell span for every
      selected cell, in document order. */
  function CellEdits(doc: Doc, pick: Cell -> bool, rule: Cell -> Option<Doc>, i: nat): (edits: seq<Edit>)
    requires i <= |doc|
    ensures Ascending(edits, i, |doc|)
    ensures forall k :: 0 <= k < |edits| ==>
              && edits[k].end == edits[k].start + 1 <= |doc|
              && pick(doc[edits[k].start])
              && edits[k].repl == rule(doc[edits[k].start])
    decreases |doc| - i
  {
    if i == |doc| then []
    else if pick(doc[i]) then [Edit(i, i + 1, rule(doc[i]))] + CellEdits(doc, pick, rule, i + 1)
    else
      var rest := CellEdits(doc, pick, rule, i + 1);
      assert rest == [] || i <= rest[0].start;
      rest
  }

  /** Widening the region to the left adds the widened cells in front. */
  lemma ForwardWiden(doc: Doc, edits: seq<Edit>, lo: nat, mid: nat, hi: nat)
    requires Ascending(edits, mid, hi) && hi <= |doc| && lo <= mid
    ensures Ascending(edits, lo, hi)
    ensures Forward(doc, edits, lo, hi) == doc[lo..mid] + Forward(doc, edits, mid, hi)
  {
    if edits == [] {
      assert doc[lo..hi] == doc[lo..mid] + doc[mid..hi];
    } else {
      var e := edits[0];
      calc {
        Forward(doc, edits, lo, hi);
        doc[lo..e.start] + Replacement(doc, e) + Forward(doc, edits[1..], e.end, hi);
        { assert doc[lo..e.start] == doc[lo..mid] + doc[mid..e.start]; }
        doc[lo..mid] + doc[mid..e.start] + Replacement(doc, e) + Forward(doc, edits[1..], e.end, hi);
        { Regroup4(doc[lo..mid], doc[mid..e.start], Replacement(doc, e), Forward(doc, edits[1..], e.end, hi)); }
        doc[lo..mid] + (doc[mid..e.start] + Replacement(doc, e) + Forward(doc, edits[1..], e.end, hi));
        doc[lo..mid] + Forward(doc, edits, mid, hi);
      }
    }
  }

  lemma Regroup4(a: Doc, b: Doc, c: Doc, d: Doc)
    ensures a + b + c + d == a + (b + c + d)
  {
  }

  lemma RewriteCellsFront(cells: Doc, pick: Cell -> bool, rule: Cell -> Option<Doc>)
    requires cells != []
    ensures RewriteCells(cells, pick, rule) == CellResult(pick, rule, cells[0]) + RewriteCells(cells[1..], pick, rule)
  {
  }

  /** The per-cell edit list replaces exactly as the per-cell reference says. */
  lemma {:induction false} ForwardCellEdits(doc: Doc, pick: Cell -> bool, rule: Cell -> Option<Doc>, i: nat)
    requires i <= |doc|
    ensures Forward(doc, CellEdits(doc, pick, rule, i), i, |doc|) == RewriteCells(doc[i..], pick, rule)
    decreases |doc| - i
  {
    if i < |doc| {
      ForwardCellEdits(doc, pick, rule, i + 1);
      if pick(doc[i]) {
        CellStepPicked(doc, pick, rule, i);
      } else {
        CellStepSkipped(doc, pick, rule, i);
      }
    }
  }

  lemma CellStepPicked(doc: Doc, pick: Cell -> bool, rule: Cell -> Option<Doc>, i: nat)
    requires i < |doc| && pick(doc[i])
    requires Forward(doc, CellEdits(doc, pick, rule, i + 1), i + 1, |doc|) == RewriteCells(doc[i + 1..], pick, rule)
    ensures Forward(doc, CellEdits(doc, pick, rule, i), i, |doc|) == RewriteCells(doc[i..], pick, rule)
  {
    var rest := CellEdits(doc, pick, rule, i + 1);
    var e := Edit(i, i + 1, rule(doc[i]));
    var all := CellEdits(doc, pick, rule, i);
    assert all == [e] + rest;
    ForwardHead(doc, e, rest, i, |doc|);
    assert Replacement(doc, e) == CellResult(pick, rule, doc[i]) by {
      assert doc[i..i + 1] == [doc[i]];
    }
    RewriteCellsAt(doc, pick, rule, i);
  }

  /** A span before an ascending list keeps it ascending. */
  lemma AscendingCons(e: Edit, rest: seq<Edit>, lo: nat, hi: nat)
    requires lo <= e.start <= e.end && Ascending(rest, e.end, hi)
    ensures Ascending([e] + rest, lo, hi)
  {
    assert ([e] + rest)[0] == e && ([e] + rest)[1..] == rest;
  }

  /** One unfolding of the reference at a span that starts where it does. */
  lemma ForwardHead(doc: Doc, e: Edit, rest: seq<Edit>, lo: nat, hi: nat)
    requires Ascending([e] + rest, lo, hi) && hi <= |doc| && e.start == lo
    ensures Ascending(rest, e.end, hi)
    ensures Forward(doc, [e] + rest, lo, hi) == Replacement(doc, e) + Forward(doc, rest, e.end, hi)
  {
    var all := [e] + rest;
    assert all[0] == e && all[1..] == rest;
    assert doc[lo..e.start] == [];
  }

  /** The reference at a position: the cell there, then the rest. */
  lemma RewriteCellsAt(doc: Doc, pick: Cell -> bool, rule: Cell -> Option<Doc>, i: nat)
    requires i < |doc|
    ensures RewriteCells(doc[i..], pick, rule) == CellResult(pick, rule, doc[i]) + RewriteCells(doc[i + 1..], pick, rule)
  {
    assert doc[i..][0] == doc[i] && doc[i..][1..] == doc[i + 1..];
    RewriteCellsFront(doc[i..], pick, rule);
  }

  lemma CellStepSkipped(doc: Doc, pick: Cell -> bool, rule: Cell -> Option<Doc>, i: nat)
    requires i < |doc| && !pick(doc[i])
    requires Forward(doc, CellEdits(doc, pick, rule, i + 1), i + 1, |doc|) == RewriteCells(doc[i + 1..], pick, rule)
    ensures Forward(doc, CellEdits(doc, pick, rule, i), i, |doc|) == RewriteCells(doc[i..], pick, rule)
  {
    var rest := CellEdits(doc, pick, rule, i + 1);
    assert CellEdits(doc, pick, rule, i) == rest;
    ForwardWiden(doc, rest, i, i + 1, |doc|);
    assert doc[i..i + 1] == [doc[i]] == CellResult(pick, rule, doc[i]);
    RewriteCellsAt(doc, pick, rule, i);
  }

  /** A per-cell pass run through the cursor loop, last selected cell first, is the
      per-cell reference. */
  lemma CellPass(doc: Doc, pick: Cell -> bool, rule: Cell -> Option<Doc>)
    ensures Descending(Reverse(CellEdits(doc, pick, rule, 0)), |doc|)
    ensures ApplyEach(doc, Reverse(CellEdits(doc, pick, rule, 0))) == RewriteCells(doc, pick, rule)
  {
    var edits := CellEdits(doc, pick, rule, 0);
    ApplyDescending(doc, edits, 0, |doc|);
    ForwardCellEdits(doc, pick, rule, 0);
    assert doc[..0] == [] && doc[|doc|..] == [] && doc[0..] == doc;
  }

  /** The same order stated pointwise: every span inside `[lo, hi)`, each ending before the
      later one starts. */
  predicate Sorted(edits: seq<Edit>, lo: nat, hi: nat) {
    && lo <= hi
    && (forall i :: 0 <= i < |edits| ==> lo <= edits[i].start <= edits[i].end <= hi)
    && (forall i, j :: 0 <= i < j < |edits| ==> edits[i].end <= edits[j].start)
  }

  lemma {:induction false} SortedIsAscending(edits: seq<Edit>, lo: nat, hi: nat)
    requires Sorted(edits, lo, hi)
    ensures Ascending(edits, lo, hi)
    decreases |edits|
  {
    if edits != [] {
      assert forall i :: 0 <= i < |edits[1..]| ==> edits[1..][i] == edits[i + 1];
      SortedIsAscending(edits[1..], edits[0].end, hi);
    }
  }

  // ---------------------------------------------------------------------------------
  // Cell properties a splice keeps

  predicate AllCells(cells: Doc, ok: Cell -> bool) {
    forall k :: 0 <= k < |cells| ==> ok(cells[k])
  }

  lemma AllCellsAppend(a: Doc, b: Doc, ok: Cell -> bool)
    requires AllCells(a, ok) && AllCells(b, ok)
    ensures AllCells(a + b, ok)
  {
    forall k | 0 <= k < |a + b|
      ensures ok((a + b)[k])
    {
      if k >= |a| {
        assert (a + b)[k] == b[k - |a|];
      }
    }
  }

  lemma AllCellsSlice(doc: Doc, lo: nat, hi: nat, a: nat, b: nat, ok: Cell -> bool)
    requires lo <= a <= b <= hi <= |doc|
    requires AllCells(doc[lo..hi], ok)
    ensures AllCells(doc[a..b], ok)
  {
    forall k | 0 <= k < b - a
      ensures ok(doc[a..b][k])
    {
      assert doc[a..b][k] == doc[lo..hi][k + a - lo];
    }
  }

  /** When every cell of `[lo, hi)` and every replacement cell has a property, every cell of
      the spliced result has it. */
  lemma {:induction false} ForwardAllCells(doc: Doc, edits: seq<Edit>, lo: nat, hi: nat, ok: Cell -> bool)
    requires Ascending(edits, lo, hi) && hi <= |doc|
    requires AllCells(doc[lo..hi], ok)
    requires forall i :: 0 <= i < |edits| && edits[i].repl.Some? ==> AllCells(edits[i].repl.value, ok)
    ensures AllCells(Forward(doc, edits, lo, hi), ok)
    decreases |edits|
  {
    if edits != [] {
      var e := edits[0];
      assert forall i :: 0 <= i < |edits[1..]| ==> edits[1..][i] == edits[i + 1];
      ForwardAllCells(doc, edits[1..], e.end, hi, ok);
      AllCellsSlice(doc, lo, hi, lo, e.start, ok);
      AllCellsSlice(doc, lo, hi, e.start, e.end, ok);
      AllCellsSlice(doc, lo, hi, e.end, hi, ok);
      AllCellsAppend(doc[lo..e.start], Replacement(doc, e), ok);
      AllCellsAppend(doc[lo..e.start] + Replacement(doc, e), Forward(doc, edits[1..], e.end, hi), ok);
    }
  }

  // ---------------------------------------------------------------------------------
  // Passes that can raise part-way

  /** How far the last-first walk has come once the edits from `j` on are done: the end of
      edit `j - 1`, or `lo` when every edit is done. */
  function DoneFrom(edits: seq<Edit>, lo: nat, j: nat): nat
    requires j <= |edits|
  {
    if j == 0 then lo else edits[j - 1].end
  }

  /** The edits still ahead of the walk's position are ascending from where it stands. */
  lemma {:induction false} AscendingFrom(edits: seq<Edit>, lo: nat, hi: nat, j: nat)
    requires Ascending(edits, lo, hi) && j <= |edits|
    ensures Ascending(edits[j..], DoneFrom(edits, lo, j), hi)
    decreases j
  {
    if j == 0 {
      assert edits[0..] == edits;
    } else {
      AscendingFrom(edits[1..], edits[0].end, hi, j - 1);
      assert edits[1..][j - 1..] == edits[j..];
      if j > 1 {
        assert edits[1..][j - 2] == edits[j - 1];
      }
    }
  }

  /** The walk raised at edit `k`: `k` is the last edit whose flag is set, it was not
      applied, and every edit after it was. */
  predicate StoppedAt(doc: Doc, edits: seq<Edit>, stops: seq<bool>, lo: nat, hi: nat, k: nat, partial: Doc)
    requires Ascending(edits, lo, hi) && hi <= |doc| && |stops| == |edits|
  {
    && k < |edits| && stops[k]
    && (forall m :: k < m < |edits| ==> !stops[m])
    && (AscendingFrom(edits, lo, hi, k + 1);
        partial == doc[..edits[k].end] + Forward(doc, edits[k + 1..], edits[k].end, hi) + doc[hi..])
  }

  /** The cursor loop of a pass that can raise: the edits are applied from the last to the
      first, and the first one met whose flag is set raises before anything is inserted
      over its span. */
  method ApplyUntil(doc: Doc, edits: seq<Edit>, stops: seq<bool>, lo: nat, hi: nat) returns (r: Outcome<Doc>)
    requires Ascending(edits, lo, hi) && hi <= |doc| && |stops| == |edits|
    ensures r.Completed? <==> forall m :: 0 <= m < |stops| ==> !stops[m]
    ensures r.Completed? ==> r.value == doc[..lo] + Forward(doc, edits, lo, hi) + doc[hi..]
    ensures r.Raised? ==> exists k :: StoppedAt(doc, edits, stops, lo, hi, k, r.partial)
  {
    var cur := doc;
    var j := |edits|;
    AscendingFrom(edits, lo, hi, j);
    assert edits[j..] == [];
    assert doc == doc[..DoneFrom(edits, lo, j)] + doc[DoneFrom(edits, lo, j)..hi] + doc[hi..];
    while j > 0
      invariant j <= |edits|
      invariant Ascending(edits[j..], DoneFrom(edits, lo, j), hi)
      invariant cur == doc[..DoneFrom(edits, lo, j)] + Forward(doc, edits[j..], DoneFrom(edits, lo, j), hi) + doc[hi..]
      invariant forall m :: j <= m < |edits| ==> !stops[m]
    {
      var k := j - 1;
      if stops[k] {
        assert StoppedAt(doc, edits, stops, lo, hi, k, cur);
        return Raised(cur);
      }
      AscendingFrom(edits, lo, hi, k);
      assert edits[k..] == [edits[k]] + edits[j..];
      UntilStep(doc, edits[k], edits[j..], DoneFrom(edits, lo, k), hi, cur);
      cur := Apply1(cur, edits[k]);
      j := k;
    }
    return Completed(cur);
  }

  /** One turn of the walk: applying the next edit to the document walked so far extends
      the rewritten tail by that edit. */
  lemma UntilStep(doc: Doc, e: Edit, rest: seq<Edit>, b: nat, hi: nat, cur: Doc)
    requires Ascending([e] + rest, b, hi) && hi <= |doc|
    requires Ascending(rest, e.end, hi)
    requires cur == doc[..e.end] + Forward(doc, rest, e.end, hi) + doc[hi..]
    ensures e.start <= e.end <= |cur|
    ensures Apply1(cur, e) == doc[..b] + Forward(doc, [e] + rest, b, hi) + doc[hi..]
  {
    var tail := Forward(doc, rest, e.end, hi);
    ForwardHeadAt(doc, e, rest, b, hi);
    SpliceOnPrefix(doc, cur, e, tail + doc[hi..]);
    JoinAt(doc, b, e.start, Replacement(doc, e), tail, hi);
  }

  lemma JoinAt(doc: Doc, b: nat, st: nat, r: Doc, tail: Doc, hi: nat)
    requires b <= st <= hi <= |doc|
    ensures doc[..st] + r + (tail + doc[hi..]) == doc[..b] + (doc[b..st] + r + tail) + doc[hi..]
  {
    assert doc[..st] == doc[..b] + doc[b..st];
  }

  /** One unfolding of the reference at its first span. */
  lemma ForwardHeadAt(doc: Doc, e: Edit, rest: seq<Edit>, lo: nat, hi: nat)
    requires Ascending([e] + rest, lo, hi) && hi <= |doc|
    ensures lo <= e.start <= e.end <= hi && Ascending(rest, e.end, hi)
    ensures Forward(doc, [e] + rest, lo, hi) == doc[lo..e.start] + Replacement(doc, e) + Forward(doc, rest, e.end, hi)
  {
    assert ([e] + rest)[0] == e && ([e] + rest)[1..] == rest;
  }

  /** Splicing a document that agrees with `doc` up to the end of the span. */
  lemma SpliceOnPrefix(doc: Doc, cur: Doc, e: Edit, t: Doc)
    requires e.start <= e.end <= |doc| && cur == doc[..e.end] + t
    ensures e.end <= |cur|
    ensures Apply1(cur, e) == doc[..e.start] + Replacement(doc, e) + t
  {
    assert cur[..e.start] == doc[..e.start];
    assert cur[e.start..e.end] == doc[e.start..e.end];
    assert cur[e.end..] == t;
  }

  /** A per-cell walk standing at `b` may move down to `p + 1` across cells it does not
      pick. */
  lemma SkipUnpicked(doc: Doc, p: nat, b: nat, pick: Cell -> bool, rule: Cell -> Option<Doc>, cur: Doc)
    requires p < b <= |doc|
    requires forall q :: p < q < b ==> !pick(doc[q])
    requires cur == doc[..b] + RewriteCells(doc[b..], pick, rule)
    ensures cur == doc[..p + 1] + RewriteCells(doc[p + 1..], pick, rule)
  {
    var head, mid, rest := doc[..p + 1], doc[p + 1..b], doc[b..];
    SplitAt(doc, p + 1, b);
    RewriteCellsAppend(mid, rest, pick, rule);
    UnpickedSliceKept(doc, p + 1, b, pick, rule);
    ConcatAssoc(head, mid, RewriteCells(rest, pick, rule));
  }

  lemma SplitAt(doc: Doc, i: nat, j: nat)
    requires i <= j <= |doc|
    ensures doc[i..] == doc[i..j] + doc[j..]
    ensures doc[..j] == doc[..i] + doc[i..j]
  {
  }

  lemma UnpickedSliceKept(doc: Doc, lo: nat, hi: nat, pick: Cell -> bool, rule: Cell -> Option<Doc>)
    requires lo <= hi <= |doc|
    requires forall q :: lo <= q < hi ==> !pick(doc[q])
    ensures RewriteCells(doc[lo..hi], pick, rule) == doc[lo..hi]
  {
    var mid := doc[lo..hi];
    forall k | 0 <= k < |mid|
      ensures !pick(mid[k])
    {
      assert mid[k] == doc[lo + k];
    }
    RewriteUnpicked(mid, pick, rule);
  }

  /** A per-cell walk standing at `b`, with nothing picked before `b`, is done. */
  lemma UnpickedPrefix(doc: Doc, b: nat, pick: Cell -> bool, rule: Cell -> Option<Doc>, cur: Doc)
    requires b <= |doc|
    requires forall q :: 0 <= q < b ==> !pick(doc[q])
    requires cur == doc[..b] + RewriteCells(doc[b..], pick, rule)
    ensures cur == RewriteCells(doc, pick, rule)
  {
    SplitAt(doc, 0, b);
    assert doc[0..] == doc && doc[..0] == [];
    RewriteCellsAppend(doc[0..b], doc[b..], pick, rule);
    UnpickedSliceKept(doc, 0, b, pick, rule);
  }

  /** One picked cell of a per-cell walk: writing the rule's cells over it, or leaving it,
      extends the rewritten tail by that cell. */
  lemma PickedCellStep(doc: Doc, p: nat, pick: Cell -> bool, rule: Cell -> Option<Doc>, cur: Doc)
    requires p < |doc| && pick(doc[p])
    requires cur == doc[..p + 1] + RewriteCells(doc[p + 1..], pick, rule)
    ensures p + 1 <= |cur|
    ensures rule(doc[p]).Some? ==> Apply1(cur, Edit(p, p + 1, rule(doc[p]))) == doc[..p] + RewriteCells(doc[p..], pick, rule)
    ensures rule(doc[p]).None? ==> cur == doc[..p] + RewriteCells(doc[p..], pick, rule)
  {
    var tail := RewriteCells(doc[p + 1..], pick, rule);
    var c := CellResult(pick, rule, doc[p]);
    RewriteCellsAt(doc, pick, rule, p);
    if rule(doc[p]).Some? {
      var e := Edit(p, p + 1, rule(doc[p]));
      SpliceOnPrefix(doc, cur, e, tail);
      assert Replacement(doc, e) == c;
      ConcatAssoc(doc[..p], c, tail);
    } else {
      SplitAt(doc, p, p + 1);
      assert doc[p..p + 1] == [doc[p]] == c;
      ConcatAssoc(doc[..p], c, tail);
    }
  }
}
