/** The older accordion: a list of items in a scroll area. Sections are appended; the
    indicator position, indicator style and flat look are passed on to every item;
    everything can be expanded or collapsed at once; scrolling to an item opens it first. */
module LegacyAccordion {
  import opened AccordionItem

  datatype Accordion = Accordion(items: seq<Item>)

  /** Every item's header agrees with its content. */
  predicate AllConsistent(a: Accordion) {
    forall i :: 0 <= i < |a.items| ==> Consistent(a.items[i])
  }

  function NewAccordion(): (a: Accordion)
    ensures a.items == [] && AllConsistent(a)
  {
    Accordion([])
  }

  /** `addSection`: a new item at the end; its index is returned with the accordion. */
  function AddSection(a: Accordion, title: string): (r: (Accordion, nat))
    ensures r.0.items == a.items + [NewItem(title)]
    ensures r.1 == |a.items| && r.1 < |r.0.items| && r.0.items[r.1] == NewItem(title)
    ensures AllConsistent(a) ==> AllConsistent(r.0)
  {
    (Accordion(a.items + [NewItem(title)]), |a.items|)
  }

  /** `setIconPosition`: passed on to every item. */
  function SetIconPosition(a: Accordion, arg: PositionArg): (r: Accordion)
    ensures |r.items| == |a.items|
    ensures forall i :: 0 <= i < |a.items| ==> r.items[i] == AccordionItem.SetIconPosition(a.items[i], arg)
    ensures arg.OtherPosition? ==> r == a
    ensures arg.Position? ==> forall i :: 0 <= i < |r.items| ==> r.items[i].header.position == arg.position
    ensures AllConsistent(a) ==> AllConsistent(r)
  {
    Accordion(seq(|a.items|, i requires 0 <= i < |a.items| => AccordionItem.SetIconPosition(a.items[i], arg)))
  }

  /** `setIconStyle`: passed on to every item. */
  function SetIconStyle(a: Accordion, style: int): (r: Accordion)
    ensures |r.items| == |a.items|
    ensures forall i :: 0 <= i < |a.items| ==> r.items[i] == AccordionItem.SetIconStyle(a.items[i], style)
    ensures style != Arrow && style != PlusMinus ==> r == a
    ensures style == Arrow || style == PlusMinus ==> forall i :: 0 <= i < |r.items| ==> r.items[i].header.style == style
    ensures AllConsistent(a) ==> AllConsistent(r)
  {
    Accordion(seq(|a.items|, i requires 0 <= i < |a.items| => AccordionItem.SetIconStyle(a.items[i], style)))
  }

  /** `setFlat`: every header ends flat or raised as asked. */
  function SetFlat(a: Accordion, flat: bool): (r: Accordion)
    ensures |r.items| == |a.items|
    ensures forall i :: 0 <= i < |a.items| ==> IsFlat(r.items[i].header) == flat
    ensures forall i :: 0 <= i < |a.items| ==>
              r.items[i].header.expanded == a.items[i].header.expanded
              && r.items[i].contentVisible == a.items[i].contentVisible
    ensures AllConsistent(a) ==> AllConsistent(r)
  {
    Accordion(seq(|a.items|, i requires 0 <= i < |a.items| => AccordionItem.SetFlat(a.items[i], flat)))
  }

  /** `expandAll`: every item's flags say expanded, which `isExpanded` reports once the
      accordion is shown. */
  function ExpandAll(a: Accordion): (r: Accordion)
    ensures |r.items| == |a.items|
    ensures forall i :: 0 <= i < |r.items| ==> r.items[i].header.expanded && r.items[i].contentVisible
    ensures forall i, shown :: 0 <= i < |r.items| ==> IsExpanded(r.items[i], shown) == shown
    ensures AllConsistent(a) ==> AllConsistent(r)
  {
    Accordion(seq(|a.items|, i requires 0 <= i < |a.items| => SetExpanded(a.items[i], true)))
  }

  /** `collapseAll`: no item expanded. */
  function CollapseAll(a: Accordion): (r: Accordion)
    ensures |r.items| == |a.items|
    ensures forall i :: 0 <= i < |r.items| ==> !r.items[i].header.expanded && !r.items[i].contentVisible
    ensures forall i, shown :: 0 <= i < |r.items| ==> !IsExpanded(r.items[i], shown)
    ensures AllConsistent(a) ==> AllConsistent(r)
  {
    Accordion(seq(|a.items|, i requires 0 <= i < |a.items| => SetExpanded(a.items[i], false)))
  }

  /** `scrollToItem`'s effect on the target: toggled when its content is not visible, left
      alone when it is (the scrolling itself is not modelled). Under a hidden ancestor the
      toggle expands, so the target's flags end expanded either way. */
  function ScrollToItem(it: Item, shown: bool): (r: Item)
    ensures r.contentVisible
    ensures Visible(it, shown) ==> r == it
    ensures Consistent(it) ==> Consistent(r) && r.header.expanded && IsExpanded(r, shown) == shown
  {
    if !Visible(it, shown) then Toggle(it, shown) else it
  }

  /** Expanding everything and then collapsing everything leaves each item as collapsing
      alone would. */
  lemma CollapseAfterExpand(a: Accordion)
    ensures CollapseAll(ExpandAll(a)).items == CollapseAll(a).items
  {
  }

  /** A section added after `expandAll` starts collapsed: the accordion remembers no
      default. */
  lemma AddedSectionStartsCollapsed(a: Accordion, title: string)
    ensures var r := AddSection(ExpandAll(a), title);
            !IsExpanded(r.0.items[r.1], true)
            && forall i :: 0 <= i < |a.items| ==> IsExpanded(r.0.items[i], true)
  {
  }
}
