/** The current accordion, as a container.

    It keeps its items in insertion order, the section the scroll position last entered,
    and the animation defaults it gives new sections and passes on to existing ones.
    The item class this revision uses (`qextrawidgets/widgets/accordion_item.py`) is not
    part of this model: an item is a record of what the container reads (its identity
    and geometry) and what it sets, and its setters are taken to store what they are
    given. */
module Accordion {
  import opened Util
  import opened AccordionItem

  /** A `QEasingCurve.Type`, by name. */
  datatype Easing = Easing(name: string)

  const DefaultEasing := Easing("InOutQuart")
  const DefaultDuration := 200

  /** An item as the container sees it. `id` stands for the widget's identity, which is
      what `==` compares; `y` and `height` are its geometry in the scrolled content. */
  datatype Section = Section(
    id: nat,
    y: int,
    height: int,
    expanded: bool,
    animationEnabled: bool,
    animationDuration: int,
    animationEasing: Easing,
    iconPosition: PositionArg,
    iconStyle: int,
    flat: bool)

  datatype Accordion = Accordion(
    items: seq<Section>,
    active: Option<nat>,
    animationEnabled: bool,
    animationDuration: int,
    animationEasing: Easing)

  /** The signals `_on_scroll` emits, each with the item it carries. */
  datatype Signal = EnteredSection(id: nat) | LeftSection(id: nat)

  /** The constructor: no items, no active section, animations on for 200 ms, InOutQuart. */
  function NewAccordion(): (a: Accordion)
    ensures a.items == [] && a.active.None?
    ensures a.animationEnabled && a.animationDuration == 200 && a.animationEasing == Easing("InOutQuart")
  {
    Accordion([], None, true, DefaultDuration, DefaultEasing)
  }

  // ---------------------------------------------------------------------------------
  // Section tracking

  /** The scroll value lies on the item (both edges included) and the item is not the
      active section. */
  predicate Enters(s: Section, active: Option<nat>, value: int) {
    s.y <= value <= s.y + s.height && active != Some(s.id)
  }

  /** The first item from `from` on that the value enters. */
  function FirstEntered(items: seq<Section>, active: Option<nat>, value: int, from: nat): (k: Option<nat>)
    requires from <= |items|
    ensures k.Some? ==> from <= k.value < |items| && Enters(items[k.value], active, value)
    ensures k.Some? ==> forall j :: from <= j < k.value ==> !Enters(items[j], active, value)
    ensures k.None? ==> forall j :: from <= j < |items| ==> !Enters(items[j], active, value)
    decreases |items| - from
  {
    if from == |items| then None
    else if Enters(items[from], active, value) then Some(from)
    else FirstEntered(items, active, value, from + 1)
  }

  /** `_on_scroll(value)` as written: the first item entered becomes the active section;
      `enteredSection` is emitted with it and, when a section was active, `leftSection`
      is emitted with the same, newly entered item. */
  function OnScrollAsWritten(a: Accordion, value: int): (r: (Accordion, seq<Signal>))
    ensures FirstEntered(a.items, a.active, value, 0).None? ==> r == (a, [])
    ensures FirstEntered(a.items, a.active, value, 0).Some? ==>
              var s := a.items[FirstEntered(a.items, a.active, value, 0).value];
              && r.0 == a.(active := Some(s.id))
              && r.1 == [EnteredSection(s.id)] + (if a.active.Some? then [LeftSection(s.id)] else [])
  {
    match FirstEntered(a.items, a.active, value, 0)
    case None => (a, [])
    case Some(k) =>
      var s := a.items[k];
      (a.(active := Some(s.id)), [EnteredSection(s.id)] + (if a.active.Some? then [LeftSection(s.id)] else []))
  }

  /** `_on_scroll(value)` with `leftSection` carrying the section that was left. */
  function OnScroll(a: Accordion, value: int): (r: (Accordion, seq<Signal>))
    ensures FirstEntered(a.items, a.active, value, 0).None? ==> r == (a, [])
    ensures FirstEntered(a.items, a.active, value, 0).Some? ==>
              var s := a.items[FirstEntered(a.items, a.active, value, 0).value];
              && r.0 == a.(active := Some(s.id))
              && r.1 == [EnteredSection(s.id)] + (if a.active.Some? then [LeftSection(a.active.value)] else [])
  {
    match FirstEntered(a.items, a.active, value, 0)
    case None => (a, [])
    case Some(k) =>
      var s := a.items[k];
      (a.(active := Some(s.id)), [EnteredSection(s.id)] + (if a.active.Some? then [LeftSection(a.active.value)] else []))
  }

  /** Section tracking, stated without the search: the new active section is an item the
      value lies on, different from the old one, with no such item before it; and nothing
      changes exactly when there is none. */
  lemma {:induction false} OnScrollPicksFirst(a: Accordion, value: int)
    ensures var r := OnScroll(a, value);
            && (r.1 == [] <==> forall j :: 0 <= j < |a.items| ==> !Enters(a.items[j], a.active, value))
            && (r.1 != [] ==>
                  exists k :: 0 <= k < |a.items| && Enters(a.items[k], a.active, value)
                           && (forall j :: 0 <= j < k ==> !Enters(a.items[j], a.active, value))
                           && r.0.active == Some(a.items[k].id) && r.1[0] == EnteredSection(a.items[k].id))
  {
    var k := FirstEntered(a.items, a.active, value, 0);
    if k.Some? {
      assert Enters(a.items[k.value], a.active, value);
    }
  }

  /** Two stacked sections, the first active: scrolling into the second emits
      `leftSection` with the second as written, with the first once corrected. */
  lemma LeftSectionCarriesEnteredItem()
    ensures var a := Accordion([Section(1, 0, 100, false, true, 200, DefaultEasing, Position(Leading), Arrow, false),
                                Section(2, 101, 100, false, true, 200, DefaultEasing, Position(Leading), Arrow, false)],
                               Some(1), true, 200, DefaultEasing);
            && OnScrollAsWritten(a, 150).1 == [EnteredSection(2), LeftSection(2)]
            && OnScroll(a, 150).1 == [EnteredSection(2), LeftSection(1)]
  {
    var a := Accordion([Section(1, 0, 100, false, true, 200, DefaultEasing, Position(Leading), Arrow, false),
                        Section(2, 101, 100, false, true, 200, DefaultEasing, Position(Leading), Arrow, false)],
                       Some(1), true, 200, DefaultEasing);
    assert !Enters(a.items[0], a.active, 150);
    assert FirstEntered(a.items, a.active, 150, 1) == Some(1);
  }

  // ---------------------------------------------------------------------------------
  // Item management

  /** `insertAccordionItem(item, position)`: the item list grows at its end whatever the
      position (which only places the widget in the layout). */
  function InsertAccordionItem(a: Accordion, s: Section, position: int): (r: Accordion)
    ensures r.items == a.items + [s]
    ensures r == a.(items := r.items)
  {
    a.(items := a.items + [s])
  }

  /** `insertSection`: a freshly built item is given the current animation defaults and
      inserted; it is returned with the accordion. */
  function InsertSection(a: Accordion, built: Section, position: int): (r: (Accordion, Section))
    ensures r.1 == built.(animationEnabled := a.animationEnabled, animationDuration := a.animationDuration,
                          animationEasing := a.animationEasing)
    ensures r.0.items == a.items + [r.1]
  {
    var s := built.(animationEnabled := a.animationEnabled, animationDuration := a.animationDuration,
                    animationEasing := a.animationEasing);
    (InsertAccordionItem(a, s, position), s)
  }

  /** The index of the first item with the given identity. */
  function IndexOf(items: seq<Section>, id: nat, from: nat): (k: Option<nat>)
    requires from <= |items|
    ensures k.Some? ==> from <= k.value < |items| && items[k.value].id == id
    ensures k.Some? ==> forall j :: from <= j < k.value ==> items[j].id != id
    ensures k.None? ==> forall j :: from <= j < |items| ==> items[j].id != id
    decreases |items| - from
  {
    if from == |items| then None
    else if items[from].id == id then Some(from)
    else IndexOf(items, id, from + 1)
  }

  /** `removeAccordionItem`: `list.remove` takes out the first occurrence of the item, and
      raises (`None`) when the item is not in the list. The active section is kept. */
  function RemoveAccordionItem(a: Accordion, id: nat): (r: Option<Accordion>)
    ensures r.None? <==> forall j :: 0 <= j < |a.items| ==> a.items[j].id != id
    ensures r.Some? ==> |r.value.items| == |a.items| - 1 && r.value == a.(items := r.value.items)
    ensures r.Some? ==> exists k :: 0 <= k < |a.items| && a.items[k].id == id
                          && (forall j :: 0 <= j < k ==> a.items[j].id != id)
                          && r.value.items == a.items[..k] + a.items[k + 1..]
  {
    match IndexOf(a.items, id, 0)
    case None => None
    case Some(k) => Some(a.(items := a.items[..k] + a.items[k + 1..]))
  }

  /** Inserting an item with a new identity and removing it gives the list back. */
  lemma InsertThenRemove(a: Accordion, s: Section, position: int)
    requires forall j :: 0 <= j < |a.items| ==> a.items[j].id != s.id
    ensures RemoveAccordionItem(InsertAccordionItem(a, s, position), s.id) == Some(a)
  {
    var items := a.items + [s];
    assert IndexOf(items, s.id, 0) == Some(|a.items|) by {
      assert items[|a.items|].id == s.id;
      assert forall j :: 0 <= j < |a.items| ==> items[j] == a.items[j];
    }
    assert items[..|a.items|] + items[|a.items| + 1..] == a.items;
  }

  // ---------------------------------------------------------------------------------
  // Settings passed on to every item

  function SetIconPosition(a: Accordion, arg: PositionArg): (r: Accordion)
    ensures |r.items| == |a.items| && r == a.(items := r.items)
    ensures forall i :: 0 <= i < |a.items| ==> r.items[i] == a.items[i].(iconPosition := arg)
  {
    a.(items := seq(|a.items|, i requires 0 <= i < |a.items| => a.items[i].(iconPosition := arg)))
  }

  function SetIconStyle(a: Accordion, style: int): (r: Accordion)
    ensures |r.items| == |a.items| && r == a.(items := r.items)
    ensures forall i :: 0 <= i < |a.items| ==> r.items[i] == a.items[i].(iconStyle := style)
  {
    a.(items := seq(|a.items|, i requires 0 <= i < |a.items| => a.items[i].(iconStyle := style)))
  }

  function SetFlat(a: Accordion, flat: bool): (r: Accordion)
    ensures |r.items| == |a.items| && r == a.(items := r.items)
    ensures forall i :: 0 <= i < |a.items| ==> r.items[i] == a.items[i].(flat := flat)
  {
    a.(items := seq(|a.items|, i requires 0 <= i < |a.items| => a.items[i].(flat := flat)))
  }

  /** `setAnimationEnabled`: the default and every item. */
  function SetAnimationEnabled(a: Accordion, enabled: bool): (r: Accordion)
    ensures r.animationEnabled == enabled && |r.items| == |a.items|
    ensures forall i :: 0 <= i < |a.items| ==> r.items[i] == a.items[i].(animationEnabled := enabled)
    ensures r.active == a.active && r.animationDuration == a.animationDuration && r.animationEasing == a.animationEasing
  {
    Accordion(seq(|a.items|, i requires 0 <= i < |a.items| => a.items[i].(animationEnabled := enabled)),
              a.active, enabled, a.animationDuration, a.animationEasing)
  }

  /** `setAnimationDuration`: the default and every item. */
  function SetAnimationDuration(a: Accordion, duration: int): (r: Accordion)
    ensures r.animationDuration == duration && |r.items| == |a.items|
    ensures forall i :: 0 <= i < |a.items| ==> r.items[i] == a.items[i].(animationDuration := duration)
    ensures r.active == a.active && r.animationEnabled == a.animationEnabled && r.animationEasing == a.animationEasing
  {
    Accordion(seq(|a.items|, i requires 0 <= i < |a.items| => a.items[i].(animationDuration := duration)),
              a.active, a.animationEnabled, duration, a.animationEasing)
  }

  /** `setAnimationEasing`: the default and every item. */
  function SetAnimationEasing(a: Accordion, easing: Easing): (r: Accordion)
    ensures r.animationEasing == easing && |r.items| == |a.items|
    ensures forall i :: 0 <= i < |a.items| ==> r.items[i] == a.items[i].(animationEasing := easing)
    ensures r.active == a.active && r.animationEnabled == a.animationEnabled && r.animationDuration == a.animationDuration
  {
    Accordion(seq(|a.items|, i requires 0 <= i < |a.items| => a.items[i].(animationEasing := easing)),
              a.active, a.animationEnabled, a.animationDuration, easing)
  }

  /** After the animation setters, existing items and any section inserted later share the
      values set. */
  lemma AnimationSettingsReachNewSections(a: Accordion, enabled: bool, duration: int, easing: Easing,
                                          built: Section, position: int)
    ensures var b := SetAnimationEasing(SetAnimationDuration(SetAnimationEnabled(a, enabled), duration), easing);
            var r := InsertSection(b, built, position);
            forall i :: 0 <= i < |r.0.items| ==>
              r.0.items[i].animationEnabled == enabled && r.0.items[i].animationDuration == duration
              && r.0.items[i].animationEasing == easing
  {
  }

  /** `expandAll`: every item expanded. */
  function ExpandAll(a: Accordion): (r: Accordion)
    ensures |r.items| == |a.items| && r == a.(items := r.items)
    ensures forall i :: 0 <= i < |a.items| ==> r.items[i] == a.items[i].(expanded := true)
  {
    a.(items := seq(|a.items|, i requires 0 <= i < |a.items| => a.items[i].(expanded := true)))
  }

  /** `collapseAll`: every item collapsed. */
  function CollapseAll(a: Accordion): (r: Accordion)
    ensures |r.items| == |a.items| && r == a.(items := r.items)
    ensures forall i :: 0 <= i < |a.items| ==> r.items[i] == a.items[i].(expanded := false)
  {
    a.(items := seq(|a.items|, i requires 0 <= i < |a.items| => a.items[i].(expanded := false)))
  }

  /** Expanding and collapsing everything only touch the expanded flags: doing one after
      the other is the same as doing the second alone. */
  lemma ExpandCollapseLastWins(a: Accordion)
    ensures CollapseAll(ExpandAll(a)) == CollapseAll(a)
    ensures ExpandAll(CollapseAll(a)) == ExpandAll(a)
  {
    assert CollapseAll(ExpandAll(a)).items == CollapseAll(a).items;
    assert ExpandAll(CollapseAll(a)).items == ExpandAll(a).items;
  }
}
