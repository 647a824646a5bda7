/** The accordion's header and item, as records.

    A header keeps whether it shows its section expanded, where its indicator sits
    (before or after the title) and how the indicator is drawn (an arrow or a plus/minus
    sign). The indicator's icon name follows the style and the expanded flag; the header's
    row holds the indicator and the title in the order the position asks for. An item is a
    header over a content widget whose visibility is the other half of "expanded". */
module AccordionItem {

  /** `QLineEdit.ActionPosition`, the two positions the header accepts. */
  datatype IconPosition = Leading | Trailing

  /** What a caller may pass for a position: one of the two, or any other value. */
  datatype PositionArg = Position(position: IconPosition) | OtherPosition

  /** The values of the `IndicatorStyle` integer enumeration (`auto()` counts from 1). A
      style is passed and stored as its integer. */
  const Arrow: int := 1
  const PlusMinus: int := 2

  /** The widgets of the header's row. */
  datatype HeaderWidget = IconButton | TitleLabel

  /** The two frame shapes `setFlat` chooses between. */
  datatype FrameStyle = NoFrame | StyledPanelRaised

  datatype Header = Header(
    title: string,
    expanded: bool,
    position: IconPosition,
    style: int,
    icon: string,
    row: seq<HeaderWidget>,
    frame: FrameStyle,
    autoFillBackground: bool)

  datatype Item = Item(header: Header, contentVisible: bool)

  /** `updateIcon`'s choice of icon; the empty name (an unknown style) sets no icon. */
  function IconName(style: int, expanded: bool): (name: string)
    ensures style == Arrow ==> name == (if expanded then "fa6s.angle-down" else "fa6s.angle-right")
    ensures style == PlusMinus ==> name == (if expanded then "fa6s.minus" else "fa6s.plus")
    ensures name == "" <==> style != Arrow && style != PlusMinus
  {
    if style == Arrow then (if expanded then "fa6s.angle-down" else "fa6s.angle-right")
    else if style == PlusMinus then (if expanded then "fa6s.minus" else "fa6s.plus")
    else ""
  }

  /** `updateIcon`: the button's icon changes only when a name was chosen. */
  function UpdateIcon(h: Header): (r: Header)
    ensures (h.style == Arrow || h.style == PlusMinus) ==> r.icon == IconName(h.style, h.expanded)
    ensures h.style != Arrow && h.style != PlusMinus ==> r == h
    ensures r == h.(icon := r.icon)
  {
    var name := IconName(h.style, h.expanded);
    if name != "" then h.(icon := name) else h
  }

  /** `refreshLayout`: the row is emptied, then refilled in the order the position asks for. */
  function RefreshLayout(h: Header): (r: Header)
    ensures |r.row| == 2 && IconButton in r.row && TitleLabel in r.row
    ensures r.row[0] == IconButton <==> h.position == Leading
    ensures r == h.(row := r.row)
  {
    match h.position
    case Leading => h.(row := [IconButton, TitleLabel])
    case Trailing => h.(row := [TitleLabel, IconButton])
  }

  /** `setFlat`: no frame and no background fill, or a raised styled panel with a fill. */
  function HeaderSetFlat(h: Header, flat: bool): (r: Header)
    ensures IsFlat(r) == flat
    ensures r == h.(frame := r.frame, autoFillBackground := r.autoFillBackground)
  {
    if flat then h.(frame := NoFrame, autoFillBackground := false)
    else h.(frame := StyledPanelRaised, autoFillBackground := true)
  }

  /** `flat()`: read back from the frame and the fill. */
  predicate IsFlat(h: Header) {
    h.frame == NoFrame && !h.autoFillBackground
  }

  /** The constructor: collapsed, indicator leading, arrow style, then the icon, the row and
      the raised look are set up. */
  function NewHeader(title: string): (h: Header)
    ensures WellFormed(h)
    ensures !h.expanded && h.position == Leading && h.style == Arrow && !IsFlat(h)
    ensures h.icon == "fa6s.angle-right" && h.row == [IconButton, TitleLabel]
  {
    var h0 := Header(title, false, Leading, Arrow, "", [], StyledPanelRaised, false);
    HeaderSetFlat(RefreshLayout(UpdateIcon(h0)), false)
  }

  /** What every operation keeps: a known style, and an icon and a row that agree with the
      flags they are derived from. */
  predicate WellFormed(h: Header) {
    && (h.style == Arrow || h.style == PlusMinus)
    && h.icon == IconName(h.style, h.expanded)
    && h.row == (if h.position == Leading then [IconButton, TitleLabel] else [TitleLabel, IconButton])
  }

  function HeaderSetExpanded(h: Header, expanded: bool): (r: Header)
    ensures r.expanded == expanded
    ensures WellFormed(h) ==> WellFormed(r)
    ensures r == h.(expanded := expanded, icon := r.icon)
  {
    UpdateIcon(h.(expanded := expanded))
  }

  /** `setIconStyle`: values other than the two styles are ignored. */
  function HeaderSetIconStyle(h: Header, style: int): (r: Header)
    ensures style != Arrow && style != PlusMinus ==> r == h
    ensures (style == Arrow || style == PlusMinus) ==> r.style == style && r == h.(style := style, icon := r.icon)
    ensures WellFormed(h) ==> WellFormed(r)
  {
    if style == Arrow || style == PlusMinus then UpdateIcon(h.(style := style)) else h
  }

  /** `setIconPosition`: values other than the two positions are ignored. */
  function HeaderSetIconPosition(h: Header, arg: PositionArg): (r: Header)
    ensures arg.OtherPosition? ==> r == h
    ensures arg.Position? ==> r.position == arg.position && r == h.(position := arg.position, row := r.row)
    ensures WellFormed(h) ==> WellFormed(r)
  {
    match arg
    case Position(p) => RefreshLayout(h.(position := p))
    case OtherPosition => h
  }

  // ---------------------------------------------------------------------------------
  // The item

  /** A new item: a new header, and the content hidden. */
  function NewItem(title: string): (it: Item)
    ensures Consistent(it) && !it.header.expanded && !it.contentVisible
    ensures !IsExpanded(it, true) && !IsExpanded(it, false)
  {
    Item(NewHeader(title), false)
  }

  /** The content's `isVisible()`: its own flag, and every ancestor shown. `shown` says
      whether the item's ancestors are all visible: false before the window is shown, on an
      inactive tab page, or inside a hidden parent. */
  predicate Visible(it: Item, shown: bool) {
    shown && it.contentVisible
  }

  /** `isExpanded`: the header says so and the content is visible. */
  predicate IsExpanded(it: Item, shown: bool): (b: bool)
    ensures !shown ==> !b
    ensures Consistent(it) ==> (b <==> shown && it.contentVisible)
  {
    it.header.expanded && Visible(it, shown)
  }

  /** The header's flag and the content's own visibility flag agree, and the header is well
      formed. */
  predicate Consistent(it: Item) {
    WellFormed(it.header) && it.header.expanded == it.contentVisible
  }

  /** `setExpanded`: the header's flag and the content's own flag both follow; `isExpanded`
      then returns the value only while the ancestors are shown. */
  function SetExpanded(it: Item, expanded: bool): (r: Item)
    ensures r.header.expanded == expanded && r.contentVisible == expanded
    ensures forall shown :: IsExpanded(r, shown) == (expanded && shown)
    ensures WellFormed(it.header) ==> Consistent(r)
  {
    Item(HeaderSetExpanded(it.header, expanded), expanded)
  }

  /** `toggle`: expands exactly when the content is not visible, which under a hidden
      ancestor is always. */
  function Toggle(it: Item, shown: bool): (r: Item)
    ensures r.header.expanded == r.contentVisible == !Visible(it, shown)
    ensures shown ==> IsExpanded(r, shown) == !it.contentVisible
    ensures !shown ==> r.header.expanded && r.contentVisible
    ensures WellFormed(it.header) ==> Consistent(r)
  {
    SetExpanded(it, !Visible(it, shown))
  }

  /** A mouse press on the header: the left button emits `clicked`, which the item has
      connected to `toggle`; other buttons change nothing. A press reaches only a header on
      screen, so the item's ancestors are shown. */
  function Press(it: Item, leftButton: bool): (r: Item)
    ensures !leftButton ==> r == it
    ensures leftButton ==> IsExpanded(r, true) == !it.contentVisible
    ensures WellFormed(it.header) && leftButton ==> Consistent(r)
  {
    if leftButton then Toggle(it, true) else it
  }

  function SetIconPosition(it: Item, arg: PositionArg): (r: Item)
    ensures arg.OtherPosition? ==> r == it
    ensures arg.Position? ==> r.header.position == arg.position
    ensures r.contentVisible == it.contentVisible && r.header.expanded == it.header.expanded
    ensures Consistent(it) ==> Consistent(r)
  {
    it.(header := HeaderSetIconPosition(it.header, arg))
  }

  function SetIconStyle(it: Item, style: int): (r: Item)
    ensures style != Arrow && style != PlusMinus ==> r == it
    ensures style == Arrow || style == PlusMinus ==> r.header.style == style
    ensures r.contentVisible == it.contentVisible && r.header.expanded == it.header.expanded
    ensures Consistent(it) ==> Consistent(r)
  {
    it.(header := HeaderSetIconStyle(it.header, style))
  }

  function SetFlat(it: Item, flat: bool): (r: Item)
    ensures IsFlat(r.header) == flat
    ensures r.contentVisible == it.contentVisible && r.header.expanded == it.header.expanded
    ensures Consistent(it) ==> Consistent(r)
  {
    it.(header := HeaderSetFlat(it.header, flat))
  }

  /** With the ancestors shown, toggling twice gives a consistent item back unchanged. */
  lemma ToggleTwice(it: Item)
    requires Consistent(it)
    ensures Toggle(Toggle(it, true), true) == it
  {
  }

  /** Under a hidden ancestor the content is never visible, so every toggle expands: a
      collapsed item toggled twice ends expanded, and an expanded one stays expanded. */
  lemma ToggleHiddenExpands(it: Item)
    requires Consistent(it)
    ensures Toggle(Toggle(it, false), false) == SetExpanded(it, true)
    ensures it.contentVisible ==> Toggle(it, false) == it
    ensures !IsExpanded(Toggle(it, false), false) && IsExpanded(Toggle(it, false), true)
  {
  }

  /** The header's flag and the icon it shows, for every state reachable from a new item. */
  lemma IconShowsState(it: Item)
    requires Consistent(it)
    ensures it.header.style == Arrow ==>
              it.header.icon == (if it.contentVisible then "fa6s.angle-down" else "fa6s.angle-right")
    ensures it.header.style == PlusMinus ==>
              it.header.icon == (if it.contentVisible then "fa6s.minus" else "fa6s.plus")
  {
  }
}
