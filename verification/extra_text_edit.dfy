/** The growing text edit.

    When responsive, the edit asks its layout for the height of its content (the document's
    height, the top and bottom contents margins and the frame on both sides), clamped to a
    maximum that is kept by the edit itself rather than by the widget. Whenever the text
    changes it also chooses its vertical scroll bar policy: shown as needed when the content
    is taller than the maximum, and always off otherwise. Switching responsiveness off hands
    the policy back to "as needed". The document's height is a rational number of pixels;
    the margins, frame width and base size hint come from the widget as integers. */
module ExtraTextEdit {
  import opened Util

  /** `QWIDGETSIZE_MAX`, the maximum the edit starts with. */
  const WidgetSizeMax: int := 16777215

  datatype ScrollBarPolicy = AsNeeded | AlwaysOff

  datatype Size = Size(width: int, height: int)

  /** What the widget reports when the edit asks: the document's height, the margins, the
      frame width and the size hint of the underlying text edit. */
  datatype Metrics = Metrics(docHeight: Ratio, top: int, bottom: int, frameWidth: int, baseHint: Size)

  /** `responsive` and the stored maximum; the scroll bar policy; and whether the text
      change signal reaches the handler. */
  datatype TextEdit = TextEdit(responsive: bool, maxHeight: int, policy: ScrollBarPolicy, connected: bool)

  /** The height the content needs, with margins and frame, over the document height's
      denominator. */
  function ContentHeight(m: Metrics): (r: Ratio)
    ensures r.den == m.docHeight.den
    ensures r.num - m.docHeight.num == (m.top + m.bottom + 2 * m.frameWidth) * r.den
  {
    var extra := m.top + m.bottom + 2 * m.frameWidth;
    Ratio(m.docHeight.num + extra * m.docHeight.den, m.docHeight.den)
  }

  /** The content is taller than `maxHeight`. */
  predicate Exceeds(m: Metrics, maxHeight: int) {
    var c := ContentHeight(m);
    c.num > maxHeight * c.den
  }

  /** The policy the text change handler chooses. */
  function PolicyFor(m: Metrics, maxHeight: int): (p: ScrollBarPolicy)
    ensures p == AsNeeded <==> Exceeds(m, maxHeight)
  {
    if Exceeds(m, maxHeight) then AsNeeded else AlwaysOff
  }

  /** `sizeHint`: when responsive, the base width and the content height clamped to the
      maximum and truncated to an integer; otherwise the base hint. */
  function SizeHint(e: TextEdit, m: Metrics): (s: Size)
    ensures !e.responsive ==> s == m.baseHint
    ensures e.responsive ==> s.width == m.baseHint.width
    ensures e.responsive && Exceeds(m, e.maxHeight) ==> s.height == e.maxHeight
    ensures e.responsive && !Exceeds(m, e.maxHeight) ==>
              s.height == TruncDiv(ContentHeight(m).num, ContentHeight(m).den)
    ensures e.responsive ==> s.height <= e.maxHeight
  {
    if e.responsive then Size(m.baseHint.width, ClampHeight(ContentHeight(m), e.maxHeight))
    else m.baseHint
  }

  /** Python's `int(min(height, bound))`: the bound when the height is greater, else the
      height truncated toward zero. */
  function ClampHeight(height: Ratio, bound: int): (h: int)
    ensures height.num > bound * height.den ==> h == bound
    ensures height.num <= bound * height.den ==> h == TruncDiv(height.num, height.den)
    ensures h <= bound
  {
    if height.num > bound * height.den then bound
    else
      TruncatedNoHigher(height, bound);
      TruncDiv(height.num, height.den)
  }

  /** Truncating a value no greater than `bound` stays no greater than `bound`. */
  lemma TruncatedNoHigher(c: Ratio, bound: int)
    requires c.num <= bound * c.den
    ensures TruncDiv(c.num, c.den) <= bound
  {
    var q := TruncDiv(c.num, c.den);
    if c.num >= 0 {
      CancelPositive(q, bound + 1, c.den);
    } else {
      assert q * c.den < (bound + 1) * c.den;
      CancelPositive(q, bound + 1, c.den);
    }
  }

  /** `_on_text_changed`: nothing unless responsive; otherwise the policy follows the
      content against the maximum. */
  function OnTextChanged(e: TextEdit, m: Metrics): (r: TextEdit)
    ensures !e.responsive ==> r == e
    ensures e.responsive ==> r == e.(policy := PolicyFor(m, e.maxHeight))
  {
    if !e.responsive then e else e.(policy := PolicyFor(m, e.maxHeight))
  }

  /** A change of the text: the handler runs when the signal is connected to it. */
  function TextChanged(e: TextEdit, m: Metrics): (r: TextEdit)
    ensures Wired(e) && e.responsive ==> r.policy == PolicyFor(m, e.maxHeight)
    ensures !e.responsive ==> r == e
    ensures r == e.(policy := r.policy)
  {
    if e.connected then OnTextChanged(e, m) else e
  }

  /** The signal is connected exactly while the edit is responsive. */
  predicate Wired(e: TextEdit) {
    e.connected == e.responsive
  }

  /** `setResponsive`: the same value changes nothing; switching on connects the handler,
      turns the scroll bar off and runs the handler once; switching off disconnects it and
      restores "as needed". */
  function SetResponsive(e: TextEdit, responsive: bool, m: Metrics): (r: TextEdit)
    ensures e.responsive == responsive ==> r == e
    ensures r.responsive == responsive && r.maxHeight == e.maxHeight
    ensures e.responsive != responsive ==> r.connected == responsive
    ensures e.responsive != responsive && responsive ==> r.policy == PolicyFor(m, e.maxHeight)
    ensures e.responsive != responsive && !responsive ==> r.policy == AsNeeded
    ensures Wired(e) ==> Wired(r)
  {
    if e.responsive == responsive then e
    else if responsive then OnTextChanged(e.(responsive := true, connected := true, policy := AlwaysOff), m)
    else e.(responsive := false, connected := false, policy := AsNeeded)
  }

  /** `setMaximumHeight`: the value is stored for the size hint; the policy is left as it
      was until the text changes again. */
  function SetMaximumHeight(e: TextEdit, height: int): (r: TextEdit)
    ensures MaximumHeight(r) == height
    ensures r == e.(maxHeight := height)
  {
    e.(maxHeight := height)
  }

  /** `maximumHeight`: the stored value, not the widget's. */
  function MaximumHeight(e: TextEdit): (h: int)
    ensures forall m :: e.responsive ==> SizeHint(e, m).height <= h
  {
    e.maxHeight
  }

  /** The constructor: not responsive with the largest maximum and Qt's default policy,
      then switched to responsive. */
  function NewTextEdit(m: Metrics): (e: TextEdit)
    ensures e.responsive && e.connected && Wired(e)
    ensures MaximumHeight(e) == WidgetSizeMax
    ensures e.policy == PolicyFor(m, WidgetSizeMax)
  {
    SetResponsive(TextEdit(false, WidgetSizeMax, AsNeeded, false), true, m)
  }

  /** After the text changes on a responsive edit, the scroll bar may show exactly when the
      size hint was clamped below the content. */
  lemma {:induction false} ScrollBarIffClamped(e: TextEdit, m: Metrics)
    requires Wired(e) && e.responsive
    ensures var r := TextChanged(e, m);
            && (r.policy == AsNeeded <==> Exceeds(m, r.maxHeight))
            && (r.policy == AsNeeded ==> SizeHint(r, m).height == r.maxHeight)
            && (r.policy == AlwaysOff ==> SizeHint(r, m).height <= r.maxHeight)
  {
    var r := TextChanged(e, m);
    assert r == e.(policy := PolicyFor(m, e.maxHeight));
  }

  /** Setting responsiveness twice to the same value is the same as setting it once. */
  lemma SetResponsiveIdempotent(e: TextEdit, responsive: bool, m: Metrics, m2: Metrics)
    ensures var r := SetResponsive(e, responsive, m);
            SetResponsive(r, responsive, m2) == r
  {
  }

  /** Off and on again: the maximum is kept and the policy follows the content again. */
  lemma OffThenOn(e: TextEdit, m: Metrics, m2: Metrics)
    requires e.responsive
    ensures var r := SetResponsive(SetResponsive(e, false, m), true, m2);
            r.responsive && r.connected && r.maxHeight == e.maxHeight
            && r.policy == PolicyFor(m2, e.maxHeight)
  {
  }

  /** A lowered maximum leaves the scroll bar off until the next text change, though the
      size hint is already clamped: a 100-pixel content under a new 50-pixel maximum. */
  lemma MaximumHeightLeavesPolicy()
    ensures var m := Metrics(Ratio(100, 1), 0, 0, 0, Size(200, 30));
            var e := SetMaximumHeight(NewTextEdit(m), 50);
            && e.policy == AlwaysOff
            && SizeHint(e, m).height == 50
            && TextChanged(e, m).policy == AsNeeded
  {
    var m := Metrics(Ratio(100, 1), 0, 0, 0, Size(200, 30));
    assert ContentHeight(m) == Ratio(100, 1);
    assert !Exceeds(m, WidgetSizeMax);
    assert Exceeds(m, 50);
  }
}
