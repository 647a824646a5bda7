/** `scale_inside`: an image shrunk by a factor and drawn centred on a transparent canvas
    of the original size. Only the geometry is modelled: the canvas size, the box the
    shrunk image is drawn into, and its offsets. The factor is a rational number. */
module ScaleInside {
  import opened Util

  /** The box the scaled image is drawn into. */
  datatype Box = Box(x: int, y: int, width: int, height: int)

  /** The canvas handed back (its width and height) and where the image goes on it. */
  datatype Placement = Placement(width: nat, height: nat, box: Box)

  /** The offset that centres a length `inner` inside `outer`: Python's `(outer - inner) // 2`. */
  function CentreOffset(outer: int, inner: int): (x: int)
    ensures 2 * x <= outer - inner <= 2 * x + 1
  {
    FloorDiv(outer - inner, 2)
  }

  /** The geometry of `scale_inside(image, factor)` for an image of `w` by `h`. */
  function ScaleInside(w: nat, h: nat, factor: Ratio): (p: Placement)
    ensures p.width == w && p.height == h
    ensures p.box.width == ScaleTrunc(w, factor) && p.box.height == ScaleTrunc(h, factor)
    ensures Margins(p.width, p.box.x, p.box.width) && Margins(p.height, p.box.y, p.box.height)
  {
    var nw := ScaleTrunc(w, factor);
    var nh := ScaleTrunc(h, factor);
    Placement(w, h, Box(CentreOffset(w, nw), CentreOffset(h, nh), nw, nh))
  }

  /** Centred along one axis: the space after the box is the space before it or one more. */
  predicate Margins(outer: int, offset: int, inner: int) {
    var before := offset;
    var after := outer - offset - inner;
    after == before || after == before + 1
  }

  /** A factor between 0 and 1 shrinks: the box lies inside the canvas. */
  lemma {:induction false} ShrinkStaysInside(w: nat, h: nat, factor: Ratio)
    requires 0 <= factor.num <= factor.den
    ensures var p := ScaleInside(w, h, factor);
            && 0 <= p.box.width <= w && 0 <= p.box.height <= h
            && 0 <= p.box.x && p.box.x + p.box.width <= w
            && 0 <= p.box.y && p.box.y + p.box.height <= h
  {
    ScaledNoLarger(w, factor);
    ScaledNoLarger(h, factor);
  }

  lemma ScaledNoLarger(n: nat, factor: Ratio)
    requires 0 <= factor.num <= factor.den
    ensures 0 <= ScaleTrunc(n, factor) <= n
  {
    var q := ScaleTrunc(n, factor);
    MultiplyMonotone(n, factor.num, factor.den);
    assert 0 <= n * factor.num <= n * factor.den;
    assert q * factor.den <= n * factor.den;
    CancelPositiveLe(q, n, factor.den);
  }

  lemma MultiplyMonotone(k: int, a: int, b: int)
    requires k >= 0 && a <= b
    ensures k * a <= k * b
  {
  }

  /** The factor the document uses, 0.9, on a 72-pixel emoji: a 64-pixel box at (4, 4). */
  lemma NinetyPercentOf72()
    ensures ScaleInside(72, 72, Ratio(9, 10)) == Placement(72, 72, Box(4, 4, 64, 64))
  {
  }
}
