/** Small shared vocabulary: optional values, the outcome of a Python call that may raise,
    integer conversions that stand in for Python's `int(...)` of a float, and decimal
    rendering of integers (Python's `str(int)`). */
module Util {

  datatype Option<+T> = None | Some(value: T)

  /** The result of a call that either returns normally or raises part way through.
      `Raised` carries the state as it was left when the exception propagated. */
  datatype Outcome<+T> = Completed(value: T) | Raised(partial: T)

  /** What an operation leaves behind, whether it completed or raised part-way. */
  function Settled<T>(o: Outcome<T>): T {
    if o.Completed? then o.value else o.partial
  }

  /** Python's `int(x)` for a non-integral quotient: truncation toward zero. */
  function TruncDiv(a: int, b: int): (q: int)
    requires b > 0
    ensures a >= 0 ==> 0 <= q && q * b <= a < q * b + b
    ensures a < 0 ==> q <= 0 && q * b - b < a <= q * b
  {
    if a >= 0 then a / b else -((-a) / b)
  }

  type Pos = n: int | n > 0 witness 1

  /** A rational number `num / den`, standing for a floating-point factor. */
  datatype Ratio = Ratio(num: int, den: Pos)

  /** `int(x * r)`: the product truncated toward zero. */
  function ScaleTrunc(x: int, r: Ratio): int {
    TruncDiv(x * r.num, r.den)
  }

  /** `qRound(a / b)`: the nearest integer, halves rounded away from zero. */
  function RoundDiv(a: int, b: int): (q: int)
    requires b > 0
    ensures -b <= 2 * q * b - 2 * a <= b
    ensures a >= 0 ==> -b < 2 * q * b - 2 * a
    ensures a < 0 ==> 2 * q * b - 2 * a < b
  {
    if a >= 0 then (2 * a + b) / (2 * b) else -((-2 * a + b) / (2 * b))
  }

  /** `qRound(x * r)`, which Qt's `QSize * qreal` applies to each dimension. */
  function ScaleRound(x: int, r: Ratio): int {
    RoundDiv(x * r.num, r.den)
  }

  /** Python's floor division `a // b` for a positive divisor. */
  function FloorDiv(a: int, b: int): (q: int)
    requires b > 0
    ensures q * b <= a < q * b + b
  {
    a / b
  }

  function Min(a: int, b: int): (m: int)
    ensures m <= a && m <= b
    ensures m == a || m == b
  {
    if a <= b then a else b
  }

  function Max(a: int, b: int): (m: int)
    ensures m >= a && m >= b
    ensures m == a || m == b
  {
    if a >= b then a else b
  }

  predicate StartsWith<T(==)>(s: seq<T>, prefix: seq<T>) {
    |prefix| <= |s| && s[..|prefix|] == prefix
  }

  /** The sequence read from the back. */
  function Reverse<T>(s: seq<T>): (r: seq<T>)
    ensures |r| == |s|
    ensures forall i :: 0 <= i < |s| ==> r[i] == s[|s| - 1 - i]
  {
    seq(|s|, i requires 0 <= i < |s| => s[|s| - 1 - i])
  }

  /** A sequence starts with any prefix of a prefix of it. */
  lemma StartsWithConcat<T>(a: seq<T>, b: seq<T>)
    ensures StartsWith(a + b, a)
  {
    assert (a + b)[..|a|] == a;
  }

  lemma ConcatAssoc<T>(a: seq<T>, b: seq<T>, c: seq<T>)
    ensures (a + b) + c == a + (b + c)
  {
  }

  lemma ReverseSnoc<T>(init: seq<T>, last: T)
    ensures Reverse(init + [last]) == [last] + Reverse(init)
  {
  }

  lemma ReverseCons<T>(first: T, rest: seq<T>)
    ensures Reverse([first] + rest) == Reverse(rest) + [first]
  {
  }

  function DigitChar(d: nat): (c: char)
    requires d < 10
    ensures '0' <= c <= '9'
  {
    ['0', '1', '2', '3', '4', '5', '6', '7', '8', '9'][d]
  }

  predicate IsDigit(c: char) {
    '0' <= c <= '9'
  }

  /** Python's `str(n)` for a non-negative integer. */
  function NatToDecimal(n: nat): (s: string)
    ensures |s| >= 1
    ensures forall i :: 0 <= i < |s| ==> IsDigit(s[i])
    decreases n
  {
    if n < 10 then [DigitChar(n)] else NatToDecimal(n / 10) + [DigitChar(n % 10)]
  }

  /** Python's `str(n)` for any integer. */
  function IntToDecimal(n: int): (s: string)
    ensures |s| >= 1
    ensures n >= 0 <==> IsDigit(s[0])
    ensures forall i :: 1 <= i < |s| ==> IsDigit(s[i])
  {
    if n < 0 then "-" + NatToDecimal(-n) else NatToDecimal(n)
  }

  /** A positive factor can be cancelled from a strict inequality. */
  lemma CancelPositive(a: int, b: int, d: int)
    requires d >= 1 && a * d < b * d
    ensures a < b
  {
  }

  lemma CancelPositiveLe(a: int, b: int, d: int)
    requires d >= 1 && a * d <= b * d
    ensures a <= b
  {
    assert (b + 1) * d == b * d + d;
    CancelPositive(a, b + 1, d);
  }
}
