/** The numeric conventions of the search: Python's `round`, `math.floor` and
    `math.ceil` on a relaxed value, the integrality tolerance and the initial
    incumbent, all over exact reals. */
module Numbers {

  /** The tolerance `1e-4` of the integrality tests. */
  const Eps: real := 0.0001

  /** The initial incumbent `-1e20`. */
  const Sentinel: real := -100000000000000000000.0

  function Abs(x: real): real {
    if x < 0.0 then -x else x
  }

  /** How far the integer `k` lies from `x`. */
  function Gap(k: int, x: real): real {
    Abs(k as real - x)
  }

  /** Python 3's `round(x)`: the nearest integer, a tie going to the even one. */
  function Round(x: real): (r: int)
    ensures Gap(r, x) <= 0.5
    ensures Gap(r, x) == 0.5 ==> r % 2 == 0
  {
    var f := x.Floor;
    var d := x - f as real;
    if d < 0.5 then f
    else if d > 0.5 then f + 1
    else if f % 2 == 0 then f
    else f + 1
  }

  /** No integer is nearer to `x` than `Round(x)`. */
  lemma RoundIsNearest(x: real, k: int)
    ensures Gap(Round(x), x) <= Gap(k, x)
  {
    var f := x.Floor;
    if k <= f {
      assert Gap(k, x) == x - k as real;
    } else {
      assert Gap(k, x) == k as real - x;
    }
  }

  /** The two properties in Round's contract pin the result down. */
  lemma RoundIsUnique(x: real, k: int)
    requires Gap(k, x) <= 0.5
    requires Gap(k, x) == 0.5 ==> k % 2 == 0
    ensures k == Round(x)
  {
  }

  /** The integrality test of the source, `abs(round(v) - float(v)) > 1e-4`. */
  predicate Fractional(x: real) {
    Gap(Round(x), x) > Eps
  }

  /** A value is fractional exactly when every integer lies more than `Eps` away. */
  lemma FractionalIff(x: real)
    ensures Fractional(x) <==> forall k: int :: Gap(k, x) > Eps
  {
    if Fractional(x) {
      forall k: int ensures Gap(k, x) > Eps {
        RoundIsNearest(x, k);
      }
    }
  }

  /** `math.ceil(x)`: the least integer not below `x`. */
  function Ceil(x: real): (c: int)
    ensures x <= c as real < x + 1.0
  {
    if x.Floor as real == x then x.Floor else x.Floor + 1
  }

  /** A fractional value lies strictly between its floor and its ceiling,
      which are consecutive integers. */
  lemma FractionalSplit(x: real)
    requires Fractional(x)
    ensures x.Floor as real < x < Ceil(x) as real
    ensures Ceil(x) == x.Floor + 1
  {
  }
}
