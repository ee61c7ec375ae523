/** numpy's `round`: halves go to the even neighbour. The model applies it to
    exact reals, so a value like 0.1005 is a true tie here. */
module Rounding {

  /** `np.rint`: the nearest integer, ties to even. */
  function RoundHalfEven(x: real): (r: int)
    ensures x - 0.5 <= r as real <= x + 0.5
    ensures (r as real - x == 0.5 || x - r as real == 0.5) ==> r % 2 == 0
  {
    var f := x.Floor;
    var d := x - f as real;
    if d < 0.5 then f
    else if d > 0.5 then f + 1
    else if f % 2 == 0 then f
    else f + 1
  }

  /** The two clauses of `RoundHalfEven` pin the result down: no other integer
      is as close, or equally close and even. */
  lemma RoundHalfEvenUnique(x: real, k: int)
    requires x - 0.5 <= k as real <= x + 0.5
    requires (k as real - x == 0.5 || x - k as real == 0.5) ==> k % 2 == 0
    ensures k == RoundHalfEven(x)
  {
  }

  /** An integer rounds to itself. */
  lemma RoundHalfEvenInteger(k: int)
    ensures RoundHalfEven(k as real) == k
  {
  }

  /** Rounding never reverses the order of two values. */
  lemma RoundHalfEvenMonotone(x: real, y: real)
    requires x <= y
    ensures RoundHalfEven(x) <= RoundHalfEven(y)
  {
  }

  /** `Series.round(3)`. */
  function Round3(x: real): (r: real)
    ensures -0.0005 <= r - x <= 0.0005
    ensures (r * 1000.0).Floor as real == r * 1000.0
  {
    RoundHalfEven(x * 1000.0) as real / 1000.0
  }

  lemma Round3Idempotent(x: real)
    ensures Round3(Round3(x)) == Round3(x)
  {
    var k := RoundHalfEven(x * 1000.0);
    assert Round3(x) * 1000.0 == k as real;
    RoundHalfEvenInteger(k);
  }

  lemma Round3Monotone(x: real, y: real)
    requires x <= y
    ensures Round3(x) <= Round3(y)
  {
    RoundHalfEvenMonotone(x * 1000.0, y * 1000.0);
  }
}
