/** `utils::clamp`, over integer values. */
module Clamp {

  /** `clamp(value, minValue, maxValue)`: `minValue` when the value is below
      it, else `maxValue` when the value is above that, else the value. Only
      `<` is used, and the lower bound is tested first. */
  function Clamp(value: int, minValue: int, maxValue: int): (r: int)
    ensures r == value || r == minValue || r == maxValue
    ensures minValue <= maxValue ==> minValue <= r <= maxValue
    ensures minValue <= value <= maxValue ==> r == value
  {
    if value < minValue then minValue
    else if maxValue < value then maxValue
    else value
  }

  function Min(a: int, b: int): int { if a <= b then a else b }
  function Max(a: int, b: int): int { if a <= b then b else a }
  function Dist(a: int, b: int): nat { if a <= b then b - a else a - b }

  /** With ordered bounds, clamping is "at least the minimum, at most the
      maximum". */
  lemma ClampIsMaxOfMin(value: int, minValue: int, maxValue: int)
    requires minValue <= maxValue
    ensures Clamp(value, minValue, maxValue) == Max(minValue, Min(value, maxValue))
  {
  }

  /** With ordered bounds, the result is the point of the range nearest to
      the value. */
  lemma ClampIsNearest(value: int, minValue: int, maxValue: int, x: int)
    requires minValue <= x <= maxValue
    ensures Dist(Clamp(value, minValue, maxValue), value) <= Dist(x, value)
  {
  }

  /** With ordered bounds, clamping twice is clamping once. */
  lemma ClampIdempotent(value: int, minValue: int, maxValue: int)
    requires minValue <= maxValue
    ensures var c := Clamp(value, minValue, maxValue);
            Clamp(c, minValue, maxValue) == c
  {
  }

  /** With ordered bounds, clamping keeps the order of values. */
  lemma ClampMonotone(a: int, b: int, minValue: int, maxValue: int)
    requires minValue <= maxValue && a <= b
    ensures Clamp(a, minValue, maxValue) <= Clamp(b, minValue, maxValue)
  {
  }

  /** With reversed bounds the value itself is never returned: values below
      `minValue` give `minValue`, all others `maxValue`. Idempotence is then
      lost: `clamp(0, 5, 3)` is 5, but `clamp(5, 5, 3)` is 3. */
  lemma ClampReversedBounds(value: int, minValue: int, maxValue: int)
    requires maxValue < minValue
    ensures Clamp(value, minValue, maxValue) ==
            (if value < minValue then minValue else maxValue)
    ensures Clamp(value, minValue, maxValue) != value
    ensures Clamp(0, 5, 3) == 5 && Clamp(Clamp(0, 5, 3), 5, 3) == 3
  {
  }
}
