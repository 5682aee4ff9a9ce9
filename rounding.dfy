/**
 * The two decimal roundings of the staffing logic: `ceil_decimal_1`, the
 * regulatory round-up to the next tenth, and Python's `round(x, 1)` used on
 * the summed full-time equivalents. Values are exact reals.
 */
module Rounding {

  /** `q` is a whole number of tenths. */
  predicate IsTenth(q: real) {
    (q * 10.0).Floor as real == q * 10.0
  }

  /** The whole number of tenths `k / 10` is a whole number of tenths. */
  lemma TenthsOfInt(k: int)
    ensures IsTenth(k as real / 10.0)
  {
    assert (k as real / 10.0) * 10.0 == k as real;
  }

  /** `math.ceil(x * 10) / 10`: round `x` up to a whole number of tenths, by less than one tenth. */
  function CeilDecimal1(x: real): (r: real)
    ensures IsTenth(r)
    ensures x <= r < x + 0.1
  {
    var c := -((-x * 10.0).Floor);
    TenthsOfInt(c);
    c as real / 10.0
  }

  /** No whole number of tenths lies in `[x, CeilDecimal1(x))`: the round-up is the least one. */
  lemma CeilDecimal1IsLeast(x: real, q: real)
    requires IsTenth(q) && x <= q
    ensures CeilDecimal1(x) <= q
  {
    var c := -((-x * 10.0).Floor);
    var m := (q * 10.0).Floor;
    assert CeilDecimal1(x) == c as real / 10.0;
    assert c as real - 1.0 < x * 10.0;
    assert m as real == q * 10.0 >= x * 10.0;
    assert m >= c;
    assert q == m as real / 10.0;
  }

  /** Rounding up twice is rounding up once. */
  lemma CeilDecimal1Idempotent(x: real)
    ensures CeilDecimal1(CeilDecimal1(x)) == CeilDecimal1(x)
  {
    var r := CeilDecimal1(x);
    CeilDecimal1IsLeast(r, r);
  }

  /** Rounding up preserves order. */
  lemma CeilDecimal1Monotone(x: real, y: real)
    requires x <= y
    ensures CeilDecimal1(x) <= CeilDecimal1(y)
  {
    CeilDecimal1IsLeast(x, CeilDecimal1(y));
  }

  /** Adding a whole unit before rounding up adds exactly that unit to the result. */
  lemma CeilDecimal1AddOne(x: real)
    ensures CeilDecimal1(x + 1.0) == CeilDecimal1(x) + 1.0
  {
    var r := CeilDecimal1(x);
    var s := CeilDecimal1(x + 1.0);
    var a, b := (r * 10.0).Floor, (s * 10.0).Floor;
    assert r + 1.0 == (a + 10) as real / 10.0;
    TenthsOfInt(a + 10);
    assert s - 1.0 == (b - 10) as real / 10.0;
    TenthsOfInt(b - 10);
    CeilDecimal1IsLeast(x + 1.0, r + 1.0);
    CeilDecimal1IsLeast(x, s - 1.0);
  }

  function Abs(x: real): real {
    if x < 0.0 then -x else x
  }

  /**
   * `round(x, 1)` on an exact value: the nearest whole number of tenths, a tie
   * going to the even number of tenths.
   */
  function RoundHalfEven1(x: real): (r: real)
    ensures IsTenth(r)
    ensures Abs(r - x) <= 0.05
    ensures Abs(r - x) == 0.05 ==> (r * 10.0).Floor % 2 == 0
  {
    var k := (x * 10.0).Floor;
    var frac := x * 10.0 - k as real;
    var n := if frac < 0.5 then k else if frac > 0.5 then k + 1 else if k % 2 == 0 then k else k + 1;
    TenthsOfInt(n);
    n as real / 10.0
  }

  /** No whole number of tenths is nearer to `x` than `round(x, 1)`. */
  lemma RoundHalfEven1IsNearest(x: real, q: real)
    requires IsTenth(q)
    ensures Abs(RoundHalfEven1(x) - x) <= Abs(q - x)
  {
    var k := (x * 10.0).Floor;
    var m := (q * 10.0).Floor;
    assert m as real == q * 10.0;
    assert m <= k || m >= k + 1;
  }

  /** Rounding to the nearest tenth preserves order. */
  lemma RoundHalfEven1Monotone(x: real, y: real)
    requires x <= y
    ensures RoundHalfEven1(x) <= RoundHalfEven1(y)
  {
    if x < y {
      var rx, ry := RoundHalfEven1(x), RoundHalfEven1(y);
      assert rx <= x + 0.05 && y - 0.05 <= ry;
      var a, b := (rx * 10.0).Floor, (ry * 10.0).Floor;
      assert a as real == rx * 10.0 && b as real == ry * 10.0;
      assert rx * 10.0 < ry * 10.0 + 1.0;
      assert a < b + 1;
    }
  }

  /** A value that is already a whole number of tenths is left unchanged. */
  lemma RoundHalfEven1OfTenth(q: real)
    requires IsTenth(q)
    ensures RoundHalfEven1(q) == q
  {
  }

  /** Ties go to the even tenth: 0.25 rounds to 0.2 and 0.75 to 0.8 (both exact in binary). */
  lemma RoundHalfEven1Ties()
    ensures RoundHalfEven1(0.25) == 0.2
    ensures RoundHalfEven1(0.75) == 0.8
  {
  }
}
