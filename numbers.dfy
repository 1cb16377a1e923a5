/** Exact integer stand-ins for the floating-point steps of the sources:
    JavaScript's Math.round of a quotient, Python's int() of a quotient,
    and powers. */
module Numbers {

  function Abs(x: int): nat {
    if x < 0 then -x else x
  }

  /** r is num/den rounded to the nearest integer, halves rounded up. */
  predicate IsNearest(r: int, num: int, den: int)
    requires den > 0
  {
    2 * r * den - den <= 2 * num < 2 * r * den + den
  }

  /** Math.round(num / den) over exact rationals: floor(num/den + 1/2). */
  function Round(num: int, den: int): (r: int)
    requires den > 0
    ensures IsNearest(r, num, den)
    ensures num >= 0 ==> r >= 0
  {
    var q := (2 * num + den) / (2 * den);
    assert 2 * num + den == q * (2 * den) + (2 * num + den) % (2 * den);
    q
  }

  /** At most one integer is nearest to a rational. */
  lemma NearestUnique(r1: int, r2: int, num: int, den: int)
    requires den > 0 && IsNearest(r1, num, den) && IsNearest(r2, num, den)
    ensures r1 == r2
  {
    assert (r1 - r2) * (2 * den) < 2 * den by {
      assert (r1 - r2) * (2 * den) == 2 * r1 * den - 2 * r2 * den;
    }
    assert (r2 - r1) * (2 * den) < 2 * den by {
      assert (r2 - r1) * (2 * den) == 2 * r2 * den - 2 * r1 * den;
    }
    BelowOneMultiple(r1 - r2, 2 * den);
    BelowOneMultiple(r2 - r1, 2 * den);
  }

  lemma BelowOneMultiple(x: int, y: int)
    requires y > 0 && x * y < y
    ensures x <= 0
  {
  }

  /** Rounding an exact multiple gives the multiplier back. */
  lemma RoundExact(k: int, den: int)
    requires den > 0
    ensures Round(k * den, den) == k
  {
    assert IsNearest(k, k * den, den);
    NearestUnique(Round(k * den, den), k, k * den, den);
  }

  /** Python's int(a / b): the quotient truncated toward zero. */
  function TruncDiv(a: int, b: int): (r: int)
    requires b != 0
    ensures Abs(r) * Abs(b) <= Abs(a) < Abs(r) * Abs(b) + Abs(b)
    ensures r != 0 ==> ((r > 0) <==> ((a > 0) == (b > 0)))
  {
    var q := Abs(a) / Abs(b);
    TruncDivBounds(Abs(a), Abs(b));
    if (a < 0) != (b < 0) then -q else q
  }

  lemma TruncDivBounds(a: nat, b: nat)
    requires b > 0
    ensures (a / b) * b <= a < (a / b) * b + b
  {
  }

  function Pow(b: nat, e: nat): (r: nat)
    ensures b > 0 ==> r > 0
  {
    if e == 0 then 1 else b * Pow(b, e - 1)
  }
}
