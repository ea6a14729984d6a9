/**
  `intdiv2` of the harness: every channel value is halved with `int(x / 2)`,
  that is, truncated toward zero (Python's `int` of a float drops the fraction).
  Dafny's `/` on `int` is Euclidean, so for negative odd operands the two differ.
 */
module Halving {

  /** `int(x / 2)`: the half of `x` truncated toward zero. Dafny's `/` rounds
      down; moving a negative dividend up by one first rounds toward zero. */
  function Half(x: int): int {
    (x + (if x < 0 then 1 else 0)) / 2
  }

  /** Truncation toward zero: the half never lies beyond x / 2 on the side away from zero. */
  lemma HalfBounds(x: int)
    ensures x >= 0 ==> 0 <= Half(x) && 2 * Half(x) <= x <= 2 * Half(x) + 1
    ensures x < 0 ==> Half(x) <= 0 && 2 * Half(x) - 1 <= x <= 2 * Half(x)
  {
  }

  /** Truncation is odd: halving commutes with negation. */
  lemma HalfIsOdd(x: int)
    ensures Half(-x) == -Half(x)
  {
  }

  /** `int(x / 2)` agrees with floor division exactly on non-negative or even values;
      for example -3 becomes -1, while its floor half is -2. */
  lemma HalfVersusFloor(x: int)
    ensures Half(x) == x / 2 <==> (x >= 0 || x % 2 == 0)
    ensures Half(-3) == -1 && (-3) / 2 == -2
  {
    if x < 0 {
      var q := (-x) / 2;
      if x % 2 == 0 {
        assert -x == 2 * q;
        assert x == 2 * (-q);
      } else {
        assert -x == 2 * q + 1;
        assert x == 2 * (-q - 1) + 1;
        assert x / 2 == -q - 1;
      }
    }
  }

  /**
    `intdiv2(data)`: a fresh three-element buffer holding the halves of the
    first three entries of `data` (one pixel's channels).
   */
  method IntDiv2(data: seq<int>) returns (result: array<int>)
    requires |data| >= 3
    ensures fresh(result) && result.Length == 3
    ensures forall i :: 0 <= i < 3 ==> result[i] == Half(data[i])
  {
    result := new int[3](_ => 0);
    for i := 0 to 3
      invariant forall k :: 0 <= k < i ==> result[k] == Half(data[k])
    {
      result[i] := Half(data[i]);
    }
  }
}
