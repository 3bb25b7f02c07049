/** Power-of-two alignment in 32-bit arithmetic. */
module Alignment {
  import opened Bytes

  /** `v != 0 && (v & (v - 1)) == 0`. */
  predicate IsPowerOfTwo(v: nat) {
    v == 1 || (v > 1 && v % 2 == 0 && IsPowerOfTwo(v / 2))
  }

  /** `(v + mask) & ~mask` for a power of two; None where the addition overflows. */
  function AlignUp(v: U32, alignment: U32): (r: Option<U32>)
    requires alignment > 0
  {
    if v > U32_MAX - (alignment - 1) then None
    else
      Floor(v + (alignment - 1), alignment);
      Some((v + (alignment - 1)) / alignment * alignment)
  }

  lemma Floor(x: nat, a: int)
    requires a > 0
    ensures x / a * a <= x < x / a * a + a
  {
    assert x == a * (x / a) + x % a;
  }

  lemma MultiplePlus(x: int, q: int, m: int)
    requires m > 0
    ensures (x + q * m) % m == x % m
  {
    var a := x / m;
    assert x == m * a + x % m;
    assert x + q * m == m * (a + q) + x % m;
    UniqueRemainder(x + q * m, m, a + q, x % m);
  }

  lemma UniqueRemainder(x: int, m: int, q: int, r: int)
    requires m > 0 && x == m * q + r && 0 <= r < m
    ensures x % m == r && x / m == q
  {
    var q', r' := x / m, x % m;
    assert x == m * q' + r';
    assert m * (q - q') == m * q - m * q' == r' - r;
    if q > q' {
      MulAtLeast(m, q - q');
    } else if q < q' {
      MulAtLeast(m, q' - q);
    }
  }

  lemma MulAtLeast(m: int, k: int)
    requires m > 0 && k >= 1
    ensures m * k >= m
  {
  }

  /** The aligned value is the least multiple that is not below `v`. */
  lemma AlignUpIsLeast(v: U32, alignment: U32)
    requires alignment > 0 && AlignUp(v, alignment).Some?
    ensures var r := AlignUp(v, alignment).value;
            v <= r < v + alignment && r % alignment == 0
            && forall m :: m >= v && m % alignment == 0 ==> r <= m
  {
    var x := v + (alignment - 1);
    Floor(x, alignment);
    var r := x / alignment * alignment;
    MultiplePlus(0, x / alignment, alignment);
    forall m | m >= v && m % alignment == 0 ensures r <= m {
      if m < r {
        assert r - m < alignment;
        MultiplesApart(m, r, alignment);
      }
    }
  }

  lemma MultiplesApart(a: int, b: int, m: int)
    requires m > 0 && a % m == 0 && b % m == 0 && a < b
    ensures a + m <= b
  {
    assert a == m * (a / m) && b == m * (b / m);
    var k := b / m - a / m;
    assert b - a == m * k;
    if k > 0 {
      MulAtLeast(m, k);
    }
  }

  /** A smaller power of two divides a larger one. */
  lemma {:induction false} PowerDivides(small: nat, large: nat)
    requires IsPowerOfTwo(small) && IsPowerOfTwo(large) && small <= large
    ensures large % small == 0
    decreases small
  {
    if small > 1 {
      PowerDivides(small / 2, large / 2);
      var k := large / 2 / (small / 2);
      assert large / 2 == small / 2 * k;
      assert large == small * k;
      UniqueRemainder(large, small, k, 0);
    }
  }

  lemma MultipleOfMultiple(x: int, small: int, large: int)
    requires small > 0 && large > 0 && large % small == 0 && x % large == 0
    ensures x % small == 0
  {
    var k, q := large / small, x / large;
    assert large == small * k && x == large * q;
    assert x == small * (k * q);
    UniqueRemainder(x, small, k * q, 0);
  }

  lemma SumOfMultiples(a: int, b: int, m: int)
    requires m > 0 && a % m == 0 && b % m == 0
    ensures (a + b) % m == 0
  {
    assert b == b / m * m;
    MultiplePlus(a, b / m, m);
  }
}
