/** Fixed-width integers of the C source, as ranges of the unbounded integers. Dafny's / and % by a
    positive constant round toward minus infinity, so x / 2^k is the arithmetic shift x >> k. */
module Words {

  // A data or codec byte, worked on bit by bit.
  type Byte = bv8

  // RTL_SAMPLE
  type Sample = x: int | -0x8000 <= x < 0x8000

  predicate IsInt16(x: int) {
    -0x8000 <= x < 0x8000
  }

  predicate IsInt32(x: int) {
    -0x8000_0000 <= x < 0x8000_0000
  }

  // A cast to int16_t.
  function ToInt16(x: int): (r: Sample)
    ensures IsInt16(x) ==> r == x
  {
    (x + 0x8000) % 0x1_0000 - 0x8000
  }

  // A cast to int32_t.
  function ToInt32(x: int): (r: int)
    ensures IsInt32(r) && (IsInt32(x) ==> r == x)
  {
    (x + 0x8000_0000) % 0x1_0000_0000 - 0x8000_0000
  }

  // C's division by a positive divisor rounds toward zero.
  function DivC(x: int, d: int): int
    requires d > 0
  {
    if x >= 0 then x / d else -((-x) / d)
  }

  function Abs(x: int): nat {
    if x < 0 then -x else x
  }

  function Power2(k: nat): (p: nat)
    ensures p >= 1
  {
    if k == 0 then 1 else 2 * Power2(k - 1)
  }

  // Masking a 16-bit value with 0xffff and storing it back as int16_t changes nothing.
  lemma MaskRoundTrip(x: int)
    requires IsInt16(x)
    ensures ToInt16(x % 0x1_0000) == x
  {
  }

  // Multiples of d are at least d apart.
  lemma MultiplesApart(d: nat, a: int, b: int)
    ensures a < b ==> d * a + d <= d * b
  {
    if a < b {
      ProductNonnegative(d, b - a - 1);
      assert d * b == d * a + d + d * (b - a - 1);
    }
  }

  lemma ProductNonnegative(a: nat, b: nat)
    ensures a * b >= 0
  {
  }

  lemma MultipleTooSmall(q: int, size: nat)
    ensures !(0 < q * size < size)
  {
  }

  // Quotient and remainder are unique.
  lemma DivModUnique(x: int, d: nat, q: int, r: int)
    requires 0 <= r < d && x == d * q + r
    ensures x / d == q && x % d == r
  {
    assert x == d * (x / d) + x % d;
    MultiplesApart(d, q, x / d);
    MultiplesApart(d, x / d, q);
  }

  lemma ModUnique(x: nat, q: int, r: int, size: nat)
    requires 0 <= r < size && x == q * size + r
    ensures x % size == r
  {
    DivModUnique(x, size, q, r);
  }

  // Reducing a summand first does not change the remainder.
  lemma ModAdd(a: int, b: int, m: nat)
    requires m > 0
    ensures (a % m + b) % m == (a + b) % m
  {
    var c := a % m + b;
    var q, p := a / m, c / m;
    assert a == m * q + a % m && c == m * p + c % m;
    assert a + b == m * (q + p) + c % m;
    DivModUnique(a + b, m, q + p, c % m);
  }

  // Wrapping a summand first does not change the wrapped sum.
  lemma WrapSum(a: int, b: int)
    ensures ToInt32(a + ToInt32(b)) == ToInt32(a + b)
  {
  }

  lemma Int16KeepsLowBits(x: int)
    ensures ToInt16(x) % 0x1_0000 == x % 0x1_0000
  {
  }

  // Numbers less than a full turn apart fall on different ring slots.
  lemma SlotsDiffer(a: nat, b: nat, size: nat)
    requires size > 0 && a < b < a + size
    ensures a % size != b % size
  {
    var qa, qb := a / size, b / size;
    assert a == qa * size + a % size && b == qb * size + b % size;
    assert (qb - qa) * size == b - a - (b % size - a % size);
    MultipleTooSmall(qb - qa, size);
  }

  // Adding whole turns does not move a slot.
  lemma SlotTurns(a: nat, q: nat, size: nat)
    requires size > 0
    ensures (a + q * size) % size == a % size
  {
    assert a + q * size == size * (a / size + q) + a % size;
    DivModUnique(a + q * size, size, a / size + q, a % size);
  }

  // Advancing a ring index is advancing the count it stands for.
  lemma SlotAdvance(n: nat, k: nat, size: nat)
    requires size > 0
    ensures (n % size + k) % size == (n + k) % size
  {
    ModAdd(n, k, size);
  }

  // One more element of a prefix.
  lemma PrefixGrows<T>(x: seq<T>, n: nat)
    requires n < |x|
    ensures x[..n + 1] == x[..n] + [x[n]]
  {
  }
}
