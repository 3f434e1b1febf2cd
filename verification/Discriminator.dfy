/** The phase discriminator of demod.c: a 12-sample delay in a 64-slot ring on each channel. */
module Discriminator {
  import opened Words

  const DEMOD_DLY_LEN := 64
  const DELAY := 12

  // The last 64 values stored, newest first.
  type DelayLine = d: seq<Sample> | |d| == DEMOD_DLY_LEN witness seq(DEMOD_DLY_LEN, _ => 0)

  function Slide(d: DelayLine, v: Sample): DelayLine {
    [v] + d[..DEMOD_DLY_LEN - 1]
  }

  function CrossProduct(iPrev: int, qPrev: int, iNow: int, qNow: int): int {
    iPrev * qNow - iNow * qPrev
  }

  // The ring read from its newest slot backwards; `index` is the slot to be written next.
  function Unroll(data: seq<Sample>, index: nat): DelayLine
    requires |data| == DEMOD_DLY_LEN && index < DEMOD_DLY_LEN
  {
    seq(DEMOD_DLY_LEN, k requires 0 <= k < DEMOD_DLY_LEN => data[Back(index, k + 1)])
  }

  // The slot n places back around the ring.
  function Back(index: nat, n: nat): (slot: nat)
    requires index < DEMOD_DLY_LEN && n <= DEMOD_DLY_LEN
    ensures slot < DEMOD_DLY_LEN
    ensures slot == (index - n) % DEMOD_DLY_LEN
  {
    if n <= index then index - n else index + DEMOD_DLY_LEN - n
  }

  lemma UnrollWrite(data: seq<Sample>, index: nat, v: Sample)
    requires |data| == DEMOD_DLY_LEN && index < DEMOD_DLY_LEN
    ensures Unroll(data[index := v], (index + 1) % DEMOD_DLY_LEN) == Slide(Unroll(data, index), v)
  {
  }

  class PhaseDiscriminator {
    const iDemodDly: array<Sample>
    const qDemodDly: array<Sample>
    var currIndex: nat

    ghost predicate Valid()
      reads this
    {
      && iDemodDly != qDemodDly
      && iDemodDly.Length == DEMOD_DLY_LEN && qDemodDly.Length == DEMOD_DLY_LEN
      && currIndex < DEMOD_DLY_LEN
    }

    ghost function ILine(): DelayLine
      requires Valid()
      reads this, iDemodDly
    {
      Unroll(iDemodDly[..], currIndex)
    }

    ghost function QLine(): DelayLine
      requires Valid()
      reads this, qDemodDly
    {
      Unroll(qDemodDly[..], currIndex)
    }

    constructor ()
      ensures Valid() && fresh(iDemodDly) && fresh(qDemodDly)
      ensures ILine() == History([]) && QLine() == History([])
    {
      iDemodDly := new Sample[DEMOD_DLY_LEN](_ => 0);
      qDemodDly := new Sample[DEMOD_DLY_LEN](_ => 0);
      currIndex := 0;
      new;
      assert ILine() == History([]) && QLine() == History([]);
    }

    method PhaseDiscrim(iOut: int, qOut: int) returns (phase: int)
      requires Valid()
      modifies this, iDemodDly, qDemodDly
      ensures Valid()
      ensures ILine() == Slide(old(ILine()), ToInt16(iOut))
      ensures QLine() == Slide(old(QLine()), ToInt16(qOut))
      ensures phase == ToInt32(ILine()[DELAY] * qOut - iOut * QLine()[DELAY]) / 0x800
    {
      var previousBitIndex := (currIndex - 12) % DEMOD_DLY_LEN;
      UnrollWrite(iDemodDly[..], currIndex, ToInt16(iOut));
      UnrollWrite(qDemodDly[..], currIndex, ToInt16(qOut));
      iDemodDly[currIndex] := ToInt16(iOut);
      qDemodDly[currIndex] := ToInt16(qOut);
      assert iDemodDly[..] == old(iDemodDly[..])[currIndex := ToInt16(iOut)];
      assert qDemodDly[..] == old(qDemodDly[..])[currIndex := ToInt16(qOut)];
      var iPrev := iDemodDly[previousBitIndex];
      var qPrev := qDemodDly[previousBitIndex];
      assert Back((currIndex + 1) % DEMOD_DLY_LEN, DELAY + 1) == previousBitIndex;
      var lphase := iPrev * qOut;
      lphase := lphase - iOut * qPrev;
      currIndex := (currIndex + 1) % DEMOD_DLY_LEN;
      phase := ToInt32(lphase) / 0x800;
    }
  }

  // ---------------------------------------------------------------- runs

  // The delay line after the values x, with zeros before the first.
  function History(x: seq<Sample>): DelayLine {
    seq(DEMOD_DLY_LEN, k requires 0 <= k < DEMOD_DLY_LEN => if k < |x| then x[|x| - 1 - k] else 0)
  }

  lemma HistorySlides(x: seq<Sample>, v: Sample)
    ensures Slide(History(x), v) == History(x + [v])
  {
  }

  // x[n], taken as zero before the start.
  function At(x: seq<Sample>, n: int): Sample
    requires n < |x|
  {
    if n >= 0 then x[n] else 0
  }

  /** Call n sees the values of call n - 12, zero before the start, across any number of wraps. */
  lemma DelayedByTwelve(x: seq<Sample>, n: nat)
    requires n < |x|
    ensures History(x[..n + 1])[DELAY] == At(x, n - 12)
  {
  }

  lemma MulBound(a: nat, b: nat, m: nat, n: nat)
    requires a <= m && b <= n
    ensures 0 <= a * b <= m * n
  {
  }

  // A product of two 16-bit values falls short of -2^30.
  lemma ProductRange(a: int, b: int)
    requires IsInt16(a) && IsInt16(b)
    ensures -0x3FFF_8000 <= a * b <= 0x4000_0000
  {
    if a >= 0 && b >= 0 {
      MulBound(a, b, 0x7FFF, 0x7FFF);
    } else if a >= 0 {
      MulBound(a, -b, 0x7FFF, 0x8000);
    } else if b >= 0 {
      MulBound(-a, b, 0x8000, 0x7FFF);
    } else {
      MulBound(-a, -b, 0x8000, 0x8000);
    }
  }

  /** The cross product of any 16-bit values fits 32 bits, with nothing to spare at the top but 2^15:
      no further bound on the inputs is needed on a machine with a 32-bit long. */
  lemma CrossProductFits32(iPrev: Sample, qPrev: Sample, iNow: Sample, qNow: Sample)
    ensures IsInt32(iPrev * qNow) && IsInt32(iNow * qPrev)
    ensures Abs(CrossProduct(iPrev, qPrev, iNow, qNow)) <= 0x8000_0000 - 0x8000
  {
    ProductRange(iPrev, qNow);
    ProductRange(iNow, qPrev);
  }

  /** Swapping the channels negates the discriminator before the shift. */
  lemma SwapNegates(iPrev: int, qPrev: int, iNow: int, qNow: int)
    ensures CrossProduct(qPrev, iPrev, qNow, iNow) == -CrossProduct(iPrev, qPrev, iNow, qNow)
  {
  }

  /** The n-th output for channels i and q, in closed form. */
  function Discriminated(i: seq<Sample>, q: seq<Sample>, n: nat): int
    requires n < |i| == |q|
  {
    (At(i, n - 12) * q[n] - i[n] * At(q, n - 12)) / 0x800
  }

  /** What PhaseDiscrim computes on its n-th call is floor((I[n-12] Q[n] - I[n] Q[n-12]) / 2^11). */
  lemma NthDiscriminated(i: seq<Sample>, q: seq<Sample>, n: nat)
    requires n < |i| == |q|
    ensures ToInt32(CrossProduct(History(i[..n + 1])[DELAY], History(q[..n + 1])[DELAY], i[n], q[n])) / 0x800
         == Discriminated(i, q, n) == (At(i, n - 12) * q[n] - i[n] * At(q, n - 12)) / 0x800
  {
    DelayedByTwelve(i, n);
    DelayedByTwelve(q, n);
    CrossProductFits32(At(i, n - 12), At(q, n - 12), i[n], q[n]);
  }

  // The cross product of a vector with itself turned and scaled.
  lemma TurnedProduct(x: int, y: int, a: int, b: int)
    ensures CrossProduct(x, y, a * x - b * y, a * y + b * x) == b * (x * x + y * y)
  {
    assert x * (a * y + b * x) == a * (x * y) + b * (x * x);
    assert (a * x - b * y) * y == a * (x * y) - b * (y * y);
    assert b * (x * x + y * y) == b * (x * x) + b * (y * y);
  }

  /** The rotation law: when the vector (I, Q) is the one twelve calls back, turned and scaled by the complex
      factor a + b i, the phase is b times its squared length over 2^11, whatever a is: never negative for a
      turn toward increasing angle, never positive for one the other way. */
  lemma PhaseOfRotation(i: seq<Sample>, q: seq<Sample>, n: nat, a: int, b: int)
    requires n < |i| == |q|
    requires i[n] == a * At(i, n - 12) - b * At(q, n - 12) && q[n] == a * At(q, n - 12) + b * At(i, n - 12)
    ensures ToInt32(CrossProduct(History(i[..n + 1])[DELAY], History(q[..n + 1])[DELAY], i[n], q[n])) / 0x800
         == (b * (At(i, n - 12) * At(i, n - 12) + At(q, n - 12) * At(q, n - 12))) / 0x800
  {
    NthDiscriminated(i, q, n);
    TurnedProduct(At(i, n - 12), At(q, n - 12), a, b);
  }
}
