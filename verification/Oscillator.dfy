/** The quadrature oscillator of osc.c: two phase accumulators over one table of 2048 values. */
module Oscillator {
  import opened Words

  const LUT_SIZE := 2048
  const INJ_FREQ := 311
  const I_CHANNEL := 0
  const Q_CHANNEL := 1

  // Any table whose values have magnitude at most 32767, as a cosine scaled by 32767.0 does.
  type Table = t: seq<Sample> | |t| == LUT_SIZE && forall i :: 0 <= i < LUT_SIZE ==> -32767 <= t[i] <= 32767
    witness seq(LUT_SIZE, _ => 0)

  class Oscillator {
    const oscLut: array<Sample>
    var iPhase: nat
    var qPhase: nat

    ghost predicate Valid()
      reads this
    {
      oscLut.Length == LUT_SIZE && iPhase < LUT_SIZE && qPhase < LUT_SIZE
    }

    constructor (table: Table)
      ensures Valid() && fresh(oscLut) && oscLut[..] == table
      ensures iPhase == PhaseAt(0, 0) && qPhase == PhaseAt(1536, 0)
    {
      var lut := new Sample[LUT_SIZE];
      oscLut := lut;
      iPhase := 0;
      qPhase := (3 * LUT_SIZE) / 4;
      new;
      var i := 0;
      while i < LUT_SIZE
        invariant 0 <= i <= LUT_SIZE
        invariant iPhase == 0 && qPhase == 1536
        invariant forall k :: 0 <= k < i ==> oscLut[k] == table[k]
      {
        oscLut[i] := table[i];
        i := i + 1;
      }
      assert oscLut[..] == table;
    }

    method RunOsc(channel: int) returns (oscout: Sample)
      requires Valid()
      modifies this`iPhase, this`qPhase
      ensures Valid()
      ensures oscout == if channel == I_CHANNEL then oscLut[old(iPhase)]
                        else if channel == Q_CHANNEL then oscLut[old(qPhase)] else 0
      ensures iPhase == if channel == I_CHANNEL then Advance(old(iPhase)) else old(iPhase)
      ensures qPhase == if channel == Q_CHANNEL then Advance(old(qPhase)) else old(qPhase)
    {
      if channel == I_CHANNEL {
        oscout := oscLut[iPhase];
        iPhase := (iPhase + INJ_FREQ) % LUT_SIZE;
      } else if channel == Q_CHANNEL {
        oscout := oscLut[qPhase];
        qPhase := (qPhase + INJ_FREQ) % LUT_SIZE;
      } else {
        return 0;
      }
    }
  }

  function Advance(phase: nat): nat {
    (phase + INJ_FREQ) % LUT_SIZE
  }

  // The phase after n calls, one by one.
  function PhaseAt(start: nat, n: nat): nat
    requires start < LUT_SIZE
  {
    if n == 0 then start else Advance(PhaseAt(start, n - 1))
  }

  // The phase from any start, in closed form.
  lemma {:induction false} PhaseIs(start: nat, n: nat)
    requires start < LUT_SIZE
    ensures PhaseAt(start, n) == (start + INJ_FREQ * n) % LUT_SIZE
  {
    if n > 0 {
      PhaseIs(start, n - 1);
      ModAdd(start + INJ_FREQ * (n - 1), INJ_FREQ, LUT_SIZE);
    }
  }

  /** After n calls on each channel the phases are 311 n and 311 n + 1536 mod 2048: a quarter turn
      apart at every moment. */
  lemma PhasesInQuadrature(n: nat)
    ensures PhaseAt(0, n) == (311 * n) % 2048
    ensures PhaseAt(1536, n) == (PhaseAt(0, n) + 1536) % 2048
  {
    PhaseIs(0, n);
    PhaseIs(1536, n);
    ModAdd(INJ_FREQ * n, 1536, LUT_SIZE);
  }

  /** From any start, so on either channel, any 2048 consecutive phases visit every table entry exactly
      once. */
  lemma PhasesPermuteTable(start: nat, m: nat, p: nat)
    requires start < LUT_SIZE && p < LUT_SIZE
    ensures exists n :: m <= n < m + LUT_SIZE && PhaseAt(start, n) == p
    ensures forall a, b :: m <= a < b < m + LUT_SIZE ==> PhaseAt(start, a) != PhaseAt(start, b)
  {
    // 1159 is the inverse of 311 modulo 2048
    var e := p + LUT_SIZE - start;
    var n := NextWithResidue(m, (1159 * e) % LUT_SIZE);
    PhaseIs(start, n);
    PhaseFromResidue(start, n, p);
    assert PhaseAt(start, n) == p;
    forall a, b | m <= a < b < m + LUT_SIZE
      ensures PhaseAt(start, a) != PhaseAt(start, b)
    {
      PhaseIs(start, a);
      PhaseIs(start, b);
      DifferentPhases(start, a, b);
    }
  }

  // The first number from m on with a given residue.
  function NextWithResidue(m: nat, r: nat): (n: nat)
    requires r < LUT_SIZE
    ensures m <= n < m + LUT_SIZE && n % LUT_SIZE == r
  {
    var d := m % LUT_SIZE;
    if r >= d then m + (r - d) else m + (r + LUT_SIZE - d)
  }

  lemma PhaseFromResidue(start: nat, n: nat, p: nat)
    requires start < LUT_SIZE && p < LUT_SIZE && n % LUT_SIZE == (1159 * (p + LUT_SIZE - start)) % LUT_SIZE
    ensures (start + INJ_FREQ * n) % LUT_SIZE == p
  {
    var e := p + LUT_SIZE - start;
    var q := n / LUT_SIZE - (1159 * e) / LUT_SIZE;
    assert n == 1159 * e + q * LUT_SIZE;
    assert 311 * 1159 == 176 * 2048 + 1;
    assert start + INJ_FREQ * n == (176 * e + 311 * q + 1) * LUT_SIZE + p;
    ModUnique(start + INJ_FREQ * n, 176 * e + 311 * q + 1, p, LUT_SIZE);
  }

  lemma DifferentPhases(start: nat, a: nat, b: nat)
    requires a < b < a + LUT_SIZE
    ensures (start + INJ_FREQ * a) % LUT_SIZE != (start + INJ_FREQ * b) % LUT_SIZE
  {
    var x, y := start + INJ_FREQ * a, start + INJ_FREQ * b;
    var k, e := y / LUT_SIZE - x / LUT_SIZE, y % LUT_SIZE - x % LUT_SIZE;
    assert 311 * (b - a) == k * 2048 + e;
    assert b - a == (1159 * k - 176 * (b - a)) * 2048 + 1159 * e;
    MultipleTooSmall(1159 * k - 176 * (b - a), 2048);
  }
}
