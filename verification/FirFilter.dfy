/** The 45-tap low-pass filter of fir.c (the Hann-window table). */
module FirFilter {
  import opened Words

  const N_FIR_TAPS := 45

  type Coefficients = h: seq<Sample> | |h| == N_FIR_TAPS witness seq(N_FIR_TAPS, _ => 0)

  // The table of the source, nine to a row, read as signed 16-bit values (0xFF45 is -187, and so on).
  const ROW_0: seq<Sample> := [24, 85, 151, 208, 236, 217, 138, 0, -187]
  const ROW_1: seq<Sample> := [-395, -585, -707, -713, -563, -233, 276, 940, 1706]
  const ROW_2: seq<Sample> := [2500, 3239, 3840, 4232, 4368, 4232, 3840, 3239, 2500]
  const ROW_3: seq<Sample> := [1706, 940, 276, -233, -563, -713, -707, -585, -395]
  const ROW_4: seq<Sample> := [-187, 0, 138, 217, 236, 208, 151, 85, 24]
  const FIR_COEFFS: Coefficients := ROW_0 + ROW_1 + ROW_2 + ROW_3 + ROW_4

  // The last 45 inputs, newest first.
  type Window = w: seq<int> | |w| == N_FIR_TAPS witness seq(N_FIR_TAPS, _ => 0)

  function Slide(w: Window, sample: int): Window {
    [sample] + w[..N_FIR_TAPS - 1]
  }

  // The multiply-accumulate sum over the first n taps.
  function Mac(h: Coefficients, w: Window, n: nat): int
    requires n <= N_FIR_TAPS
  {
    if n == 0 then 0 else Mac(h, w, n - 1) + w[n - 1] * h[n - 1]
  }

  function FilterWith(h: Coefficients, w: Window): int {
    Mac(h, w, N_FIR_TAPS) / 0x1_0000
  }

  function Filter(w: Window): int {
    FilterWith(FIR_COEFFS, w)
  }

  // ---------------------------------------------------------------- bounds

  // Sum of coefficient magnitudes.
  function Gain(h: seq<Sample>): nat
    decreases |h|
  {
    if h == [] then 0 else Abs(h[0]) + Gain(h[1..])
  }

  lemma GainRow0()
    ensures Gain(ROW_0) == 1246
  {
  }

  lemma GainRow1()
    ensures Gain(ROW_1) == 6118
  {
  }

  lemma GainRow2()
    ensures Gain(ROW_2) == 31990
  {
  }

  lemma GainRow3()
    ensures Gain(ROW_3) == 6118
  {
  }

  lemma GainRow4()
    ensures Gain(ROW_4) == 1246
  {
  }

  lemma GainTotal()
    ensures Gain(FIR_COEFFS) == 46718
  {
    GainRow0();
    GainRow1();
    GainRow2();
    GainRow3();
    GainRow4();
    GainAppend(ROW_0, ROW_1);
    GainAppend(ROW_0 + ROW_1, ROW_2);
    GainAppend(ROW_0 + ROW_1 + ROW_2, ROW_3);
    GainAppend(ROW_0 + ROW_1 + ROW_2 + ROW_3, ROW_4);
  }

  predicate Bounded(w: Window, bound: nat) {
    forall i :: 0 <= i < N_FIR_TAPS ==> Abs(w[i]) <= bound
  }

  lemma ProductBound(a: int, b: int, bound: nat)
    requires Abs(a) <= bound
    ensures Abs(a * b) <= bound * Abs(b)
  {
  }

  lemma {:induction false} GainAppend(a: seq<Sample>, b: seq<Sample>)
    ensures Gain(a + b) == Gain(a) + Gain(b)
    decreases |a|
  {
    if a == [] {
      assert a + b == b;
    } else {
      assert (a + b)[1..] == a[1..] + b;
      GainAppend(a[1..], b);
    }
  }

  lemma GainOne(a: seq<Sample>, c: Sample)
    ensures Gain(a + [c]) == Gain(a) + Abs(c)
  {
    GainAppend(a, [c]);
    assert [c][1..] == [] && Gain([c]) == Abs(c);
  }

  lemma {:induction false} GainPrefix(h: seq<Sample>, n: nat)
    requires n <= |h|
    ensures Gain(h[..n]) <= Gain(h)
    decreases |h| - n
  {
    if n == |h| {
      assert h[..n] == h;
    } else {
      GainPrefix(h, n + 1);
      assert h[..n + 1] == h[..n] + [h[n]];
      GainOne(h[..n], h[n]);
    }
  }

  lemma Distribute(bound: nat, a: nat, b: nat)
    ensures bound * (a + b) == bound * a + bound * b
  {
  }

  lemma ScaleMonotone(bound: nat, a: nat, b: nat)
    requires a <= b
    ensures bound * a <= bound * b
  {
  }

  lemma {:induction false} MacWithin(h: Coefficients, w: Window, bound: nat, n: nat)
    requires n <= N_FIR_TAPS && Bounded(w, bound)
    ensures Abs(Mac(h, w, n)) <= bound * Gain(h[..n])
  {
    if n > 0 {
      MacWithin(h, w, bound, n - 1);
      ProductBound(w[n - 1], h[n - 1], bound);
      assert h[..n] == h[..n - 1] + [h[n - 1]];
      GainOne(h[..n - 1], h[n - 1]);
      Distribute(bound, Gain(h[..n - 1]), Abs(h[n - 1]));
    }
  }

  /** Every partial sum of the accumulator stays within the gain times the input bound. */
  lemma MacBound(h: Coefficients, w: Window, bound: nat, n: nat)
    requires n <= N_FIR_TAPS && Bounded(w, bound)
    ensures Abs(Mac(h, w, n)) <= bound * Gain(h)
  {
    MacWithin(h, w, bound, n);
    GainPrefix(h, n);
    ScaleMonotone(bound, Gain(h[..n]), Gain(h));
  }

  // The same filter on the 32-bit accumulator of the source.
  function WrappedFilter(w: Window): int {
    ToInt32(Mac(FIR_COEFFS, w, N_FIR_TAPS)) / 0x1_0000
  }

  // One turn of the loop: product and sum wrapped to 32 bits are the wrapped partial sum.
  lemma MacStep(h: Coefficients, w: Window, n: nat)
    requires n < N_FIR_TAPS
    ensures ToInt32(ToInt32(Mac(h, w, n)) + ToInt32(w[n] * h[n])) == ToInt32(Mac(h, w, n + 1))
  {
    WrapSum(ToInt32(Mac(h, w, n)), w[n] * h[n]);
    WrapSum(w[n] * h[n], Mac(h, w, n));
  }

  /** On 16-bit inputs no product and no partial sum leaves 32 bits, so the accumulator is exact. */
  lemma AccumulatorExact(w: Window, n: nat)
    requires Bounded(w, 0x8000) && n < N_FIR_TAPS
    ensures IsInt32(w[n] * FIR_COEFFS[n]) && IsInt32(Mac(FIR_COEFFS, w, n + 1))
    ensures WrappedFilter(w) == Filter(w)
  {
    GainTotal();
    MacBound(FIR_COEFFS, w, 0x8000, n + 1);
    MacBound(FIR_COEFFS, w, 0x8000, N_FIR_TAPS);
    ProductBound(w[n], FIR_COEFFS[n], 0x8000);
  }

  /** The filter of the source: every partial sum stays within 46718 * 32767, and with inputs of
      magnitude at most 32767 the output lies in -23359..23358, so it fits the 16-bit delay lines. */
  lemma FilterRange(w: Window, n: nat)
    requires Bounded(w, 32767) && n <= N_FIR_TAPS
    ensures Abs(Mac(FIR_COEFFS, w, n)) <= 46718 * 32767
    ensures -23359 <= Filter(w) <= 23358
  {
    GainTotal();
    MacBound(FIR_COEFFS, w, 32767, n);
    MacBound(FIR_COEFFS, w, 32767, N_FIR_TAPS);
  }

  // ---------------------------------------------------------------- the circular buffer

  function Succ(wrptr: nat): nat {
    if wrptr == N_FIR_TAPS - 1 then 0 else wrptr + 1
  }

  function Pred(wrptr: nat): nat {
    if wrptr == 0 then N_FIR_TAPS - 1 else wrptr - 1
  }

  // Where tap i looks after a write to slot wr: i places back around the ring.
  function TapSlot(wr: nat, i: nat): (slot: nat)
    requires wr < N_FIR_TAPS && i <= N_FIR_TAPS
    ensures slot < N_FIR_TAPS
  {
    if i <= wr then wr - i else wr + N_FIR_TAPS - i
  }

  lemma TapBack(wr: nat, i: nat)
    requires wr < N_FIR_TAPS && i < N_FIR_TAPS
    ensures TapSlot(wr, i + 1) == Pred(TapSlot(wr, i))
  {
  }

  // The ring read from its newest slot, the one before wrptr, backwards.
  function Unroll(data: seq<int>, wrptr: nat): Window
    requires |data| == N_FIR_TAPS && wrptr < N_FIR_TAPS
  {
    seq(N_FIR_TAPS, i requires 0 <= i < N_FIR_TAPS => data[TapSlot(Pred(wrptr), i)])
  }

  lemma UnrollWrite(data: seq<int>, wrptr: nat, sample: int)
    requires |data| == N_FIR_TAPS && wrptr < N_FIR_TAPS
    ensures Unroll(data[wrptr := sample], Succ(wrptr)) == Slide(Unroll(data, wrptr), sample)
  {
  }

  lemma UnrollAt(data: seq<int>, wrptr: nat, i: nat)
    requires |data| == N_FIR_TAPS && wrptr < N_FIR_TAPS && i < N_FIR_TAPS
    ensures Unroll(data, Succ(wrptr))[i] == data[TapSlot(wrptr, i)]
  {
  }

  // One turn of the loop on the ring.
  lemma TapStep(h: Coefficients, data: seq<int>, wr: nat, i: nat)
    requires |data| == N_FIR_TAPS && wr < N_FIR_TAPS && i < N_FIR_TAPS
    ensures ToInt32(ToInt32(Mac(h, Unroll(data, Succ(wr)), i)) + ToInt32(data[TapSlot(wr, i)] * h[i]))
         == ToInt32(Mac(h, Unroll(data, Succ(wr)), i + 1))
  {
    UnrollAt(data, wr, i);
    MacStep(h, Unroll(data, Succ(wr)), i);
  }

  class FirData {
    const firdata: array<int>
    var wrptr: nat
    var rdptr: nat

    ghost predicate Valid()
      reads this, firdata
    {
      firdata.Length == N_FIR_TAPS && wrptr < N_FIR_TAPS && rdptr < N_FIR_TAPS
    }

    ghost function Contents(): (w: Window)
      requires Valid()
      reads this, firdata
    {
      Unroll(firdata[..], wrptr)
    }

    constructor ()
      ensures Valid() && fresh(firdata) && wrptr == rdptr == 0
      ensures Contents() == History([])
    {
      firdata := new int[N_FIR_TAPS](_ => 0);
      wrptr, rdptr := 0, 0;
      new;
      assert Contents() == History([]);
    }

    // The multiply-accumulate loop, backwards around the ring from the slot just written.
    method Accumulate(h: Coefficients, ghost w: Window, ghost wr: nat) returns (mac: int)
      requires firdata.Length == N_FIR_TAPS && wr < N_FIR_TAPS && rdptr == wr
      requires w == Unroll(firdata[..], Succ(wr))
      modifies this`rdptr
      ensures mac == ToInt32(Mac(h, w, N_FIR_TAPS)) && rdptr == wr
    {
      mac := 0;
      assert ToInt32(Mac(h, w, 0)) == 0;
      assert TapSlot(wr, 0) == wr && TapSlot(wr, N_FIR_TAPS) == wr;
      hide ToInt32, Unroll, Mac, TapSlot;
      var i := 0;
      while i < N_FIR_TAPS
        invariant 0 <= i <= N_FIR_TAPS
        invariant rdptr == TapSlot(wr, i)
        invariant mac == ToInt32(Mac(h, w, i))
      {
        var term1 := firdata[rdptr];
        var term2 := h[i];
        TapStep(h, firdata[..], wr, i);
        TapBack(wr, i);
        var macin := ToInt32(term1 * term2);
        mac := ToInt32(mac + macin);
        if rdptr == 0 {
          rdptr := N_FIR_TAPS - 1;
        } else {
          rdptr := rdptr - 1;
        }
        i := i + 1;
      }
    }

    method DoFir(sample: int) returns (macout: int)
      requires Valid()
      modifies this, firdata
      ensures Valid()
      ensures Contents() == Slide(old(Contents()), sample)
      ensures macout == WrappedFilter(Contents())
      ensures rdptr == old(wrptr)
    {
      ghost var wr := wrptr;
      UnrollWrite(firdata[..], wrptr, sample);
      firdata[wrptr] := sample;
      assert firdata[..] == old(firdata[..])[wr := sample];
      rdptr := wrptr;
      if wrptr == N_FIR_TAPS - 1 {
        wrptr := 0;
      } else {
        wrptr := wrptr + 1;
      }
      var mac := Accumulate(FIR_COEFFS, Unroll(firdata[..], wrptr), wr);
      macout := mac / 0x1_0000;
    }
  }

  /** The two channels of RunFIR. */
  class FirBank {
    const iChannel: FirData
    const qChannel: FirData

    ghost predicate Valid()
      reads iChannel, iChannel.firdata, qChannel, qChannel.firdata
    {
      iChannel != qChannel && iChannel.firdata != qChannel.firdata && iChannel.Valid() && qChannel.Valid()
    }

    constructor ()
      ensures Valid()
      ensures fresh(iChannel) && fresh(iChannel.firdata) && fresh(qChannel) && fresh(qChannel.firdata)
      ensures iChannel.Contents() == History([]) && qChannel.Contents() == History([])
    {
      iChannel := new FirData();
      qChannel := new FirData();
    }

    method RunFIR(inputSample: int, channel: int) returns (out: int)
      requires Valid()
      modifies iChannel, iChannel.firdata, qChannel, qChannel.firdata
      ensures Valid()
      ensures iChannel.Contents()
           == if channel == 0 then Slide(old(iChannel.Contents()), inputSample) else old(iChannel.Contents())
      ensures qChannel.Contents()
           == if channel == 1 then Slide(old(qChannel.Contents()), inputSample) else old(qChannel.Contents())
      ensures channel != 0 ==> unchanged(iChannel) && unchanged(iChannel.firdata)
      ensures channel != 1 ==> unchanged(qChannel) && unchanged(qChannel.firdata)
      ensures out == if channel == 0 then WrappedFilter(iChannel.Contents())
                     else if channel == 1 then WrappedFilter(qChannel.Contents()) else 0
    {
      if channel == 0 {
        out := iChannel.DoFir(inputSample);
      } else if channel == 1 {
        out := qChannel.DoFir(inputSample);
      } else {
        return 0;
      }
    }
  }

  // ---------------------------------------------------------------- convolution

  // The window after the inputs x, with zeros before the first.
  function History(x: seq<int>): Window {
    seq(N_FIR_TAPS, i requires 0 <= i < N_FIR_TAPS => if i < |x| then x[|x| - 1 - i] else 0)
  }

  lemma HistorySlides(x: seq<int>, sample: int)
    ensures Slide(History(x), sample) == History(x + [sample])
  {
  }

  // sum of h[i] * x[n - i] for i < taps, taking x as zero before its start
  function Convolution(h: Coefficients, x: seq<int>, n: nat, taps: nat): int
    requires n < |x| && taps <= N_FIR_TAPS
  {
    if taps == 0 then 0
    else Convolution(h, x, n, taps - 1) + (if taps - 1 <= n then h[taps - 1] * x[n - (taps - 1)] else 0)
  }

  lemma {:induction false} MacIsConvolution(h: Coefficients, x: seq<int>, n: nat, taps: nat)
    requires n < |x| && taps <= N_FIR_TAPS
    ensures Mac(h, History(x[..n + 1]), taps) == Convolution(h, x, n, taps)
    decreases taps
  {
    if taps > 0 {
      MacIsConvolution(h, x, n, taps - 1);
      var w := History(x[..n + 1]);
      assert w[taps - 1] == if taps - 1 <= n then x[n - (taps - 1)] else 0;
    }
  }

  /** The n-th output of a filter started from zeros is the convolution of the input with the
      coefficients, scaled down by 2^16. */
  lemma FilterIsConvolution(x: seq<int>, n: nat)
    requires n < |x|
    ensures Filter(History(x[..n + 1])) == Convolution(FIR_COEFFS, x, n, N_FIR_TAPS) / 0x1_0000
  {
    MacIsConvolution(FIR_COEFFS, x, n, N_FIR_TAPS);
  }

  function Reversed(w: seq<int>): (r: seq<int>)
    ensures |r| == |w|
  {
    seq(|w|, i requires 0 <= i < |w| => w[|w| - 1 - i])
  }

  lemma CoeffsSymmetric()
    ensures Reversed(FIR_COEFFS) == FIR_COEFFS
  {
  }

  // Sum of w[i] * h[i] for lo <= i < 45.
  function MacFrom(h: Coefficients, w: Window, lo: nat): int
    requires lo <= N_FIR_TAPS
    decreases N_FIR_TAPS - lo
  {
    if lo == N_FIR_TAPS then 0 else w[lo] * h[lo] + MacFrom(h, w, lo + 1)
  }

  lemma {:induction false} MacSplits(h: Coefficients, w: Window, n: nat)
    requires n <= N_FIR_TAPS
    ensures Mac(h, w, N_FIR_TAPS) == Mac(h, w, n) + MacFrom(h, w, n)
    decreases N_FIR_TAPS - n
  {
    if n < N_FIR_TAPS {
      MacSplits(h, w, n + 1);
    }
  }

  lemma {:induction false} MacReversed(h: Coefficients, w: Window, n: nat)
    requires n <= N_FIR_TAPS && Reversed(h) == h
    ensures Mac(h, Reversed(w), n) == MacFrom(h, w, N_FIR_TAPS - n)
    decreases n
  {
    if n > 0 {
      MacReversed(h, w, n - 1);
      assert h[n - 1] == Reversed(h)[n - 1] == h[45 - n];
    }
  }

  /** The filter is linear phase: reading the 45 samples backwards gives the same output. */
  lemma FilterReversible(w: Window)
    ensures Filter(Reversed(w)) == Filter(w)
  {
    CoeffsSymmetric();
    MacReversed(FIR_COEFFS, w, N_FIR_TAPS);
    MacSplits(FIR_COEFFS, w, 0);
  }
}
