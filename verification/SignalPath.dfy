/** The whole fixed-point path of the receive thread: oscillator, mixer, low-pass filter and phase
    discriminator, from a 16-bit sample to the phase that the slicer compares. */
module SignalPath {
  import opened Words
  import Osc = Oscillator
  import Fir = FirFilter
  import Disc = Discriminator

  // (RTL_SAMPLE)(((int)osc * (int)sample) >> 15)
  function Mix(osc: Sample, sample: Sample): Sample {
    ToInt16((osc * sample) / 0x8000)
  }

  // State between samples: both phases, both filter windows, both delay lines.
  datatype Path = Path(
    iPhase: nat, qPhase: nat, iWindow: Fir.Window, qWindow: Fir.Window, iLine: Disc.DelayLine, qLine: Disc.DelayLine)
  {
    predicate InTable() {
      iPhase < Osc.LUT_SIZE && qPhase < Osc.LUT_SIZE
    }

    function Next(t: Osc.Table, sample: Sample): Path
      requires InTable()
    {
      var iw := Fir.Slide(iWindow, Mix(t[iPhase], sample));
      var qw := Fir.Slide(qWindow, Mix(t[qPhase], sample));
      Path(Osc.Advance(iPhase), Osc.Advance(qPhase), iw, qw,
           Disc.Slide(iLine, ToInt16(Fir.Filter(iw))), Disc.Slide(qLine, ToInt16(Fir.Filter(qw))))
    }

    // The phase computed on the sample that led to this state.
    function Phase(): int {
      ToInt32(Disc.CrossProduct(iLine[Disc.DELAY], qLine[Disc.DELAY], Fir.Filter(iWindow), Fir.Filter(qWindow))) / 0x800
    }
  }

  const START := Path(0, 1536, Fir.History([]), Fir.History([]), Disc.History([]), Disc.History([]))

  class FrontEnd {
    const osc: Osc.Oscillator
    const fir: Fir.FirBank
    const disc: Disc.PhaseDiscriminator
    ghost const table: Osc.Table

    ghost predicate Valid()
      reads osc, osc.oscLut, fir.iChannel, fir.iChannel.firdata, fir.qChannel, fir.qChannel.firdata,
            disc, disc.iDemodDly, disc.qDemodDly
    {
      && osc.Valid() && osc.oscLut[..] == table && fir.Valid() && disc.Valid()
      && Fir.Bounded(fir.iChannel.Contents(), 0x8000) && Fir.Bounded(fir.qChannel.Contents(), 0x8000)
      && osc.oscLut != disc.iDemodDly && osc.oscLut != disc.qDemodDly
    }

    ghost function Model(): Path
      requires Valid()
      reads osc, osc.oscLut, fir.iChannel, fir.iChannel.firdata, fir.qChannel, fir.qChannel.firdata,
            disc, disc.iDemodDly, disc.qDemodDly
    {
      Path(osc.iPhase, osc.qPhase, fir.iChannel.Contents(), fir.qChannel.Contents(), disc.ILine(), disc.QLine())
    }

    constructor (t: Osc.Table)
      ensures Valid() && Model() == START && table == t
    {
      osc := new Osc.Oscillator(t);
      fir := new Fir.FirBank();
      disc := new Disc.PhaseDiscriminator();
      table := t;
    }

    // The oscillator and the mixer.
    method RunMixer(sample: Sample) returns (imix: Sample, qmix: Sample)
      requires Valid()
      modifies osc`iPhase, osc`qPhase
      ensures Valid()
      ensures imix == Mix(table[old(osc.iPhase)], sample) && qmix == Mix(table[old(osc.qPhase)], sample)
      ensures 0x8000 * imix <= table[old(osc.iPhase)] * sample < 0x8000 * imix + 0x8000
      ensures 0x8000 * qmix <= table[old(osc.qPhase)] * sample < 0x8000 * qmix + 0x8000
      ensures osc.iPhase == Osc.Advance(old(osc.iPhase)) && osc.qPhase == Osc.Advance(old(osc.qPhase))
    {
      var iosc := osc.RunOsc(Osc.I_CHANNEL);
      var qosc := osc.RunOsc(Osc.Q_CHANNEL);
      imix := ToInt16((iosc * sample) / 0x8000);
      qmix := ToInt16((qosc * sample) / 0x8000);
      MixExact(iosc, sample);
      MixExact(qosc, sample);
    }

    // The low-pass filters.
    method LowPass(imix: Sample, qmix: Sample) returns (iout: int, qout: int)
      requires Valid()
      modifies fir.iChannel, fir.iChannel.firdata, fir.qChannel, fir.qChannel.firdata
      ensures Valid()
      ensures fir.iChannel.Contents() == Fir.Slide(old(fir.iChannel.Contents()), imix)
      ensures fir.qChannel.Contents() == Fir.Slide(old(fir.qChannel.Contents()), qmix)
      ensures iout == Fir.Filter(fir.iChannel.Contents()) && qout == Fir.Filter(fir.qChannel.Contents())
    {
      iout := fir.RunFIR(imix, Osc.I_CHANNEL);
      qout := fir.RunFIR(qmix, Osc.Q_CHANNEL);
      Fir.AccumulatorExact(fir.iChannel.Contents(), 0);
      Fir.AccumulatorExact(fir.qChannel.Contents(), 0);
    }

    method Demodulate(sample: Sample) returns (phase: int)
      requires Valid()
      modifies osc`iPhase, osc`qPhase, fir.iChannel, fir.iChannel.firdata, fir.qChannel, fir.qChannel.firdata,
               disc, disc.iDemodDly, disc.qDemodDly
      ensures Valid()
      ensures Model() == old(Model()).Next(table, sample)
      ensures phase == Model().Phase()
    {
      hide Mix, ToInt16, ToInt32, Fir.Filter, Fir.Slide, Disc.Slide, Osc.Advance;
      var imix, qmix := RunMixer(sample);
      var iout, qout := LowPass(imix, qmix);
      phase := disc.PhaseDiscrim(iout, qout);
    }

    // The thread's loop over a stretch of samples.
    method Run(samples: seq<Sample>) returns (phases: seq<int>)
      requires Valid()
      modifies osc`iPhase, osc`qPhase, fir.iChannel, fir.iChannel.firdata, fir.qChannel, fir.qChannel.firdata,
               disc, disc.iDemodDly, disc.qDemodDly
      ensures Valid() && old(Model()).InTable()
      ensures Model() == After(old(Model()), table, samples)
      ensures phases == Phases(old(Model()), table, samples)
    {
      ghost var start := Model();
      phases := [];
      assert samples[..0] == [] && start.InTable();
      assert After(start, table, []) == start && Phases(start, table, []) == [];
      hide After, Phases;
      var i := 0;
      while i < |samples|
        invariant 0 <= i <= |samples|
        invariant Valid() && start.InTable() && Model() == After(start, table, samples[..i])
        invariant phases == Phases(start, table, samples[..i])
      {
        OneMorePhase(start, table, samples[..i], samples[i]);
        PrefixGrows(samples, i);
        var phase := Demodulate(samples[i]);
        phases := phases + [phase];
        i := i + 1;
      }
      assert samples[..i] == samples;
    }
  }

  // ---------------------------------------------------------------- closed form of a run

  function After(p: Path, t: Osc.Table, x: seq<Sample>): (r: Path)
    requires p.InTable()
    ensures r.InTable()
    decreases |x|
  {
    if x == [] then p else After(p, t, x[..|x| - 1]).Next(t, x[|x| - 1])
  }

  // The phases computed on the samples of a run, one by one.
  function Phases(p: Path, t: Osc.Table, x: seq<Sample>): (phases: seq<int>)
    requires p.InTable()
    ensures |phases| == |x|
    decreases |x|
  {
    if x == [] then [] else Phases(p, t, x[..|x| - 1]) + [After(p, t, x).Phase()]
  }

  lemma OneMorePhase(p: Path, t: Osc.Table, x: seq<Sample>, sample: Sample)
    requires p.InTable()
    ensures After(p, t, x + [sample]) == After(p, t, x).Next(t, sample)
    ensures Phases(p, t, x + [sample]) == Phases(p, t, x) + [After(p, t, x).Next(t, sample).Phase()]
  {
    assert (x + [sample])[..|x|] == x;
  }

  // The mixer without its cast.
  function Mixed(osc: int, sample: int): (r: int)
    requires Abs(osc) <= 32767 && IsInt16(sample)
    ensures Abs(r) <= 32767
  {
    MixerBound(osc, sample);
    (osc * sample) / 0x8000
  }

  lemma MixerBound(osc: int, sample: int)
    requires Abs(osc) <= 32767 && IsInt16(sample)
    ensures Abs(osc * sample) <= 32767 * 0x8000
  {
    assert Abs(osc * sample) == Abs(osc) * Abs(sample);
    assert Abs(osc) * Abs(sample) <= 32767 * Abs(sample) <= 32767 * 0x8000;
  }

  /** The mixer cast loses nothing: the shifted product of a 16-bit sample and a table value of
      magnitude at most 32767 has magnitude at most 32767. */
  lemma MixExact(osc: Sample, sample: Sample)
    requires Abs(osc) <= 32767
    ensures Mix(osc, sample) == Mixed(osc, sample)
    ensures 0x8000 * Mix(osc, sample) <= osc * sample < 0x8000 * Mix(osc, sample) + 0x8000
  {
  }

  // The mixed stream over the input x, for a channel whose phase starts at `start`.
  function MixStream(t: Osc.Table, x: seq<Sample>, start: nat): (m: seq<int>)
    requires start < Osc.LUT_SIZE
    ensures |m| == |x| && forall n :: 0 <= n < |m| ==> Abs(m[n]) <= 32767
  {
    seq(|x|, n requires 0 <= n < |x| => Mixed(t[PhaseAt(start, n)], x[n]))
  }

  function PhaseAt(start: nat, n: nat): (ph: nat)
    requires start < Osc.LUT_SIZE
    ensures ph < Osc.LUT_SIZE
  {
    Osc.PhaseAt(start, n)
  }

  // The filtered stream over a mixed stream m.
  function FilterStream(m: seq<int>): (f: seq<int>)
    requires forall n :: 0 <= n < |m| ==> Abs(m[n]) <= 32767
    ensures |f| == |m| && forall n :: 0 <= n < |f| ==> -23359 <= f[n] <= 23358
  {
    seq(|m|, n requires 0 <= n < |m| => FilterAt(m[..n + 1]))
  }

  function FilterAt(m: seq<int>): (f: int)
    requires forall n :: 0 <= n < |m| ==> Abs(m[n]) <= 32767
    ensures -23359 <= f <= 23358
  {
    Fir.FilterRange(Fir.History(m), 0);
    Fir.Filter(Fir.History(m))
  }

  lemma MixStreamStep(t: Osc.Table, x: seq<Sample>, start: nat)
    requires start < Osc.LUT_SIZE && x != []
    ensures var n := |x| - 1;
            MixStream(t, x, start) == MixStream(t, x[..n], start) + [Mix(t[PhaseAt(start, n)], x[n])]
  {
  }

  lemma FilterStreamStep(m: seq<int>)
    requires m != [] && forall n :: 0 <= n < |m| ==> Abs(m[n]) <= 32767
    ensures FilterStream(m) == FilterStream(m[..|m| - 1]) + [FilterAt(m)]
  {
    var n := |m| - 1;
    var f, g := FilterStream(m), FilterStream(m[..n]) + [FilterAt(m)];
    assert m[..n + 1] == m;
    forall k | 0 <= k < |f|
      ensures f[k] == g[k]
    {
      if k < n { assert m[..n][..k + 1] == m[..k + 1]; }
    }
  }

  // One channel, one sample further.
  lemma ChannelStep(t: Osc.Table, x: seq<Sample>, start: nat)
    requires start < Osc.LUT_SIZE && x != []
    ensures var n := |x| - 1;
            var before, m := MixStream(t, x[..n], start), MixStream(t, x, start);
            var w := Fir.Slide(Fir.History(before), Mix(t[PhaseAt(start, n)], x[n]));
            && w == Fir.History(m)
            && Disc.Slide(Disc.History(FilterStream(before)), ToInt16(Fir.Filter(w))) == Disc.History(FilterStream(m))
  {
    var n := |x| - 1;
    var before, m := MixStream(t, x[..n], start), MixStream(t, x, start);
    MixStreamStep(t, x, start);
    Fir.HistorySlides(before, m[n]);
    FilterStreamStep(m);
    assert m[..n] == before;
    Disc.HistorySlides(FilterStream(before), FilterAt(m));
  }

  /** Whole-path closed form and overflow freedom. After any run of 16-bit samples, with any table of
      magnitude at most 32767, the windows and delay lines hold exactly the streams computed on
      unbounded integers: no cast, product or partial sum on the way has lost anything. */
  lemma {:induction false} PathClosedForm(t: Osc.Table, x: seq<Sample>)
    ensures var mi, mq := MixStream(t, x, 0), MixStream(t, x, 1536);
            After(START, t, x) == Path(PhaseAt(0, |x|), PhaseAt(1536, |x|), Fir.History(mi), Fir.History(mq),
                                       Disc.History(FilterStream(mi)), Disc.History(FilterStream(mq)))
    decreases |x|
  {
    if x == [] {
      assert MixStream(t, x, 0) == [] && MixStream(t, x, 1536) == [];
      assert FilterStream([]) == [];
    } else {
      PathClosedForm(t, x[..|x| - 1]);
      ChannelStep(t, x, 0);
      ChannelStep(t, x, 1536);
    }
  }

  /** The phase computed on the last of any run of samples is floor((I[n-12] Q[n] - I[n] Q[n-12]) / 2^11)
      of the filtered streams I and Q, with zeros before the start. */
  lemma PhaseClosedForm(t: Osc.Table, x: seq<Sample>)
    requires x != []
    ensures var i, q := FilterStream(MixStream(t, x, 0)), FilterStream(MixStream(t, x, 1536));
            && After(START, t, x).Phase()
            == (Disc.At(i, |x| - 13) * q[|x| - 1] - i[|x| - 1] * Disc.At(q, |x| - 13)) / 0x800
  {
    PathClosedForm(t, x);
    var mi, mq, n := MixStream(t, x, 0), MixStream(t, x, 1536), |x| - 1;
    var i, q := FilterStream(mi), FilterStream(mq);
    assert mi[..n + 1] == mi && mq[..n + 1] == mq && i[..n + 1] == i && q[..n + 1] == q;
    Disc.NthDiscriminated(i, q, n);
  }

  /** The rotation law on the whole path: when the filtered vector is the one twelve samples back, turned and
      scaled by a + b i, the phase is b times its squared length over 2^11. */
  lemma PathPhaseOfRotation(t: Osc.Table, x: seq<Sample>, a: int, b: int)
    requires x != []
    requires var i, q, n := FilterStream(MixStream(t, x, 0)), FilterStream(MixStream(t, x, 1536)), |x| - 1;
             && i[n] == a * Disc.At(i, n - 12) - b * Disc.At(q, n - 12)
             && q[n] == a * Disc.At(q, n - 12) + b * Disc.At(i, n - 12)
    ensures var i, q, n := FilterStream(MixStream(t, x, 0)), FilterStream(MixStream(t, x, 1536)), |x| - 1;
            && After(START, t, x).Phase()
            == (b * (Disc.At(i, n - 12) * Disc.At(i, n - 12) + Disc.At(q, n - 12) * Disc.At(q, n - 12))) / 0x800
  {
    var i, q, n := FilterStream(MixStream(t, x, 0)), FilterStream(MixStream(t, x, 1536)), |x| - 1;
    PhaseClosedForm(t, x);
    Disc.TurnedProduct(Disc.At(i, n - 12), Disc.At(q, n - 12), a, b);
  }

  /** Each filtered value is the convolution of the mixed stream with the coefficients, over 2^16. */
  lemma StreamIsConvolution(m: seq<int>, n: nat)
    requires n < |m| && forall k :: 0 <= k < |m| ==> Abs(m[k]) <= 32767
    ensures FilterStream(m)[n] == Fir.Convolution(Fir.FIR_COEFFS, m, n, 45) / 0x1_0000
  {
    Fir.FilterIsConvolution(m, n);
  }
}
