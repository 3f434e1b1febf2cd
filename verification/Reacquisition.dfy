/** Bursts that follow one another in silence. Silence slices to level 1 and DSPClearSync keeps the
    correlator's history, so the receiver is back in sync on the first sample after the clear and finds
    the next burst by byte sync alone. */
module Reacquisition {
  import opened Words
  import opened BitClock
  import opened ClockLimit
  import opened Framer
  import opened Correlator
  import opened Receiver
  import opened Session

  // ---------------------------------------------------------------- bit sync in silence

  // The clock fires on one of the next two calls, so before a change of level is seen as an edge.
  predicate AboutToFire(calls: nat) {
    IsBitCall(calls + 1) || IsBitCall(calls + 2)
  }

  lemma AboutToFireIs(calls: nat)
    ensures Between(calls, 2) == if AboutToFire(calls) then 1 else 0
  {
    BitTimeByRemainder(calls + 1);
    BitTimeByRemainder(calls + 2);
    AtMostOneInCell(calls);
    BitTimesMonotone(calls + 2, calls + 23);
  }

  lemma RunsAfterFirst(cells: seq<Cell>)
    requires cells != [] && RunsAtMostNine(BitsOf(cells))
    ensures RunsContinue(cells[0].bit, 1, BitsOf(cells[1..]))
  {
    assert BitsOf(cells) == seq(1, _ => cells[0].bit) + BitsOf(cells[1..]);
    RunsSuffix(cells[0].bit, 1, BitsOf(cells[1..]));
  }

  // A clean cell's bit is sampled once after its edge, and the clock ends up aligned.
  lemma AfterEdge(b: Bit, w: nat)
    requires w == 23 || w == 24
    ensures BitTimes(w - 3) == 1 && Aligned(Running(b, w - 3), b, 1)
  {
    FreeRunAtBit(1);
    FreeRunCountsDown(12, w - 15);
    BitCallIs(2);
    BitTimesIs(w - 3, 1);
  }

  // A clean cell after a change: its bit is sampled once more when the clock was about to fire.
  lemma FallCell(calls: nat, w: nat)
    requires w == 23 || w == 24
    ensures Running(1, calls).Bits(Hold(0, w)) == Hold(0, Between(calls, 2) + 1)
    ensures Aligned(Running(1, calls).After(Hold(0, w)), 0, 1)
  {
    LevelFollows(1, calls, 0, w);
    AfterEdge(0, w);
  }

  // The bits sampled from the fall of a burst's third bit on: its own bits, with the first one doubled
  // when the clock was about to fire.
  lemma BitsFromFall(calls: nat, cells: seq<Cell>)
    requires cells != [] && Clean(cells) && cells[0].bit == 0 && RunsAtMostNine(BitsOf(cells))
    ensures Running(1, calls).Bits(Wave(cells)) == Hold(0, Between(calls, 2)) + BitsOf(cells)
  {
    var w, rest := cells[0].width, cells[1..];
    assert cells[0].Clean();
    FallCell(calls, w);
    RunAppend(Running(1, calls), Hold(0, w), Wave(rest));
    RunsAfterFirst(cells);
    CellsRecovered(Running(1, calls).After(Hold(0, w)), 0, 1, rest);
    BitsOfFirst(cells);
    HoldOnto(0, Between(calls, 2), 1, BitsOf(rest));
  }

  // ---------------------------------------------------------------- byte sync out of silence

  // The bit stream: c ones of silence, a doubled zero or not, and the burst from its third bit on.
  function Stream(c: nat, doubled: bool, tail: seq<Bit>): seq<Bit> {
    Hold(1, c) + (Hold(0, if doubled then 1 else 0) + (SYNC_BITS[2..] + tail))
  }

  // Without a doubled zero the last two ones of the silence complete the first 0xAB.
  lemma FirstPatternPlain(c: nat, tail: seq<Bit>)
    requires c >= 2
    ensures PatternEnds(Stream(c, false, tail), c + 6)
    ensures forall q :: 0 <= q < c + 6 ==> !PatternEnds(Stream(c, false, tail), q)
  {
    var t := Stream(c, false, tail);
    assert t[c - 2..c + 6] == SYNC_BITS;
    forall q | 8 <= q < c + 6
      ensures !PatternEnds(t, q)
    {
      assert t[q - 8..q][2] == t[q - 6] == 1;
    }
  }

  // With a doubled zero the first 0xAB is spoilt and the second is found.
  lemma FirstPatternDoubled(c: nat, tail: seq<Bit>)
    requires c >= 2
    ensures PatternEnds(Stream(c, true, SYNC_BITS + tail), c + 15)
    ensures forall q :: 0 <= q < c + 15 ==> !PatternEnds(Stream(c, true, SYNC_BITS + tail), q)
  {
    var t := Stream(c, true, SYNC_BITS + tail);
    assert t[c + 7..c + 15] == SYNC_BITS;
    assert t[c..c + 7] == [0, 0, 1, 0, 1, 0, 1];
    forall q | 8 <= q < c + 15
      ensures !PatternEnds(t, q)
    {
      Misaligned(t, c, q);
    }
  }

  lemma Misaligned(t: seq<Bit>, c: nat, q: nat)
    requires 2 <= c && 8 <= q < c + 15 <= |t|
    requires t[..c] == Hold(1, c) && t[c..c + 7] == [0, 0, 1, 0, 1, 0, 1] && t[c + 7..c + 15] == SYNC_BITS
    ensures !PatternEnds(t, q)
  {
    var w := t[q - 8..q];
    assert t[c] == t[c..c + 7][0] && t[c + 1] == t[c..c + 7][1];
    assert t[c + 3] == t[c..c + 7][3] && t[c + 5] == t[c..c + 7][5];
    assert t[c + 8] == t[c + 7..c + 15][1];
    if q < c + 6 {
      assert w[2] == t[q - 6] == t[..c][q - 6] == 1;
    } else {
      // the place where the window disagrees with the pattern, by its offset from the silence
      var i := [3, 1, 0, 0, 1, 0, 1, 0, 2][q - c - 6];
      assert w[i] == t[q - 8 + i];
    }
  }

  // Where the rest of the burst begins in either stream.
  lemma PlainSplits(c: nat, tail: seq<Bit>)
    ensures |Stream(c, false, tail)| >= c + 6 && Stream(c, false, tail)[c + 6..] == tail
  {
  }

  lemma DoubledSplits(c: nat, tail: seq<Bit>)
    ensures |Stream(c, true, SYNC_BITS + tail)| >= c + 15 && Stream(c, true, SYNC_BITS + tail)[c + 15..] == tail
  {
  }

  // What the framer delivers from such a stream.
  lemma PlainDelivered(c: nat, bytes: seq<Byte>)
    requires c >= 2
    ensures HUNTING.Bytes(Stream(c, false, Transmit(bytes))) == [SYNC_BYTE] + bytes
  {
    FirstPatternPlain(c, Transmit(bytes));
    PlainSplits(c, Transmit(bytes));
    DeliverRest(Stream(c, false, Transmit(bytes)), c + 6, bytes);
  }

  lemma DoubledDelivered(c: nat, bytes: seq<Byte>)
    requires c >= 2
    ensures HUNTING.Bytes(Stream(c, true, SYNC_BITS + Transmit(bytes))) == [SYNC_BYTE] + bytes
  {
    FirstPatternDoubled(c, Transmit(bytes));
    DoubledSplits(c, Transmit(bytes));
    DeliverRest(Stream(c, true, SYNC_BITS + Transmit(bytes)), c + 15, bytes);
  }

  lemma StreamDelivered(c: nat, doubled: bool, bytes: seq<Byte>)
    requires c >= 2 && bytes != [] && bytes[0] == SYNC_BYTE
    ensures HUNTING.Bytes(Stream(c, doubled, Transmit(bytes))) == if doubled then bytes else [SYNC_BYTE] + bytes
  {
    if doubled {
      SyncBits();
      DoubledDelivered(c, bytes[1..]);
      assert bytes == [SYNC_BYTE] + bytes[1..];
    } else {
      PlainDelivered(c, bytes);
    }
  }

  lemma DeliverRest(t: seq<Bit>, p: nat, bytes: seq<Byte>)
    requires p <= |t| && t[p..] == Transmit(bytes)
    requires PatternEnds(t, p) && forall q :: 0 <= q < p ==> !PatternEnds(t, q)
    ensures HUNTING.Bytes(t) == [SYNC_BYTE] + bytes
  {
    HuntFiresAtFirstPattern(t, p);
    assert t == t[..p] + t[p..];
    FrameAppend(HUNTING, t[..p], t[p..]);
    BytesDelivered(SYNC_BYTE, bytes);
  }

  // ---------------------------------------------------------------- a burst out of silence

  lemma BurstTail(b: Burst)
    requires b.InSilence()
    ensures |b.cells| >= 3 && b.cells[0].bit == 1 && b.cells[1].bit == 1 && b.cells[2].bit == 0
    ensures BitsOf(b.cells[2..]) == SYNC_BITS[2..] + Transmit(Preamble(b.n - 1) + b.message)
    ensures RunsAtMostNine(BitsOf(b.cells[2..]))
  {
    var cells := b.cells;
    var bits := BitsOf(cells);
    OneMoreSyncByte(b.n, b.message);
    SyncByteSent(Preamble(b.n - 1) + b.message);
    assert cells[0].bit == bits[0] && cells[1].bit == bits[1] && cells[2].bit == bits[2];
    assert BitsOf(cells[2..]) == bits[2..];
    RunsTail(bits, 2);
  }

  // Silence and the two opening ones.
  function SamplesAtOne(b: Burst): nat
    requires |b.cells| >= 2
  {
    b.silence + b.cells[0].width + b.cells[1].width
  }

  /** Whether the first sync byte is spoilt: sync is taken on the first sample at level 1, and the clock
      is about to fire when the third bit of the burst ends the level. */
  predicate Spoilt(b: Burst) {
    |b.cells| >= 2 && SamplesAtOne(b) >= 1 && AboutToFire(SamplesAtOne(b) - 1)
  }

  // How many sync bytes are delivered.
  function KeptSync(b: Burst): nat {
    if Spoilt(b) && b.n >= 1 then b.n - 1 else b.n
  }

  // The wave of a burst in silence: one sample, the rest of the samples at level 1, and the third bit on.
  lemma WaveFromSilence(b: Burst)
    requires b.InSilence()
    ensures |b.cells| >= 3 && SamplesAtOne(b) >= 46
    ensures Hold(1, b.silence) + Wave(b.cells) == Hold(1, SamplesAtOne(b)) + Wave(b.cells[2..])
  {
    var cells := b.cells;
    BurstTail(b);
    assert cells[0].Clean() && cells[1].Clean();
    var w0, w1 := cells[0].width, cells[1].width;
    assert cells[1..][1..] == cells[2..];
    HoldOnto(1, w0, w1, Wave(cells[2..]));
    HoldOnto(1, b.silence, w0 + w1, Wave(cells[2..]));
  }

  // The bits recovered from `calls` more samples at level 1 and then the third bit of a burst.
  lemma BitsOutOfSilence(calls: nat, cells: seq<Cell>, tail: seq<Bit>)
    requires cells != [] && Clean(cells) && cells[0].bit == 0 && BitsOf(cells) == SYNC_BITS[2..] + tail
    requires RunsAtMostNine(BitsOf(cells))
    ensures Synced(1).Bits(Hold(1, calls) + Wave(cells)) == Stream(BitTimes(calls), AboutToFire(calls), tail)
  {
    LevelHolds(1, 0, calls);
    RunAppend(Running(1, 0), Hold(1, calls), Wave(cells));
    BitsFromFall(calls, cells);
    AboutToFireIs(calls);
  }

  // Two bits of silence at least.
  lemma SilenceIsSeen(calls: nat)
    requires calls >= 36
    ensures BitTimes(calls) >= 2
  {
    BitTimesClosedForm(calls);
  }

  // The burst from the first sample at level 1 on, in a receiver that takes sync on that sample.
  lemma BurstOutOfSilence(register: Register, b: Burst)
    requires b.InSilence()
    ensures SamplesAtOne(b) >= 1
    ensures Rx(true, register, Synced(1), HUNTING).Bytes(Hold(1, SamplesAtOne(b) - 1) + Wave(b.cells[2..]))
         == Preamble(KeptSync(b)) + b.message
  {
    var calls, bytes := SamplesAtOne(b) - 1, Preamble(b.n - 1) + b.message;
    WaveFromSilence(b);
    BurstTail(b);
    SilenceIsSeen(calls);
    InSyncIsFramer(Rx(true, register, Synced(1), HUNTING), Hold(1, calls) + Wave(b.cells[2..]));
    BitsOutOfSilence(calls, b.cells[2..], Transmit(bytes));
    StreamDelivered(BitTimes(calls), AboutToFire(calls), bytes);
    OneMoreSyncByte(b.n, b.message);
  }

  // ---------------------------------------------------------------- stale history

  // The history left by an acquisition: taps 1 to 15 go on matching for `times` more samples.
  predicate Stale(c: Register, times: nat)
    requires times <= 22
  {
    forall i, t :: 1 <= i < N_CORR_BITS && 0 <= t < times ==> TapMatches(c, i, t)
  }

  predicate TapMatches(c: Register, i: int, t: int)
    requires 1 <= i < N_CORR_BITS && 0 <= t < 22
  {
    c[i * BIT_DIVISOR - 1 - t] == TAP_PATTERN[i]
  }

  // One more sample at level 1 detects, and uses up one of them.
  lemma StaleDetects(c: Register, times: nat)
    requires 1 <= times <= 22 && Stale(c, times)
    ensures Detects(Push(c, 1)) && Stale(Push(c, 1), times - 1)
  {
    var d := Push(c, 1);
    forall i | 0 <= i < N_CORR_BITS
      ensures d[i * BIT_DIVISOR] == TAP_PATTERN[i]
    {
      if i > 0 { assert TapMatches(c, i, 0); }
    }
    forall i, t | 1 <= i < N_CORR_BITS && 0 <= t < times - 1
      ensures TapMatches(d, i, t)
    {
      assert TapMatches(c, i, t + 1);
      assert d[i * BIT_DIVISOR - 1 - t] == c[i * BIT_DIVISOR - 2 - t];
    }
  }

  // How many samples after acquisition every older tap is still inside its cell: 22 less one for each
  // 24-sample cell among the first fifteen.
  function StaleSamples(cells: seq<Cell>): nat
    requires |cells| >= 15
  {
    if Start(cells, 15) <= 367 then 367 - Start(cells, 15) else 0
  }

  // Seven at least, whatever the widths.
  lemma StaleSamplesBounds(cells: seq<Cell>)
    requires |cells| >= 15 && Clean(cells)
    ensures 7 <= StaleSamples(cells) <= 22
  {
    StartBounds(cells, 0, 15);
  }

  // And 21 at least at the nominal rate.
  lemma {:induction false} NominalStart(bits: seq<Bit>, phase: nat, j: nat)
    requires j <= |bits|
    ensures Start(NominalCells(bits, phase), j) == (576 * j + phase) / 25 - phase / 25
    decreases j
  {
    if j > 0 {
      NominalStart(bits, phase, j - 1);
    }
  }

  lemma NominalStaleSamples(bits: seq<Bit>, phase: nat)
    requires |bits| >= 15
    ensures 21 <= StaleSamples(NominalCells(bits, phase)) <= 22
  {
    NominalStart(bits, phase, 15);
  }

  lemma StaleTap(cells: seq<Cell>, i: nat, t: nat)
    requires Clean(cells) && StartsWithTwoSyncBytes(cells) && 1 <= i < N_CORR_BITS && t < StaleSamples(cells)
    ensures 0 <= Start(cells, 15) + 1 + t - 23 * i < |Wave(cells)|
    ensures Wave(cells)[Start(cells, 15) + 1 + t - 23 * i] == TAP_PATTERN[i]
  {
    TapOffset(cells, i);
    StartBounds(cells, 0, 15 - i);
    var p := Start(cells, 15) + 1 + t - 23 * i - Start(cells, 15 - i);
    WaveAt(cells, 15 - i, p);
    PatternReversed(i);
    assert cells[15 - i].bit == SYNC_BITS[(15 - i) % 8];
  }

  lemma AcquiredIsStale(c: Register, cells: seq<Cell>)
    requires Clean(cells) && StartsWithTwoSyncBytes(cells) && Start(cells, 15) < |Wave(cells)|
    ensures StaleSamples(cells) <= 22
    ensures Stale(History(c, Wave(cells)[..Start(cells, 15) + 1]), StaleSamples(cells))
  {
    StaleSamplesBounds(cells);
    var k := Start(cells, 15);
    var h := History(c, Wave(cells)[..k + 1]);
    forall i, t | 1 <= i < N_CORR_BITS && 0 <= t < StaleSamples(cells)
      ensures TapMatches(h, i, t)
    {
      StaleTap(cells, i, t);
      assert h[i * 23 - 1 - t] == Wave(cells)[k + 1 + t - 23 * i];
    }
  }

  /** After any burst received from an idle history, the register stays stale for StaleSamples more
      samples: seven at least, 21 at least at the nominal rate. */
  lemma BurstLeavesStale(s: Rx, cells: seq<Cell>)
    requires !s.insync && IdleHistory(s.register)
    requires Clean(cells) && StartsWithTwoSyncBytes(cells)
    ensures 7 <= StaleSamples(cells) <= 22
    ensures Stale(s.After(Wave(cells)).ClearSync().register, StaleSamples(cells))
    ensures !s.After(Wave(cells)).ClearSync().insync
  {
    StaleSamplesBounds(cells);
    RegisterAfterBurst(s, cells);
    AcquiredIsStale(s.register, cells);
    assert s.After(Wave(cells)).ClearSync().register == History(s.register, Wave(cells)[..Start(cells, 15) + 1]);
  }

  // Whatever comes in sync before the clear leaves the register alone.
  lemma FirstLeavesStale(s: Rx, b: Burst)
    requires b.FromIdle(s)
    ensures |b.cells| >= 15 && StaleSamples(b.cells) <= 22 && Stale(Cleared(s, b).register, StaleSamples(b.cells))
  {
    var idle := s.After(b.Lead());
    LeadIsIdle(s, b);
    BurstOpens(b.n, b.message, b.cells);
    BurstLeavesStale(idle, b.cells);
    RegisterAfterBurst(idle, b.cells);
    RxAppend(s, b.Lead(), Wave(b.cells) + b.late);
    RxAppend(idle, Wave(b.cells), b.late);
    InSyncIsFramer(idle.After(Wave(b.cells)), b.late);
  }

  // Samples at level 0 use up stale samples without detecting.
  lemma StaleGap(s: Rx, n: nat, times: nat)
    requires !s.insync && n <= times <= 22 && Stale(s.register, times)
    ensures !s.After(Hold(0, n)).insync && Stale(s.After(Hold(0, n)).register, times - n) && s.Bytes(Hold(0, n)) == []
  {
    ZerosStayOut(s, n);
    var h := s.After(Hold(0, n)).register;
    forall i, t | 1 <= i < N_CORR_BITS && 0 <= t < times - n
      ensures TapMatches(h, i, t)
    {
      assert TapMatches(s.register, i, t + n);
      assert h[i * BIT_DIVISOR - 1 - t] == s.register[i * BIT_DIVISOR - 1 - (t + n)];
    }
  }

  // ---------------------------------------------------------------- sessions in silence

  // The first sample re-acquires; the burst is then found out of the rest of the samples at level 1.
  lemma StaleBurst(s: Rx, b: Burst, times: nat)
    requires !s.insync && 1 <= times <= 22 && Stale(s.register, times) && b.InSilence()
    ensures s.Bytes(Hold(1, b.silence) + Wave(b.cells)) == Preamble(KeptSync(b)) + b.message
    ensures s.After(Hold(1, b.silence) + Wave(b.cells)).insync
    ensures Stale(s.After(Hold(1, b.silence) + Wave(b.cells)).register, times - 1)
  {
    WaveFromSilence(b);
    var locked := Rx(true, Push(s.register, 1), Synced(1), HUNTING);
    var rest := Hold(1, SamplesAtOne(b) - 1) + Wave(b.cells[2..]);
    StaleDetects(s.register, times);
    HoldOnto(1, 1, SamplesAtOne(b) - 1, Wave(b.cells[2..]));
    assert Hold(1, 1) == [1];
    RxAppend(s, [1], rest);
    RxOne(s, 1);
    BurstOutOfSilence(locked.register, b);
    InSyncIsFramer(locked, rest);
  }

  // The same after a short gap, and with whatever comes before the clear.
  lemma StaleBurstAndMore(s: Rx, b: Burst, times: nat)
    requires !s.insync && b.Spent() <= times <= 22 && Stale(s.register, times) && b.InSilence()
    ensures b.Delivered(KeptSync(b), s.Bytes(b.Samples()))
    ensures Stale(Cleared(s, b).register, times - b.Spent())
  {
    var s1, w := s.After(Hold(0, b.gap)), Hold(1, b.silence) + Wave(b.cells);
    assert b.Samples() == Hold(0, b.gap) + (w + b.late);
    StaleGap(s, b.gap, times);
    RxAppend(s, Hold(0, b.gap), w + b.late);
    StaleBurst(s1, b, times - b.gap);
    RxAppend(s1, w, b.late);
    InSyncIsFramer(s1.After(w), b.late);
  }

  // The stale samples a list of bursts uses up.
  function Spent(bursts: seq<Burst>): nat
    decreases |bursts|
  {
    if bursts == [] then 0 else bursts[0].Spent() + Spent(bursts[1..])
  }

  lemma {:induction false} StaleBurstAt(s: Rx, bursts: seq<Burst>, times: nat, i: nat)
    requires !s.insync && Spent(bursts) <= times <= 22 && Stale(s.register, times) && i < |bursts|
    requires forall k :: 0 <= k < |bursts| ==> bursts[k].InSilence()
    ensures bursts[i].Delivered(KeptSync(bursts[i]), Deliveries(s, bursts)[i])
    decreases i
  {
    StaleBurstAndMore(s, bursts[0], times);
    if i > 0 {
      StaleBurstAt(Cleared(s, bursts[0]), bursts[1..], times - bursts[0].Spent(), i - 1);
    }
  }

  /** A session in silence: on a history stale for `times` samples, bursts after any stretch of silence,
      whenever DSPClearSync comes after each, are all delivered, each with all its sync bytes or, exactly
      when it is Spoilt, without the first. Each uses one stale sample, and one more for every sample at
      level 0 before its silence. */
  lemma SilentSessionDelivered(s: Rx, bursts: seq<Burst>, times: nat)
    requires !s.insync && Spent(bursts) <= times <= 22 && Stale(s.register, times)
    requires forall i :: 0 <= i < |bursts| ==> bursts[i].InSilence()
    ensures forall i :: 0 <= i < |bursts| ==> bursts[i].Delivered(KeptSync(bursts[i]), Deliveries(s, bursts)[i])
  {
    forall i | 0 <= i < |bursts|
      ensures bursts[i].Delivered(KeptSync(bursts[i]), Deliveries(s, bursts)[i])
    {
      StaleBurstAt(s, bursts, times, i);
    }
  }

  /** A whole transmission: a first burst acquired from an idle history is delivered with all but two of
      its sync bytes, and later ones, in silence, with all of theirs or all but one, as Spoilt says,
      whenever DSPClearSync comes after each, for as long as the stale samples the first one's widths
      leave last: seven bursts without gaps at any widths, 21 at the nominal rate. A SAME transmission has
      five bursts after its first. */
  lemma {:induction false} TransmissionDelivered(s: Rx, first: Burst, bursts: seq<Burst>)
    requires first.FromIdle(s) && |first.cells| >= 15
    requires Spent(bursts) <= StaleSamples(first.cells)
    requires forall i :: 0 <= i < |bursts| ==> bursts[i].InSilence()
    ensures first.Delivered(first.AfterAcquisition(), s.Bytes(first.Samples()))
    ensures var rx := Deliveries(Cleared(s, first), bursts);
            forall i :: 0 <= i < |bursts| ==> bursts[i].Delivered(KeptSync(bursts[i]), rx[i])
  {
    OneBurst(s, first);
    FirstLeavesStale(s, first);
    SilentSessionDelivered(Cleared(s, first), bursts, StaleSamples(first.cells));
  }
}
