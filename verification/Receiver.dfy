/** The receive thread of FSKdsp.c from the sliced bit onward: correlator, bit recovery and framer. */
module Receiver {
  import opened Words
  import opened BitClock
  import opened Framer
  import opened Correlator

  /** State of the receiver between samples. */
  datatype Rx = Rx(insync: bool, register: Register, recovery: Recovery, frame: Frame) {

    function Next(b: Bit): Rx {
      if !insync then
        var c := Push(register, b);
        if Detects(c) then Rx(true, c, Synced(b), HUNTING)
        else Rx(false, c, recovery, frame.(bytesync := false))
      else
        var bits := recovery.Emit(b);
        Rx(true, register, recovery.Next(b), frame.After(bits))
    }

    // The bytes passed to byte_rx_func on this sample: none or one.
    function Emit(b: Bit): seq<Byte> {
      if !insync then [] else frame.Bytes(recovery.Emit(b))
    }

    function After(samples: seq<Bit>): Rx
      decreases |samples|
    {
      if samples == [] then this else Next(samples[0]).After(samples[1..])
    }

    function Bytes(samples: seq<Bit>): seq<Byte>
      decreases |samples|
    {
      if samples == [] then [] else Emit(samples[0]) + Next(samples[0]).Bytes(samples[1..])
    }

    // DSPClearSync: only the flag is dropped, the register keeps its history.
    function ClearSync(): Rx {
      this.(insync := false)
    }
  }

  const POWER_UP := Rx(false, EMPTY_REGISTER, Recovery(Edge(0, 0), Clock(0, 0)), HUNTING)

  /** The thread's variables, updated in place sample by sample. */
  class DspThread {
    const detector: SyncDetector
    const decoder: BitDecoder
    var insync: bool
    var bytesync: bool
    var demodByte: Byte
    var bitctr: int

    ghost predicate Valid() {
      detector.Valid()
    }

    ghost function Model(): Rx
      requires Valid()
      reads this, decoder, detector.correlator
    {
      Rx(insync, detector.correlator[..], decoder.Model(), Frame(bytesync, demodByte, bitctr))
    }

    constructor ()
      ensures Valid() && Model() == POWER_UP
      ensures fresh(detector.correlator) && fresh(decoder)
    {
      detector := new SyncDetector();
      decoder := new BitDecoder();
      insync, bytesync, demodByte, bitctr := false, false, 0, 0;
    }

    method DSPClearSync()
      requires Valid()
      modifies this`insync
      ensures Model() == old(Model()).ClearSync()
    {
      insync := false;
    }

    method ReceiveBit(bit: Bit) returns (rx: seq<Byte>)
      modifies this`bytesync, this`demodByte, this`bitctr
      ensures rx == old(Frame(bytesync, demodByte, bitctr)).Emit(bit)
      ensures Frame(bytesync, demodByte, bitctr) == old(Frame(bytesync, demodByte, bitctr)).Next(bit)
    {
      rx := [];
      demodByte := (demodByte >> 1) | ((bit & 1) << 7);
      if !bytesync {
        if demodByte == SYNC_BYTE {
          bytesync := true;
          bitctr := 0;
          rx := [demodByte];
        }
      } else if bitctr == BITSPERBYTE - 1 {
        rx := [demodByte];
        bitctr := 0;
      } else {
        bitctr := bitctr + 1;
      }
    }

    // One pass of the thread's loop body, from demod_bit on.
    method ProcessSample(demodBit: Bit) returns (rx: seq<Byte>)
      requires Valid()
      modifies this, decoder, detector.correlator
      ensures Model() == old(Model()).Next(demodBit)
      ensures rx == old(Model()).Emit(demodBit)
    {
      rx := [];
      if !insync {
        bytesync := false;
        insync := detector.SyncCorrelator(demodBit);
        if insync {
          var _ := decoder.EdgeDetect(demodBit, true);
          var _ := decoder.RunBitClock(true);
          bitctr := 0;
          demodByte := 0;
        }
      } else {
        ghost var f, r := Frame(bytesync, demodByte, bitctr), decoder.Model();
        var edge := decoder.EdgeDetect(demodBit, false);
        var bitTime := decoder.RunBitClock(edge);
        if bitTime {
          rx := ReceiveBit(demodBit);
          FrameOne(f, demodBit);
        }
      }
    }

    // The thread's loop over a stretch of samples.
    method Run(samples: seq<Bit>) returns (rx: seq<Byte>)
      requires Valid()
      modifies this, decoder, detector.correlator
      ensures Model() == old(Model()).After(samples)
      ensures rx == old(Model()).Bytes(samples)
    {
      ghost var start := Model();
      rx := [];
      var i := 0;
      assert samples[..0] == [];
      while i < |samples|
        invariant 0 <= i <= |samples|
        invariant Model() == start.After(samples[..i])
        invariant rx == start.Bytes(samples[..i])
      {
        RxStep(start, samples, i);
        var out := ProcessSample(samples[i]);
        rx := rx + out;
        i := i + 1;
      }
      assert samples[..i] == samples;
    }
  }

  // ---------------------------------------------------------------- runs of samples

  lemma FrameOne(f: Frame, b: Bit)
    ensures f.After([b]) == f.Next(b) && f.Bytes([b]) == f.Emit(b)
  {
  }

  lemma RxOne(s: Rx, b: Bit)
    ensures s.After([b]) == s.Next(b) && s.Bytes([b]) == s.Emit(b)
  {
  }

  lemma {:induction false} AfterAppend(s: Rx, a: seq<Bit>, b: seq<Bit>)
    ensures s.After(a + b) == s.After(a).After(b)
    decreases |a|
  {
    if a == [] {
      assert a + b == b;
    } else {
      assert (a + b)[0] == a[0] && (a + b)[1..] == a[1..] + b;
      AfterAppend(s.Next(a[0]), a[1..], b);
    }
  }

  lemma {:induction false} BytesAppend(s: Rx, a: seq<Bit>, b: seq<Bit>)
    ensures s.Bytes(a + b) == s.Bytes(a) + s.After(a).Bytes(b)
    decreases |a|
  {
    if a == [] {
      assert a + b == b;
    } else {
      assert (a + b)[0] == a[0] && (a + b)[1..] == a[1..] + b;
      BytesAppend(s.Next(a[0]), a[1..], b);
    }
  }

  lemma RxAppend(s: Rx, a: seq<Bit>, b: seq<Bit>)
    ensures s.After(a + b) == s.After(a).After(b)
    ensures s.Bytes(a + b) == s.Bytes(a) + s.After(a).Bytes(b)
  {
    AfterAppend(s, a, b);
    BytesAppend(s, a, b);
  }

  lemma RxStep(s: Rx, samples: seq<Bit>, i: nat)
    requires i < |samples|
    ensures s.After(samples[..i + 1]) == s.After(samples[..i]).Next(samples[i])
    ensures s.Bytes(samples[..i + 1]) == s.Bytes(samples[..i]) + s.After(samples[..i]).Emit(samples[i])
  {
    assert samples[..i + 1] == samples[..i] + [samples[i]];
    RxAppend(s, samples[..i], [samples[i]]);
    RxOne(s.After(samples[..i]), samples[i]);
  }

  /** In sync, the receiver is the framer fed with the recovered bits, and sync is never lost. */
  lemma {:induction false} InSyncIsFramer(s: Rx, samples: seq<Bit>)
    requires s.insync
    ensures s.After(samples).insync && s.After(samples).register == s.register
    ensures s.Bytes(samples) == s.frame.Bytes(s.recovery.Bits(samples))
    ensures s.After(samples).frame == s.frame.After(s.recovery.Bits(samples))
    decreases |samples|
  {
    if samples != [] {
      var b := samples[0];
      InSyncIsFramer(s.Next(b), samples[1..]);
      FrameAppend(s.frame, s.recovery.Emit(b), s.recovery.Next(b).Bits(samples[1..]));
    }
  }

  /** Out of sync, the register is the history of every sample fed, for as long as nothing detects. */
  lemma {:induction false} OutOfSyncIsHistory(s: Rx, w: seq<Bit>)
    requires !s.insync
    requires forall t :: 1 <= t <= |w| ==> !Detects(History(s.register, w[..t]))
    ensures !s.After(w).insync && s.After(w).register == History(s.register, w)
    ensures s.Bytes(w) == []
    decreases |w|
  {
    var n := |w|;
    if n == 0 {
      assert History(s.register, w) == s.register;
    } else {
      var a, b := w[..n - 1], w[n - 1];
      assert w == a + [b];
      forall t | 1 <= t <= n - 1
        ensures !Detects(History(s.register, a[..t]))
      {
        assert a[..t] == w[..t];
      }
      OutOfSyncIsHistory(s, a);
      RxAppend(s, a, [b]);
      RxOne(s.After(a), b);
      HistoryPush(s.register, a, b);
      assert w[..n] == w;
    }
  }

  // ---------------------------------------------------------------- the waveform

  // Samples before cell j.
  function Start(cells: seq<Cell>, j: nat): nat
    requires j <= |cells|
  {
    if j == 0 then 0 else Start(cells, j - 1) + cells[j - 1].width
  }

  lemma {:induction false} StartBounds(cells: seq<Cell>, i: nat, j: nat)
    requires i <= j <= |cells| && Clean(cells)
    ensures 23 * (j - i) <= Start(cells, j) - Start(cells, i) <= 24 * (j - i)
    decreases j - i
  {
    if i < j {
      StartBounds(cells, i, j - 1);
    }
  }

  lemma {:induction false} StartShift(cells: seq<Cell>, j: nat)
    requires 1 <= j <= |cells|
    ensures Start(cells, j) == cells[0].width + Start(cells[1..], j - 1)
    decreases j
  {
    if j > 1 {
      StartShift(cells, j - 1);
    }
  }

  // The wave shows cell j between its start and the start of the next one.
  lemma {:induction false} WaveAt(cells: seq<Cell>, j: nat, p: nat)
    requires j < |cells| && p < cells[j].width
    ensures Start(cells, j) + p < |Wave(cells)| && Wave(cells)[Start(cells, j) + p] == cells[j].bit
    decreases |cells|
  {
    if j > 0 {
      StartShift(cells, j);
      WaveAt(cells[1..], j - 1, p);
    }
  }

  lemma {:induction false} WaveSplit(a: seq<Cell>, b: seq<Cell>)
    ensures Wave(a + b) == Wave(a) + Wave(b)
    decreases |a|
  {
    if a == [] {
      assert a + b == b;
    } else {
      assert (a + b)[1..] == a[1..] + b;
      WaveSplit(a[1..], b);
    }
  }

  lemma {:induction false} WaveLength(cells: seq<Cell>)
    ensures |Wave(cells)| == Start(cells, |cells|)
    decreases |cells|
  {
    if cells != [] {
      WaveLength(cells[1..]);
      StartShift(cells, |cells|);
    }
  }

  // Which cell sample t falls in.
  function CellAt(cells: seq<Cell>, t: nat, hi: nat): (j: nat)
    requires 1 <= hi <= |cells| && t < Start(cells, hi)
    ensures j < hi && Start(cells, j) <= t < Start(cells, j + 1)
    decreases hi
  {
    if t >= Start(cells, hi - 1) then hi - 1 else CellAt(cells, t, hi - 1)
  }

  // ---------------------------------------------------------------- acquisition

  // Two bit times: a stretch of zeros this long always covers two taps next to each other.
  const IDLE_GAP := 2 * BIT_DIVISOR

  /** An idle history, newest first: k ones and then either nothing else or zeros for at least two bit
      times. Power-up and any stretch of silence after such a gap are idle, whatever came before the gap. */
  predicate IdleAfter(c: Register, k: nat) {
    forall i :: 0 <= i < CORR_LENGTH ==> (i < k ==> c[i] == 1) && (k <= i < k + IDLE_GAP ==> c[i] == 0)
  }

  ghost predicate IdleHistory(c: Register) {
    exists k: nat :: IdleAfter(c, k)
  }

  // The sixteen bits that fill the correlator.
  predicate StartsWithTwoSyncBytes(cells: seq<Cell>) {
    |cells| >= 16 && forall i :: 0 <= i < 16 ==> cells[i].bit == SYNC_BITS[i % 8]
  }

  lemma Blocked(h: Register, i: nat)
    requires i < N_CORR_BITS && h[i * BIT_DIVISOR] != TAP_PATTERN[i]
    ensures !Detects(h)
  {
  }

  // The two bits that open 0xAB are ones.
  lemma OpeningOnes(cells: seq<Cell>, t: nat)
    requires Clean(cells) && StartsWithTwoSyncBytes(cells) && t < Start(cells, 2)
    ensures t < |Wave(cells)| && Wave(cells)[t] == 1
  {
    var k := CellAt(cells, t, 2);
    WaveAt(cells, k, t - Start(cells, k));
  }

  lemma NoTwoZeros(i: nat)
    requires i < N_CORR_BITS - 1
    ensures TAP_PATTERN[i] == 1 || TAP_PATTERN[i + 1] == 1
  {
  }

  // A gap anywhere among the taps blocks detection: two taps in a row show a 0, or the oldest does.
  lemma GapBlocks(h: Register, a: nat)
    requires a <= 345 && forall i :: a <= i < a + IDLE_GAP && i < CORR_LENGTH ==> h[i] == 0
    ensures !Detects(h)
  {
    var i := (a + 22) / 23;
    assert a <= i * 23 < a + 23;
    if i == N_CORR_BITS - 1 || TAP_PATTERN[i] == 1 {
      Blocked(h, i);
    } else {
      NoTwoZeros(i);
      Blocked(h, i + 1);
    }
  }

  // The gap or, once it has passed the taps, tap 13 blocks detection while the oldest tap still lies in
  // the idle history.
  lemma BlockedByHistory(c: Register, k: nat, cells: seq<Cell>, n: nat)
    requires IdleAfter(c, k) && Clean(cells) && StartsWithTwoSyncBytes(cells)
    requires n < 336 && n < |Wave(cells)|
    ensures !Detects(History(c, Wave(cells)[..n + 1]))
  {
    var h := History(c, Wave(cells)[..n + 1]);
    if n + 1 + k <= 345 {
      assert forall i :: n + 1 <= i < CORR_LENGTH ==> h[i] == c[i - (n + 1)];
      GapBlocks(h, n + 1 + k);
    } else {
      if n >= 299 {
        StartBounds(cells, 0, 2);
        OpeningOnes(cells, n - 299);
        assert h[299] == Wave(cells)[n - 299];
      } else {
        assert h[299] == c[298 - n];
      }
      Blocked(h, 13);
    }
  }

  // Before the sixteenth cell, nothing detects.
  lemma NoEarlyDetection(c: Register, cells: seq<Cell>, t: nat)
    requires IdleHistory(c) && Clean(cells) && StartsWithTwoSyncBytes(cells)
    requires 1 <= t <= Start(cells, 15) && t <= |Wave(cells)|
    ensures !Detects(History(c, Wave(cells)[..t]))
  {
    var n := t - 1;
    var j := CellAt(cells, n, 15);
    if j == 14 {
      WaveAt(cells, j, n - Start(cells, j));
      Blocked(History(c, Wave(cells)[..t]), 0);
    } else {
      StartBounds(cells, 0, j + 1);
      var k: nat :| IdleAfter(c, k);
      BlockedByHistory(c, k, cells, n);
    }
  }

  // Where tap i of the sixteenth cell's first sample falls inside the cell i before it.
  lemma TapOffset(cells: seq<Cell>, i: nat)
    requires Clean(cells) && |cells| >= 16 && i < N_CORR_BITS
    ensures 0 <= Start(cells, 15) - 23 * i - Start(cells, 15 - i) <= i
  {
    StartBounds(cells, 15 - i, 15);
  }

  // Tap i looks into the cell i before the sixteenth, whatever the mix of widths.
  lemma TapInCell(cells: seq<Cell>, i: nat)
    requires Clean(cells) && StartsWithTwoSyncBytes(cells) && i < N_CORR_BITS
    ensures 0 <= Start(cells, 15) - 23 * i < |Wave(cells)|
    ensures Wave(cells)[Start(cells, 15) - 23 * i] == TAP_PATTERN[i]
  {
    TapOffset(cells, i);
    var p := Start(cells, 15) - 23 * i - Start(cells, 15 - i);
    WaveAt(cells, 15 - i, p);
    PatternReversed(i);
    assert cells[15 - i].bit == SYNC_BITS[(15 - i) % 8];
  }

  // On the first sample of the sixteenth cell, all sixteen taps agree.
  lemma DetectionAtSixteenth(c: Register, cells: seq<Cell>)
    requires Clean(cells) && StartsWithTwoSyncBytes(cells)
    ensures Start(cells, 15) < |Wave(cells)|
    ensures Detects(History(c, Wave(cells)[..Start(cells, 15) + 1]))
  {
    var w, s := Wave(cells), Start(cells, 15);
    WaveAt(cells, 15, 0);
    var h := History(c, w[..s + 1]);
    forall i | 0 <= i < N_CORR_BITS
      ensures h[i * BIT_DIVISOR] == TAP_PATTERN[i]
    {
      TapInCell(cells, i);
      assert h[i * 23] == w[s - 23 * i];
    }
  }

  lemma PatternReversed(i: nat)
    requires i < N_CORR_BITS
    ensures TAP_PATTERN[i] == SYNC_BITS[(15 - i) % 8]
  {
  }

  /** Acquisition: from an idle history the correlator fires on the first sample of the last bit of
      the second 0xAB, and on no sample before it. */
  lemma Acquired(s: Rx, cells: seq<Cell>)
    requires !s.insync && IdleHistory(s.register)
    requires Clean(cells) && StartsWithTwoSyncBytes(cells)
    ensures Start(cells, 15) < |Wave(cells)|
    ensures !s.After(Wave(cells)[..Start(cells, 15)]).insync
    ensures s.Bytes(Wave(cells)[..Start(cells, 15) + 1]) == []
    ensures s.After(Wave(cells)[..Start(cells, 15) + 1])
         == Rx(true, History(s.register, Wave(cells)[..Start(cells, 15) + 1]), Synced(1), HUNTING)
  {
    var w, n := Wave(cells), Start(cells, 15);
    DetectionAtSixteenth(s.register, cells);
    QuietUntilSixteenth(s, cells);
    WaveAt(cells, 15, 0);
    RxStep(s, w, n);
    DetectingStep(s.After(w[..n]), s.register, w, n);
  }

  lemma DetectingStep(s: Rx, c: Register, w: seq<Bit>, n: nat)
    requires n < |w| && !s.insync && s.register == History(c, w[..n]) && Detects(History(c, w[..n + 1]))
    ensures s.Next(w[n]) == Rx(true, History(c, w[..n + 1]), Synced(w[n]), HUNTING)
  {
    assert w[..n + 1] == w[..n] + [w[n]];
    HistoryPush(c, w[..n], w[n]);
  }

  lemma QuietUntilSixteenth(s: Rx, cells: seq<Cell>)
    requires !s.insync && IdleHistory(s.register)
    requires Clean(cells) && StartsWithTwoSyncBytes(cells) && Start(cells, 15) < |Wave(cells)|
    ensures var w := Wave(cells)[..Start(cells, 15)];
            !s.After(w).insync && s.After(w).register == History(s.register, w) && s.Bytes(w) == []
  {
    var w, n := Wave(cells), Start(cells, 15);
    forall t | 1 <= t <= n
      ensures !Detects(History(s.register, w[..n][..t]))
    {
      NoEarlyDetection(s.register, cells, t);
      assert w[..n][..t] == w[..t];
    }
    OutOfSyncIsHistory(s, w[..n]);
  }

  // After a whole burst the register still holds what it held at acquisition.
  lemma RegisterAfterBurst(s: Rx, cells: seq<Cell>)
    requires !s.insync && IdleHistory(s.register)
    requires Clean(cells) && StartsWithTwoSyncBytes(cells)
    ensures Start(cells, 15) < |Wave(cells)|
    ensures s.After(Wave(cells)).insync
    ensures s.After(Wave(cells)).register == History(s.register, Wave(cells)[..Start(cells, 15) + 1])
  {
    var w, k := Wave(cells), Start(cells, 15);
    Acquired(s, cells);
    assert w == w[..k + 1] + w[k + 1..];
    RxAppend(s, w[..k + 1], w[k + 1..]);
    InSyncIsFramer(s.After(w[..k + 1]), w[k + 1..]);
  }

  // ---------------------------------------------------------------- end to end

  // Cells carrying the given bits with the given widths.
  predicate Carries(cells: seq<Cell>, bits: seq<Bit>) {
    Clean(cells) && BitsOf(cells) == bits
  }

  lemma {:induction false} TransmitAppend(a: seq<Byte>, b: seq<Byte>)
    ensures Transmit(a + b) == Transmit(a) + Transmit(b)
    decreases |a|
  {
    if a == [] {
      assert a + b == b;
    } else {
      assert (a + b)[1..] == a[1..] + b;
      TransmitAppend(a[1..], b);
    }
  }

  lemma SyncByteSent(rest: seq<Byte>)
    ensures Transmit([SYNC_BYTE] + rest) == SYNC_BITS + Transmit(rest)
  {
    SyncBits();
    assert ([SYNC_BYTE] + rest)[1..] == rest;
  }

  lemma OneMoreSyncByte(n: nat, message: seq<Byte>)
    requires n >= 1
    ensures [SYNC_BYTE] + (Preamble(n - 1) + message) == Preamble(n) + message
  {
  }

  // The bits of n sync bytes and a message, split where the receiver splits them.
  lemma BurstBits(n: nat, message: seq<Byte>)
    requires n >= 3
    ensures var bits := Transmit(Preamble(n) + message);
            |bits| >= 24
            && bits[..16] == SYNC_BITS + SYNC_BITS
            && bits[15..] == Approach(1) + Transmit(Preamble(n - 3) + message)
  {
    OneMoreSyncByte(n, message);
    OneMoreSyncByte(n - 1, message);
    OneMoreSyncByte(n - 2, message);
    SyncByteSent(Preamble(n - 1) + message);
    SyncByteSent(Preamble(n - 2) + message);
    SyncByteSent(Preamble(n - 3) + message);
    BurstSplits(Transmit(Preamble(n - 3) + message));
  }

  lemma BurstSplits(tail: seq<Bit>)
    ensures var bits := SYNC_BITS + (SYNC_BITS + (SYNC_BITS + tail));
            bits[..16] == SYNC_BITS + SYNC_BITS && bits[15..] == Approach(1) + tail
  {
    SyncBits();
    assert Approach(1) == [1] + SYNC_BITS;
  }

  // From an idle history the receiver delivers what the framer makes of the bits recovered from the
  // sixteenth cell on.
  lemma DeliveredByHunt(s: Rx, cells: seq<Cell>)
    requires !s.insync && IdleHistory(s.register)
    requires Clean(cells) && StartsWithTwoSyncBytes(cells)
    ensures Wave(cells[15..]) != []
    ensures var bits := Synced(1).Bits(Wave(cells[15..])[1..]);
            && s.Bytes(Wave(cells)) == HUNTING.Bytes(bits)
            && s.After(Wave(cells)).insync && s.After(Wave(cells)).frame == HUNTING.After(bits)
  {
    hide Wave, History, IdleHistory;
    Acquired(s, cells);
    TailOfWave(cells, 15);
    WaveAt(cells[15..], 0, 0);
    LockedFrom(s, Wave(cells), Start(cells, 15) + 1);
  }

  // A receiver that takes sync k samples into w, and has delivered nothing.
  lemma LockedFrom(s: Rx, w: seq<Bit>, k: nat)
    requires k <= |w| && s.Bytes(w[..k]) == [] && s.After(w[..k]).insync
    requires s.After(w[..k]).recovery == Synced(1) && s.After(w[..k]).frame == HUNTING
    ensures s.Bytes(w) == HUNTING.Bytes(Synced(1).Bits(w[k..]))
    ensures s.After(w).insync && s.After(w).frame == HUNTING.After(Synced(1).Bits(w[k..]))
  {
    assert w == w[..k] + w[k..];
    RxAppend(s, w[..k], w[k..]);
    InSyncIsFramer(s.After(w[..k]), w[k..]);
  }

  /** End-to-end round trip. Any burst of n >= 3 sync bytes and any message, sent LSB first in cells
      of 23 or 24 samples in any order, without more than nine equal bits in a row, and received from
      an idle history, is delivered as n - 2 sync bytes followed by exactly the message. */
  lemma BurstDelivered(s: Rx, n: nat, message: seq<Byte>, cells: seq<Cell>)
    requires !s.insync && IdleHistory(s.register)
    requires n >= 3 && Carries(cells, Transmit(Preamble(n) + message))
    requires RunsAtMostNine(Transmit(Preamble(n) + message))
    ensures s.Bytes(Wave(cells)) == Preamble(n - 2) + message
    ensures s.After(Wave(cells)).insync && s.After(Wave(cells)).frame.bytesync
  {
    BurstOpens(n, message, cells);
    DeliveredByHunt(s, cells);
    RecoveredBurst(n, message, cells);
  }

  lemma BurstOpens(n: nat, message: seq<Byte>, cells: seq<Cell>)
    requires n >= 3 && Carries(cells, Transmit(Preamble(n) + message))
    ensures |cells| >= 24 && StartsWithTwoSyncBytes(cells)
  {
    var bits := Transmit(Preamble(n) + message);
    BurstBits(n, message);
    assert |cells| == |bits|;
    forall i | 0 <= i < 16
      ensures cells[i].bit == SYNC_BITS[i % 8]
    {
      assert cells[i].bit == BitsOf(cells)[i] == bits[..16][i];
    }
  }

  // What the framer makes of the cells from the sixteenth on.
  lemma RecoveredBurst(n: nat, message: seq<Byte>, cells: seq<Cell>)
    requires n >= 3 && Carries(cells, Transmit(Preamble(n) + message)) && |cells| >= 24
    requires RunsAtMostNine(Transmit(Preamble(n) + message))
    ensures HUNTING.Bytes(Synced(1).Bits(Wave(cells[15..])[1..])) == Preamble(n - 2) + message
    ensures HUNTING.After(Synced(1).Bits(Wave(cells[15..])[1..])).bytesync
  {
    TailBits(n, message, cells);
    RunsTail(Transmit(Preamble(n) + message), 15);
    RecoveredFromSync(cells[15..]);
    FramingRoundTrip(1, Preamble(n - 3) + message);
    OneMoreSyncByte(n - 2, message);
  }

  // The cells from the sixteenth on, and the bits they carry.
  lemma TailBits(n: nat, message: seq<Byte>, cells: seq<Cell>)
    requires n >= 3 && Carries(cells, Transmit(Preamble(n) + message))
    ensures |cells| >= 24 && Clean(cells[15..]) && cells[15].bit == 1
    ensures BitsOf(cells[15..]) == Transmit(Preamble(n) + message)[15..]
    ensures BitsOf(cells[15..]) == Approach(1) + Transmit(Preamble(n - 3) + message)
  {
    BurstBits(n, message);
    var tail := cells[15..];
    assert |cells| == |BitsOf(cells)|;
    assert BitsOf(tail) == BitsOf(cells)[15..];
    SyncBits();
    assert tail[0].bit == BitsOf(tail)[0] == 1;
  }

  lemma TailOfWave(cells: seq<Cell>, j: nat)
    requires j < |cells| && Clean(cells)
    ensures Start(cells, j) < |Wave(cells)|
    ensures Wave(cells)[Start(cells, j) + 1..] == Wave(cells[j..])[1..]
  {
    WaveAt(cells, j, 0);
    assert cells == cells[..j] + cells[j..];
    WaveSplit(cells[..j], cells[j..]);
    StartPrefix(cells, j);
    WaveLength(cells[..j]);
  }

  lemma {:induction false} StartPrefix(cells: seq<Cell>, j: nat)
    requires j <= |cells|
    ensures Start(cells[..j], j) == Start(cells, j)
    decreases j
  {
    if j > 0 {
      StartPrefix(cells, j - 1);
      StartPrefix(cells[..j], j - 1);
      assert cells[..j][..j - 1] == cells[..j - 1];
    }
  }

  lemma RunsTail(bits: seq<Bit>, k: nat)
    requires k <= |bits| && RunsAtMostNine(bits)
    ensures RunsAtMostNine(bits[k..])
  {
    var tail := bits[k..];
    forall i | 0 <= i <= |tail| - 10
      ensures ChangesSoon(tail, i)
    {
      assert ChangesSoon(bits, k + i);
      var j :| k + i < j < k + i + 10 && bits[j] != bits[k + i];
      assert tail[j - k] != tail[i];
    }
  }
}
