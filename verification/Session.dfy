/** Whole sessions of the receiver: idle gaps, bursts and DSPClearSync, at the rate of SAME. */
module Session {
  import opened Words
  import opened BitClock
  import opened Framer
  import opened Correlator
  import opened Receiver

  // ---------------------------------------------------------------- idle gaps

  // Samples at level 0 never detect: the newest tap must show a 1.
  lemma {:induction false} ZerosStayOut(s: Rx, n: nat)
    requires !s.insync
    ensures !s.After(Hold(0, n)).insync && s.After(Hold(0, n)).register == History(s.register, Hold(0, n))
    ensures s.Bytes(Hold(0, n)) == []
  {
    var w := Hold(0, n);
    forall t | 1 <= t <= n
      ensures !Detects(History(s.register, w[..t]))
    {
      Blocked(History(s.register, w[..t]), 0);
    }
    OutOfSyncIsHistory(s, w);
  }

  // Nor do samples at level 1 after an idle history: tap 1 must show a 0.
  lemma OnesBlocked(c: Register, k: nat, t: nat)
    requires IdleAfter(c, k) && t >= 1
    ensures !Detects(History(c, Hold(1, t))) && IdleAfter(History(c, Hold(1, t)), t + k)
  {
    var h := History(c, Hold(1, t));
    assert forall i :: t <= i < CORR_LENGTH ==> h[i] == c[i - t];
    if t + k <= 345 { GapBlocks(h, t + k); } else { Blocked(h, 1); }
  }

  lemma {:induction false} OnesStayOut(s: Rx, n: nat)
    requires !s.insync && IdleHistory(s.register)
    ensures !s.After(Hold(1, n)).insync && IdleHistory(s.After(Hold(1, n)).register)
    ensures s.Bytes(Hold(1, n)) == []
  {
    var w := Hold(1, n);
    var k: nat :| IdleAfter(s.register, k);
    forall t | 1 <= t <= n
      ensures !Detects(History(s.register, w[..t]))
    {
      assert w[..t] == Hold(1, t);
      OnesBlocked(s.register, k, t);
    }
    OutOfSyncIsHistory(s, w);
    if n == 0 { assert s.After(w) == s; } else { OnesBlocked(s.register, k, n); }
  }

  // ---------------------------------------------------------------- sessions

  /** A gap at level 0, silence at level 1, a burst, and whatever else is received, in sync, before
      DSPClearSync is called. */
  datatype Burst = Burst(gap: nat, silence: nat, n: nat, message: seq<Byte>, cells: seq<Cell>, late: seq<Bit>) {

    // Before the burst, and the whole stretch.
    function Lead(): seq<Bit> {
      Hold(0, gap) + Hold(1, silence)
    }

    function Samples(): seq<Bit> {
      Lead() + (Wave(cells) + late)
    }

    predicate Sent() {
      Carries(cells, Transmit(Preamble(n) + message)) && RunsAtMostNine(Transmit(Preamble(n) + message))
    }

    // After a gap of two bit times, or after a history that is idle already.
    predicate AfterGap() {
      gap >= IDLE_GAP && n >= 3 && Sent()
    }

    ghost predicate FromIdle(s: Rx) {
      !s.insync && (AfterGap() || (IdleHistory(s.register) && gap == 0 && n >= 3 && Sent()))
    }

    // On stale history, which the gap and one more sample use up.
    predicate InSilence() {
      n >= 2 && Sent()
    }

    function Spent(): nat {
      gap + 1
    }

    // The sync bytes left when the first two are spent on acquisition.
    function AfterAcquisition(): nat {
      if n >= 2 then n - 2 else 0
    }

    // Delivered with `sync` of its sync bytes; nothing more if the clear comes at once.
    predicate Delivered(sync: nat, rx: seq<Byte>) {
      Preamble(sync) + message <= rx && (late == [] ==> rx == Preamble(sync) + message)
    }
  }

  // The state after a burst and the clear.
  function Cleared(s: Rx, b: Burst): Rx {
    s.After(b.Samples()).ClearSync()
  }

  // What is delivered for each burst, up to its clear.
  function Deliveries(s: Rx, bursts: seq<Burst>): (rx: seq<seq<Byte>>)
    ensures |rx| == |bursts|
    decreases |bursts|
  {
    if bursts == [] then [] else [s.Bytes(bursts[0].Samples())] + Deliveries(Cleared(s, bursts[0]), bursts[1..])
  }

  // A gap of two bit times at level 0 leaves an idle history, whatever it held before.
  lemma GapIdles(s: Rx, n: nat)
    requires !s.insync && n >= IDLE_GAP
    ensures !s.After(Hold(0, n)).insync && IdleHistory(s.After(Hold(0, n)).register)
    ensures s.Bytes(Hold(0, n)) == []
  {
    ZerosStayOut(s, n);
    assert IdleAfter(s.After(Hold(0, n)).register, 0);
  }

  // Gap and silence leave an idle history.
  lemma LeadIsIdle(s: Rx, b: Burst)
    requires b.FromIdle(s)
    ensures !s.After(b.Lead()).insync && IdleHistory(s.After(b.Lead()).register) && s.Bytes(b.Lead()) == []
  {
    var s1 := s.After(Hold(0, b.gap));
    if b.gap == 0 { assert Hold(0, b.gap) == []; } else { GapIdles(s, b.gap); }
    OnesStayOut(s1, b.silence);
    RxAppend(s, Hold(0, b.gap), Hold(1, b.silence));
  }

  // A burst from an idle history, with or without something after it.
  lemma BurstAndMore(idle: Rx, b: Burst)
    requires !idle.insync && IdleHistory(idle.register) && b.n >= 3 && b.Sent()
    ensures b.Delivered(b.AfterAcquisition(), idle.Bytes(Wave(b.cells) + b.late))
  {
    BurstDelivered(idle, b.n, b.message, b.cells);
    RxAppend(idle, Wave(b.cells), b.late);
    if b.late == [] { assert idle.After(Wave(b.cells)).Bytes(b.late) == []; }
  }

  lemma OneBurst(s: Rx, b: Burst)
    requires b.FromIdle(s)
    ensures b.Delivered(b.AfterAcquisition(), s.Bytes(b.Samples()))
  {
    var idle, more := s.After(b.Lead()), Wave(b.cells) + b.late;
    LeadIsIdle(s, b);
    RxAppend(s, b.Lead(), more);
    assert s.Bytes(b.Samples()) == idle.Bytes(more);
    BurstAndMore(idle, b);
  }

  lemma {:induction false} BurstAt(s: Rx, bursts: seq<Burst>, i: nat)
    requires !s.insync && i < |bursts|
    requires forall k :: 0 <= k < |bursts| ==> bursts[k].AfterGap()
    ensures bursts[i].Delivered(bursts[i].AfterAcquisition(), Deliveries(s, bursts)[i])
    decreases i
  {
    if i == 0 { OneBurst(s, bursts[0]); } else { BurstAt(Cleared(s, bursts[0]), bursts[1..], i - 1); }
  }

  /** Any number of bursts, each after at least 46 samples at level 0, whenever DSPClearSync comes after
      each of them, is delivered burst by burst, whatever history the correlator held before. */
  lemma SessionDelivered(s: Rx, bursts: seq<Burst>)
    requires !s.insync
    requires forall i :: 0 <= i < |bursts| ==> bursts[i].AfterGap()
    ensures forall i :: 0 <= i < |bursts| ==>
              bursts[i].Delivered(bursts[i].AfterAcquisition(), Deliveries(s, bursts)[i])
  {
    forall i | 0 <= i < |bursts|
      ensures bursts[i].Delivered(bursts[i].AfterAcquisition(), Deliveries(s, bursts)[i])
    {
      BurstAt(s, bursts, i);
    }
  }

  // One sample after acquisition, every tap but the newest still shows the pattern.
  lemma TapAfterAcquisition(cells: seq<Cell>, i: nat)
    requires Clean(cells) && StartsWithTwoSyncBytes(cells) && 1 <= i < N_CORR_BITS
    ensures 0 <= Start(cells, 15) + 1 - 23 * i < |Wave(cells)|
    ensures Wave(cells)[Start(cells, 15) + 1 - 23 * i] == TAP_PATTERN[i]
  {
    TapOffset(cells, i);
    var p := Start(cells, 15) + 1 - 23 * i - Start(cells, 15 - i);
    WaveAt(cells, 15 - i, p);
    PatternReversed(i);
    assert cells[15 - i].bit == SYNC_BITS[(15 - i) % 8];
  }

  lemma StaleRegisterDetects(c: Register, cells: seq<Cell>, b: Bit)
    requires Clean(cells) && StartsWithTwoSyncBytes(cells) && Start(cells, 15) < |Wave(cells)|
    ensures Detects(Push(History(c, Wave(cells)[..Start(cells, 15) + 1]), b)) <==> b == 1
  {
    var w, k := Wave(cells), Start(cells, 15);
    var h := Push(History(c, w[..k + 1]), b);
    if b != 1 {
      Blocked(h, 0);
    } else {
      forall i | 0 <= i < N_CORR_BITS
        ensures h[i * BIT_DIVISOR] == TAP_PATTERN[i]
      {
        if i > 0 {
          TapAfterAcquisition(cells, i);
          assert h[i * 23] == w[k + 1 - 23 * i];
        }
      }
    }
  }

  /** The gap matters to where sync comes back: DSPClearSync keeps the register, so after a burst the very next
      sample re-acquires sync if it is a 1, and only then. */
  lemma ClearedHistoryResyncs(s: Rx, cells: seq<Cell>, b: Bit)
    requires !s.insync && IdleHistory(s.register)
    requires Clean(cells) && StartsWithTwoSyncBytes(cells)
    ensures s.After(Wave(cells)).ClearSync().Next(b).insync <==> b == 1
  {
    RegisterAfterBurst(s, cells);
    StaleRegisterDetects(s.register, cells, b);
  }

  // ---------------------------------------------------------------- any mix of samples and clears

  datatype Event = Sample(b: Bit) | Clear

  function Step(s: Rx, e: Event): Rx {
    match e
    case Sample(b) => s.Next(b)
    case Clear => s.ClearSync()
  }

  function Run(s: Rx, events: seq<Event>): Rx
    decreases |events|
  {
    if events == [] then s else Step(Run(s, events[..|events| - 1]), events[|events| - 1])
  }

  // The samples that reached the correlator: those taken while out of sync.
  function Fed(s: Rx, events: seq<Event>): seq<Bit>
    decreases |events|
  {
    if events == [] then []
    else
      var before, last := events[..|events| - 1], events[|events| - 1];
      Fed(s, before) + (if last.Sample? && !Run(s, before).insync then [last.b] else [])
  }

  lemma {:induction false} RegisterIsFed(s: Rx, events: seq<Event>)
    ensures Run(s, events).register == History(s.register, Fed(s, events))
    decreases |events|
  {
    if events == [] {
      assert History(s.register, []) == s.register;
    } else {
      var before, last := events[..|events| - 1], events[|events| - 1];
      RegisterIsFed(s, before);
      if last.Sample? && !Run(s, before).insync {
        HistoryPush(s.register, Fed(s, before), last.b);
      }
    }
  }

  /** Over any sequence of samples and DSPClearSync calls, sync is taken on a sample exactly when the
      sixteen samples 23 apart that end with it, in the stream of all samples ever taken out of sync,
      are two 0xAB bytes, LSB first; in-sync samples leave no gap and a clear leaves no mark. */
  lemma SyncDecidedByFedSamples(s: Rx, events: seq<Event>, b: Bit)
    requires !Run(s, events).insync
    ensures Run(s, events).Next(b).insync <==> SpellsTwoSyncBytes(SpacedSamples(s.register, Fed(s, events) + [b]))
  {
    RegisterIsFed(s, events);
    DetectsByHistory(s.register, Fed(s, events), b);
  }

  // ---------------------------------------------------------------- SAME messages

  // Bits 5, 6 and 7 of the byte are not all alike: 0x20..0xDF, which covers printable ASCII and 0xAB.
  predicate Mixed(b: Byte) {
    0x20 <= b <= 0xDF
  }

  lemma MixedBits(b: Byte)
    requires Mixed(b)
    ensures var t := LsbFirst(b); t[5] != t[6] || t[6] != t[7]
  {
  }

  lemma {:induction false} TransmitAt(bytes: seq<Byte>, m: nat, i: nat)
    requires m < |bytes| && i < 8
    ensures |Transmit(bytes)| == 8 * |bytes|
    ensures Transmit(bytes)[8 * m + i] == LsbFirst(bytes[m])[i]
    decreases |bytes|
  {
    TransmitLength(bytes);
    TransmitLength(bytes[1..]);
    if m > 0 {
      TransmitAt(bytes[1..], m - 1, i);
    }
  }

  lemma {:induction false} TransmitLength(bytes: seq<Byte>)
    ensures |Transmit(bytes)| == 8 * |bytes|
    decreases |bytes|
  {
    if bytes != [] {
      TransmitLength(bytes[1..]);
    }
  }

  // A mixed byte m whose bits 5..7 lie within nine places after bit i holds a change from bit i.
  lemma ChangeInByte(bytes: seq<Byte>, i: int, m: nat)
    requires m < |bytes| && Mixed(bytes[m])
    requires 0 <= i <= |Transmit(bytes)| - 10 && i <= 8 * m + 5 && 8 * m + 7 < i + 10
    ensures ChangesSoon(Transmit(bytes), i)
  {
    var bits := Transmit(bytes);
    TransmitAt(bytes, m, 5);
    TransmitAt(bytes, m, 6);
    TransmitAt(bytes, m, 7);
    MixedBits(bytes[m]);
    assert bits[8 * m + 5] != bits[i] || bits[8 * m + 6] != bits[i] || bits[8 * m + 7] != bits[i];
  }

  /** Bytes 0x20..0xDF never put ten equal bits in a row, in any order. */
  lemma MixedBytesHaveShortRuns(bytes: seq<Byte>)
    requires forall m :: 0 <= m < |bytes| ==> Mixed(bytes[m])
    ensures RunsAtMostNine(Transmit(bytes))
  {
    TransmitLength(bytes);
    forall i | 0 <= i <= |Transmit(bytes)| - 10
      ensures ChangesSoon(Transmit(bytes), i)
    {
      ChangeInByte(bytes, i, if i % 8 <= 5 then i / 8 else i / 8 + 1);
    }
  }

  /** Bits at 520.83 per second sampled at 12 kHz: 576/25 = 23.04 samples each, starting at any
      phase. Cell k ends where the clock 576 (k + 1) / 25 falls. */
  function NominalCells(bits: seq<Bit>, phase: nat): seq<Cell> {
    seq(|bits|, k requires 0 <= k < |bits| =>
      NominalCellClean(k, phase);
      Cell(bits[k], (576 * (k + 1) + phase) / 25 - (576 * k + phase) / 25))
  }

  lemma NominalCellClean(k: nat, phase: nat)
    ensures 23 <= (576 * (k + 1) + phase) / 25 - (576 * k + phase) / 25 <= 24
  {
  }

  lemma NominalCellsCarry(bits: seq<Bit>, phase: nat)
    ensures Carries(NominalCells(bits, phase), bits)
  {
  }

  lemma SameBytesMixed(message: seq<Byte>)
    requires forall m :: 0 <= m < |message| ==> Mixed(message[m])
    ensures var bytes := Preamble(16) + message; forall m :: 0 <= m < |bytes| ==> Mixed(bytes[m])
  {
  }

  /** Every SAME burst is delivered: sixteen 0xAB bytes and any message of bytes 0x20..0xDF, so any
      printable ASCII text, sent at the nominal bit rate from any sampling phase. */
  lemma SameBurstDelivered(s: Rx, message: seq<Byte>, phase: nat)
    requires !s.insync && IdleHistory(s.register)
    requires forall m :: 0 <= m < |message| ==> Mixed(message[m])
    ensures s.Bytes(Wave(NominalCells(Transmit(Preamble(16) + message), phase))) == Preamble(14) + message
  {
    var bytes := Preamble(16) + message;
    SameBytesMixed(message);
    NominalCellsCarry(Transmit(bytes), phase);
    MixedBytesHaveShortRuns(bytes);
    BurstDelivered(s, 16, message, NominalCells(Transmit(bytes), phase));
  }
}
