/** Bit recovery of FSKdsp.c: the zero-crossing detector and the dual-modulus bit clock. */
module BitClock {

  // A demodulated data bit: DATA_BIT / DEMOD_BYTE holding 0 or 1.
  type Bit = b: bv8 | b < 2

  const XING_MAX := 3
  const BIT_DIVISOR := 23
  const SWALLOW_CTR := 23

  // The globals current_sense and xingcnt.
  datatype Edge = Edge(sense: Bit, xingcnt: int) {

    function Next(b: Bit): Edge {
      if b == sense then this
      else if xingcnt + 1 == XING_MAX then Edge(b, 0)
      else Edge(sense, xingcnt + 1)
    }

    predicate Fires(b: Bit) {
      b != sense && xingcnt + 1 == XING_MAX
    }
  }

  // The globals divisor and swallow_ctr.
  datatype Clock = Clock(divisor: int, swallow: int) {

    function Next(edge: bool): Clock {
      if edge then MID_BIT
      else if divisor != 0 then Clock(divisor - 1, swallow)
      else if swallow == 0 then Clock(BIT_DIVISOR - 1, SWALLOW_CTR)
      else Clock(BIT_DIVISOR, swallow - 1)
    }

    predicate BitTime(edge: bool) {
      !edge && divisor == 0
    }

    predicate InRange() {
      0 <= divisor <= BIT_DIVISOR && 0 <= swallow <= SWALLOW_CTR
    }
  }

  // The state RunBitClock(TRUE) leaves behind.
  const MID_BIT := Clock(BIT_DIVISOR / 2, SWALLOW_CTR)

  /** Edge detector and bit clock run together: RunBitClock(EdgeDetect(b, FALSE)). */
  datatype Recovery = Recovery(edge: Edge, clock: Clock) {

    function Next(b: Bit): Recovery {
      Recovery(edge.Next(b), clock.Next(edge.Fires(b)))
    }

    // The bit sampled by this call, if it is a bit time.
    function Emit(b: Bit): seq<Bit> {
      if clock.BitTime(edge.Fires(b)) then [b] else []
    }

    function After(samples: seq<Bit>): Recovery
      decreases |samples|
    {
      if samples == [] then this else Next(samples[0]).After(samples[1..])
    }

    // All bits sampled over a run of samples.
    function Bits(samples: seq<Bit>): seq<Bit>
      decreases |samples|
    {
      if samples == [] then [] else Emit(samples[0]) + Next(samples[0]).Bits(samples[1..])
    }
  }

  // The state the sync block sets up: EdgeDetect(b, TRUE); RunBitClock(TRUE).
  function Synced(b: Bit): Recovery {
    Recovery(Edge(b, 0), MID_BIT)
  }

  /** The same globals, updated in place by the two functions of FSKdsp.c. */
  class BitDecoder {
    var divisor: int
    var swallowCtr: int
    var currentSense: Bit
    var xingcnt: int

    ghost function Model(): Recovery
      reads this
    {
      Recovery(Edge(currentSense, xingcnt), Clock(divisor, swallowCtr))
    }

    constructor ()
      ensures Model() == Recovery(Edge(0, 0), Clock(0, 0))
    {
      divisor, swallowCtr, currentSense, xingcnt := 0, 0, 0, 0;
    }

    method EdgeDetect(demodOut: Bit, firstTime: bool) returns (edge: bool)
      modifies this`currentSense, this`xingcnt
      ensures edge == (!firstTime && old(Model()).edge.Fires(demodOut))
      ensures Model().edge == if firstTime then Edge(demodOut, 0) else old(Model()).edge.Next(demodOut)
    {
      if firstTime {
        currentSense := demodOut;
        xingcnt := 0;
        return false;
      }
      if demodOut == currentSense {
        return false;
      }
      xingcnt := xingcnt + 1;
      if xingcnt == XING_MAX {
        currentSense := demodOut;
        xingcnt := 0;
        return true;
      }
      return false;
    }

    method RunBitClock(edgedetect: bool) returns (bittime: bool)
      modifies this`divisor, this`swallowCtr
      ensures bittime == old(Model()).clock.BitTime(edgedetect)
      ensures Model().clock == old(Model()).clock.Next(edgedetect)
    {
      if edgedetect {
        divisor := 1 * BIT_DIVISOR / 2;
        swallowCtr := SWALLOW_CTR;
        return false;
      }
      bittime := false;
      if divisor == 0 {
        bittime := true;
        if swallowCtr == 0 {
          divisor := BIT_DIVISOR - 1;
          swallowCtr := SWALLOW_CTR;
        } else {
          divisor := BIT_DIVISOR;
          swallowCtr := swallowCtr - 1;
        }
      } else {
        divisor := divisor - 1;
      }
    }
  }

  // ---------------------------------------------------------------- runs of samples

  lemma {:induction false} RunAppend(r: Recovery, a: seq<Bit>, b: seq<Bit>)
    ensures r.After(a + b) == r.After(a).After(b)
    ensures r.Bits(a + b) == r.Bits(a) + r.After(a).Bits(b)
    decreases |a|
  {
    if a == [] {
      assert a + b == b;
    } else {
      assert (a + b)[0] == a[0] && (a + b)[1..] == a[1..] + b;
      RunAppend(r.Next(a[0]), a[1..], b);
    }
  }

  lemma {:induction false} RunOne(r: Recovery, b: Bit)
    ensures r.After([b]) == r.Next(b) && r.Bits([b]) == r.Emit(b)
  {
  }

  /** Once a sync or an edge has set the clock, both counters stay in 0..23 on every input. */
  lemma {:induction false} ClockStaysInRange(r: Recovery, samples: seq<Bit>)
    requires r.clock.InRange() && 0 <= r.edge.xingcnt < XING_MAX
    ensures r.After(samples).clock.InRange() && 0 <= r.After(samples).edge.xingcnt < XING_MAX
    decreases |samples|
  {
    if samples != [] {
      ClockStaysInRange(r.Next(samples[0]), samples[1..]);
    }
  }

  // ---------------------------------------------------------------- the edge detector

  // How many samples differ from a reference level.
  function Differing(v: Bit, samples: seq<Bit>): nat
    decreases |samples|
  {
    if samples == [] then 0
    else (if samples[0] != v then 1 else 0) + Differing(v, samples[1..])
  }

  /** The sense survives a run of samples exactly when fewer than three of them differ from it,
      wherever those samples lie: xingcnt is not cleared by a sample that agrees again. */
  lemma {:induction false} EdgeCountsAllDiffering(r: Recovery, samples: seq<Bit>)
    requires r.edge.xingcnt == 0
    ensures Differing(r.edge.sense, samples) < XING_MAX ==>
              r.After(samples).edge == Edge(r.edge.sense, Differing(r.edge.sense, samples))
    ensures Differing(r.edge.sense, samples) == XING_MAX && samples[|samples| - 1] != r.edge.sense ==>
              r.After(samples).edge == Edge(samples[|samples| - 1], 0)
  {
    var n := |samples|;
    if Differing(r.edge.sense, samples) < XING_MAX {
      QuietCount(r, samples);
    } else if Differing(r.edge.sense, samples) == XING_MAX && samples[n - 1] != r.edge.sense {
      assert samples == samples[..n - 1] + [samples[n - 1]];
      DifferingAppend(r.edge.sense, samples[..n - 1], samples[n - 1]);
      QuietCount(r, samples[..n - 1]);
      RunAppend(r, samples[..n - 1], [samples[n - 1]]);
      RunOne(r.After(samples[..n - 1]), samples[n - 1]);
    }
  }

  lemma {:induction false} DifferingAppend(v: Bit, a: seq<Bit>, b: Bit)
    ensures Differing(v, a + [b]) == Differing(v, a) + (if b != v then 1 else 0)
    decreases |a|
  {
    if a == [] {
      assert a + [b] == [b];
      assert Differing(v, [b][1..]) == 0;
    } else {
      assert (a + [b])[1..] == a[1..] + [b];
      DifferingAppend(v, a[1..], b);
    }
  }

  lemma {:induction false} QuietCount(r: Recovery, samples: seq<Bit>)
    requires 0 <= r.edge.xingcnt && r.edge.xingcnt + Differing(r.edge.sense, samples) < XING_MAX
    ensures r.After(samples).edge == Edge(r.edge.sense, r.edge.xingcnt + Differing(r.edge.sense, samples))
    decreases |samples|
  {
    if samples != [] {
      QuietCount(r.Next(samples[0]), samples[1..]);
    }
  }

  // ---------------------------------------------------------------- the free-running clock

  // The clock after n calls without an edge, starting from a reset.
  function FreeRun(n: nat): Clock {
    if n == 0 then MID_BIT else FreeRun(n - 1).Next(false)
  }

  // Call number n (counted from 1) after a reset is a bit time.
  predicate BitTimeAt(n: nat)
    requires n >= 1
  {
    FreeRun(n - 1).BitTime(false)
  }

  lemma {:induction false} FreeRunCountsDown(n: nat, k: nat)
    requires k <= FreeRun(n).divisor
    ensures FreeRun(n + k) == Clock(FreeRun(n).divisor - k, FreeRun(n).swallow)
    decreases k
  {
    if k > 0 {
      FreeRunCountsDown(n, k - 1);
    }
  }

  // What the m-th bit time leaves in the clock, and the call it falls on.
  function AtBit(m: nat): Clock
    requires m >= 1
  {
    Clock(0, if m == 1 then SWALLOW_CTR else AtBit(m - 1).swallow).Next(false)
  }

  function BitCall(m: nat): nat
    requires m >= 1
    ensures AtBit(m).divisor >= 22
  {
    if m == 1 then 12 else BitCall(m - 1) + AtBit(m - 1).divisor + 1
  }

  // The next bit time, counted from any point.
  lemma NextBit(n: nat, d: nat)
    requires d == FreeRun(n).divisor
    ensures BitTimeAt(n + d + 1) && FreeRun(n + d + 1) == Clock(0, FreeRun(n).swallow).Next(false)
  {
    FreeRunCountsDown(n, d);
  }

  lemma {:induction false} FreeRunAtBit(m: nat)
    requires m >= 1
    ensures FreeRun(BitCall(m)) == AtBit(m) && BitTimeAt(BitCall(m))
    decreases m
  {
    if m == 1 {
      NextBit(0, 11);
    } else {
      FreeRunAtBit(m - 1);
      NextBit(BitCall(m - 1), AtBit(m - 1).divisor);
    }
  }

  // Counting by 24.
  lemma NextRemainder(m: nat)
    ensures (m + 1) % 24 == if m % 24 == 23 then 0 else m % 24 + 1
    ensures (m + 1) / 24 == if m % 24 == 23 then m / 24 + 1 else m / 24
  {
  }

  lemma {:induction false} AtBitIs(m: nat)
    requires m >= 1
    ensures AtBit(m) == Clock(if m % 24 == 0 then 22 else 23, 23 - m % 24)
    decreases m
  {
    if m > 1 {
      AtBitIs(m - 1);
      NextRemainder(m - 1);
    }
  }

  // A bit period is 24 calls, and 23 once in every 24 periods.
  lemma {:induction false} BitCallIs(m: nat)
    requires m >= 1
    ensures BitCall(m) == 12 + 24 * (m - 1) - (m - 1) / 24
    decreases m
  {
    if m > 1 {
      BitCallIs(m - 1);
      AtBitIs(m - 1);
      NextRemainder(m - 2);
    }
  }

  // Between two bit times there is none.
  lemma NoBitBetween(m: nat, n: nat)
    requires n >= 1 && (m >= 1 ==> BitCall(m) < n) && n < BitCall(m + 1)
    ensures !BitTimeAt(n)
  {
    if m == 0 {
      QuietUntil(0, n - 1);
    } else {
      FreeRunAtBit(m);
      QuietUntil(BitCall(m), n - 1 - BitCall(m));
    }
  }

  lemma QuietUntil(n: nat, k: nat)
    requires k < FreeRun(n).divisor
    ensures !BitTimeAt(n + k + 1)
  {
    FreeRunCountsDown(n, k);
  }

  lemma {:induction false} BitCallMonotone(a: nat, b: nat)
    requires 1 <= a <= b
    ensures BitCall(a) <= BitCall(b)
    decreases b - a
  {
    if a < b {
      BitCallMonotone(a, b - 1);
    }
  }

  // How many of the first n calls after a reset are bit times.
  function BitTimes(n: int): nat
    decreases n
  {
    if n <= 0 then 0 else BitTimes(n - 1) + (if BitTimeAt(n) then 1 else 0)
  }

  lemma {:induction false} BitTimesBounds(n: int)
    ensures BitTimes(n) >= 1 ==> BitCall(BitTimes(n)) <= n
    ensures n < BitCall(BitTimes(n) + 1)
    decreases n
  {
    if n > 0 {
      BitTimesBounds(n - 1);
      var m := BitTimes(n - 1);
      if n == BitCall(m + 1) {
        FreeRunAtBit(m + 1);
      } else {
        NoBitBetween(m, n);
      }
    }
  }

  lemma BitTimesIs(n: int, m: nat)
    requires (m >= 1 ==> BitCall(m) <= n) && n < BitCall(m + 1)
    ensures BitTimes(n) == m
  {
    BitTimesBounds(n);
    if m < BitTimes(n) {
      BitCallMonotone(m + 1, BitTimes(n));
    } else if BitTimes(n) < m {
      BitCallMonotone(BitTimes(n) + 1, m);
    }
  }

  // n = 12 + 24 (m - 1) - floor((m - 1) / 24)
  predicate FallsOn(m: nat, n: int) {
    m >= 1 && n == 12 + 24 * (m - 1) - (m - 1) / 24
  }

  /** Closed form of the dual-modulus clock: with no edge after a reset, call n is a bit time
      exactly when n is 12 + 24 (m - 1) - floor((m - 1) / 24) for some m. */
  lemma DualModulusClosedForm(n: nat)
    requires n >= 1
    ensures BitTimeAt(n) <==> exists m: nat :: FallsOn(m, n)
  {
    if BitTimeAt(n) {
      BitTimeFallsOn(n);
    } else if m: nat :| FallsOn(m, n) {
      BitCallIs(m);
      FreeRunAtBit(m);
    }
  }

  lemma BitTimeFallsOn(n: nat)
    requires n >= 1 && BitTimeAt(n)
    ensures FallsOn(BitTimes(n), n)
  {
    BitTimesBounds(n - 1);
    BitTimesBounds(n);
    BitCallIs(BitTimes(n));
  }

  /** So 24 bit times fall in every 575 calls. */
  lemma BitTimesClosedForm(n: int)
    ensures BitTimes(n) == if n < 12 then 0 else (n - 12) / 575 * 24 + (n - 12) % 575 / 24 + 1
  {
    var m := if n < 12 then 0 else (n - 12) / 575 * 24 + (n - 12) % 575 / 24 + 1;
    if m >= 1 { BitCallIs(m); }
    BitCallIs(m + 1);
    BitTimesIs(n, m);
  }

  // The calls that are bit times, by remainders.
  predicate IsBitCall(n: int) {
    n >= 12 && (n - 12) % 575 % 24 == 0
  }

  lemma BitTimeByRemainder(n: nat)
    requires n >= 1
    ensures BitTimeAt(n) <==> IsBitCall(n)
  {
    BitTimesClosedForm(n - 1);
    BitTimesClosedForm(n);
    RemainderSteps(n - 12);
  }

  lemma RemainderSteps(x: int)
    ensures x >= 1 ==> (x / 575 * 24 + x % 575 / 24 > (x - 1) / 575 * 24 + (x - 1) % 575 / 24 <==> x % 575 % 24 == 0)
  {
  }

  lemma {:induction false} BitTimesMonotone(a: int, b: int)
    requires a <= b
    ensures BitTimes(a) <= BitTimes(b)
    decreases b - a
  {
    if a < b {
      BitTimesMonotone(a, b - 1);
    }
  }

  // The bit times among `count` calls that follow the first `from`.
  function Between(from: int, count: nat): (m: nat) {
    BitTimesMonotone(from, from + count);
    BitTimes(from + count) - BitTimes(from)
  }

  // The receiver in a run of v, `calls` calls after the clock was last reset.
  function Running(v: Bit, calls: nat): Recovery {
    Recovery(Edge(v, 0), FreeRun(calls))
  }

  // One call without an edge samples a bit exactly when it is a bit time.
  lemma OneCall(edge: Edge, calls: nat, b: Bit)
    requires !edge.Fires(b)
    ensures Recovery(edge, FreeRun(calls)).Bits([b]) == Hold(b, Between(calls, 1))
    ensures Recovery(edge, FreeRun(calls)).After([b]) == Recovery(edge.Next(b), FreeRun(calls + 1))
  {
  }

  lemma HoldJoin(b: Bit, m: nat, n: nat)
    ensures Hold(b, m) + Hold(b, n) == Hold(b, m + n)
  {
  }

  lemma BetweenJoin(from: int, a: nat, b: nat)
    ensures Between(from, a) + Between(from + a, b) == Between(from, a + b)
  {
  }

  // While the level holds, the bit times of the free-running clock sample it.
  predicate Sampling(v: Bit, calls: nat, n: nat) {
    && Running(v, calls).Bits(Hold(v, n)) == Hold(v, Between(calls, n))
    && Running(v, calls).After(Hold(v, n)) == Running(v, calls + n)
  }

  lemma SamplingOn(v: Bit, calls: nat, m: nat, n: nat)
    requires Sampling(v, calls, m) && Sampling(v, calls + m, n)
    ensures Sampling(v, calls, m + n)
  {
    HoldJoin(v, m, n);
    RunAppend(Running(v, calls), Hold(v, m), Hold(v, n));
    HoldJoin(v, Between(calls, m), Between(calls + m, n));
    BetweenJoin(calls, m, n);
  }

  lemma SamplingOne(v: Bit, calls: nat)
    ensures Sampling(v, calls, 1)
  {
  }

  lemma {:induction false} LevelHolds(v: Bit, calls: nat, n: nat)
    ensures Sampling(v, calls, n)
    decreases n
  {
    if n > 0 {
      hide Sampling;
      LevelHolds(v, calls, n - 1);
      SamplingOne(v, calls + n - 1);
      SamplingOn(v, calls, n - 1, 1);
    }
  }

  // The third sample of a new level resets the clock; until then the old bit times go on.
  lemma LevelChanges(v: Bit, calls: nat, b: Bit)
    requires b != v
    ensures Running(v, calls).Bits(Hold(b, 3)) == Hold(b, Between(calls, 2))
    ensures Running(v, calls).After(Hold(b, 3)) == Running(b, 0)
  {
    var r2 := Recovery(Edge(v, 2), FreeRun(calls + 2));
    assert Hold(b, 3) == [b] + ([b] + [b]);
    RunAppend(Running(v, calls), [b], [b] + [b]);
    OneCall(Edge(v, 0), calls, b);
    RunAppend(Recovery(Edge(v, 1), FreeRun(calls + 1)), [b], [b]);
    OneCall(Edge(v, 1), calls + 1, b);
    RunOne(r2, b);
    HoldJoin(b, Between(calls, 1), Between(calls + 1, 1));
  }

  // A new level of w samples.
  lemma LevelFollows(v: Bit, calls: nat, b: Bit, w: nat)
    requires b != v && w >= 3
    ensures Running(v, calls).Bits(Hold(b, w)) == Hold(b, Between(calls, 2) + BitTimes(w - 3))
    ensures Running(v, calls).After(Hold(b, w)) == Running(b, w - 3)
  {
    HoldJoin(b, 3, w - 3);
    RunAppend(Running(v, calls), Hold(b, 3), Hold(b, w - 3));
    LevelChanges(v, calls, b);
    LevelHolds(b, 0, w - 3);
    HoldJoin(b, Between(calls, 2), BitTimes(w - 3));
  }

  // ---------------------------------------------------------------- clean cells

  /** One transmitted bit: its value held for `width` samples. */
  datatype Cell = Cell(bit: Bit, width: nat) {
    predicate Clean() {
      width == 23 || width == 24
    }
  }

  function Hold(b: Bit, n: nat): seq<Bit> {
    seq(n, _ => b)
  }

  function Wave(cells: seq<Cell>): seq<Bit>
    decreases |cells|
  {
    if cells == [] then [] else Hold(cells[0].bit, cells[0].width) + Wave(cells[1..])
  }

  function BitsOf(cells: seq<Cell>): seq<Bit> {
    seq(|cells|, i requires 0 <= i < |cells| => cells[i].bit)
  }

  predicate Clean(cells: seq<Cell>) {
    forall i :: 0 <= i < |cells| ==> cells[i].Clean()
  }

  // No more than nine equal bits in a row: every window of ten has a change in it.
  predicate RunsAtMostNine(bits: seq<Bit>) {
    forall i :: 0 <= i <= |bits| - 10 ==> ChangesSoon(bits, i)
  }

  predicate ChangesSoon(bits: seq<Bit>, i: int)
    requires 0 <= i <= |bits| - 10
  {
    exists j :: i < j < i + 10 && bits[j] != bits[i]
  }

  /** Where the receiver stands at a cell boundary: the last k cells all carried v, and the next
      bit time is `divisor` samples into the next cell. */
  ghost predicate Aligned(r: Recovery, v: Bit, k: nat) {
    && 1 <= k <= 9
    && r.edge == Edge(v, 0)
    && 12 <= r.clock.divisor <= 14 + k
    && SWALLOW_CTR - k <= r.clock.swallow <= SWALLOW_CTR
  }

  // Samples that agree with the sense, fewer than the divisor, only count it down.
  lemma {:induction false} CountDown(r: Recovery, n: nat)
    requires n <= r.clock.divisor
    ensures r.After(Hold(r.edge.sense, n)) == Recovery(r.edge, Clock(r.clock.divisor - n, r.clock.swallow))
    ensures r.Bits(Hold(r.edge.sense, n)) == []
    decreases n
  {
    var h := Hold(r.edge.sense, n);
    if n > 0 {
      assert h[1..] == Hold(r.edge.sense, n - 1);
      CountDown(r.Next(r.edge.sense), n - 1);
    }
  }

  // A stretch of agreeing samples that reaches the bit time once samples the bit there and nowhere else.
  lemma {:induction false} OneBitTime(r: Recovery, n: nat)
    requires 0 <= r.clock.divisor < n <= r.clock.divisor + 24
    requires r.clock.swallow > 0
    ensures r.Bits(Hold(r.edge.sense, n)) == [r.edge.sense]
    ensures r.After(Hold(r.edge.sense, n))
         == Recovery(r.edge, Clock(24 - n + r.clock.divisor, r.clock.swallow - 1))
  {
    var v, d := r.edge.sense, r.clock.divisor;
    var r1 := Recovery(r.edge, Clock(0, r.clock.swallow));
    assert Hold(v, n) == Hold(v, d) + ([v] + Hold(v, n - d - 1));
    RunAppend(r, Hold(v, d), [v] + Hold(v, n - d - 1));
    CountDown(r, d);
    RunAppend(r1, [v], Hold(v, n - d - 1));
    RunOne(r1, v);
    CountDown(r1.Next(v), n - d - 1);
  }

  // A changed level: the third sample resets the clock, and the bit time falls twelve samples later.
  lemma {:induction false} EdgeThenBitTime(r: Recovery, b: Bit, n: nat)
    requires r.edge.xingcnt == 0 && b != r.edge.sense
    requires 15 <= n <= 38 && 2 <= r.clock.divisor
    ensures r.Bits(Hold(b, n)) == [b]
    ensures r.After(Hold(b, n)) == Recovery(Edge(b, 0), Clock(38 - n, SWALLOW_CTR - 1))
  {
    var r2 := r.Next(b).Next(b);
    assert Hold(b, n) == [b] + ([b] + ([b] + Hold(b, n - 3)));
    RunAppend(r, [b], [b] + ([b] + Hold(b, n - 3)));
    RunOne(r, b);
    RunAppend(r.Next(b), [b], [b] + Hold(b, n - 3));
    RunOne(r.Next(b), b);
    RunAppend(r2, [b], Hold(b, n - 3));
    RunOne(r2, b);
    assert r2.Next(b) == Synced(b);
    OneBitTime(Synced(b), n - 3);
  }

  // Where in a clean cell, counted from 0, the bit time falls.
  function SamplePosition(r: Recovery, c: Cell): int {
    if c.bit == r.edge.sense then r.clock.divisor else 14
  }

  /** Inside an aligned cell the bit time comes once, at SamplePosition: never before the thirteenth
      sample, not before the fifteenth once an edge has been seen in the run, and before the cell ends. */
  lemma {:induction false} SamplesOncePerCell(r: Recovery, v: Bit, k: nat, c: Cell, p: nat)
    requires Aligned(r, v, k) && c.Clean() && p < c.width
    requires c.bit == v ==> k <= 8
    ensures 12 <= SamplePosition(r, c) <= 22
    ensures c.bit != v || r.clock.divisor >= 14 ==> SamplePosition(r, c) >= 14
    ensures r.After(Hold(c.bit, p)).Emit(c.bit) == if p == SamplePosition(r, c) then [c.bit] else []
  {
    var b, q := c.bit, SamplePosition(r, c);
    assert Hold(b, p + 1) == Hold(b, p) + [b];
    RunAppend(r, Hold(b, p), [b]);
    RunOne(r.After(Hold(b, p)), b);
    if p <= q {
      BitsBefore(r, c, p);
      if p == q { BitsThrough(r, c, p + 1); } else { BitsBefore(r, c, p + 1); }
    } else {
      BitsThrough(r, c, p);
      BitsThrough(r, c, p + 1);
    }
  }

  lemma {:induction false} BitsBefore(r: Recovery, c: Cell, n: nat)
    requires r.edge.xingcnt == 0 && 2 <= r.clock.divisor
    requires n <= SamplePosition(r, c)
    ensures r.Bits(Hold(c.bit, n)) == []
  {
    var b := c.bit;
    if b == r.edge.sense {
      CountDown(r, n);
    } else {
      var r2 := r.Next(b).Next(b);
      if n == 1 {
        assert Hold(b, 1) == [b];
        RunOne(r, b);
      } else if n >= 2 {
        assert Hold(b, n) == [b] + ([b] + Hold(b, n - 2));
        RunAppend(r, [b], [b] + Hold(b, n - 2));
        RunOne(r, b);
        RunAppend(r.Next(b), [b], Hold(b, n - 2));
        RunOne(r.Next(b), b);
        if n >= 3 {
          assert Hold(b, n - 2) == [b] + Hold(b, n - 3);
          RunAppend(r2, [b], Hold(b, n - 3));
          RunOne(r2, b);
          CountDown(r2.Next(b), n - 3);
        }
      }
    }
  }

  lemma {:induction false} BitsThrough(r: Recovery, c: Cell, n: nat)
    requires r.edge.xingcnt == 0 && 2 <= r.clock.divisor <= 23 && r.clock.swallow > 0
    requires SamplePosition(r, c) < n <= c.width <= 24
    ensures r.Bits(Hold(c.bit, n)) == [c.bit]
  {
    if c.bit == r.edge.sense { OneBitTime(r, n); } else { EdgeThenBitTime(r, c.bit, n); }
  }

  /** One clean cell keeps the receiver aligned and yields exactly its own bit; from an edge on, the next
      bit time stays at least fourteen samples into its cell. */
  lemma {:induction false} CellStep(r: Recovery, v: Bit, k: nat, c: Cell)
    requires Aligned(r, v, k) && c.Clean()
    requires c.bit == v ==> k <= 8
    ensures r.Bits(Hold(c.bit, c.width)) == [c.bit]
    ensures Aligned(r.After(Hold(c.bit, c.width)), c.bit, if c.bit == v then k + 1 else 1)
    ensures c.bit != v || r.clock.divisor >= 14 ==> r.After(Hold(c.bit, c.width)).clock.divisor >= 14
  {
    if c.bit == v {
      OneBitTime(r, c.width);
    } else {
      EdgeThenBitTime(r, c.bit, c.width);
    }
  }

  // The runs of `bits`, the first of them continuing a run of k copies of v, never exceed nine.
  predicate RunsContinue(v: Bit, k: nat, bits: seq<Bit>)
    decreases |bits|
  {
    bits == [] ||
    if bits[0] == v then k <= 8 && RunsContinue(v, k + 1, bits[1..]) else RunsContinue(bits[0], 1, bits[1..])
  }

  lemma {:induction false} RunsSuffix(v: Bit, k: nat, bits: seq<Bit>)
    requires 1 <= k <= 9
    requires RunsAtMostNine(seq(k, _ => v) + bits)
    ensures RunsContinue(v, k, bits)
    decreases |bits|
  {
    var all := seq(k, _ => v) + bits;
    if bits != [] {
      if bits[0] == v {
        assert k <= 8 by {
          if |all| >= 10 {
            assert ChangesSoon(all, 0);
          }
        }
        assert all == seq(k + 1, _ => v) + bits[1..];
        RunsSuffix(v, k + 1, bits[1..]);
      } else {
        var rest := seq(1, _ => bits[0]) + bits[1..];
        assert rest == all[k..];
        forall i | 0 <= i <= |rest| - 10
          ensures ChangesSoon(rest, i)
        {
          assert ChangesSoon(all, k + i);
          var j :| k + i < j < k + i + 10 && all[j] != all[k + i];
          assert rest[j - k] != rest[i];
        }
        RunsSuffix(bits[0], 1, bits[1..]);
      }
    }
  }

  /** Clock recovery: from an aligned receiver, clean cells without long runs come back bit for bit. */
  lemma {:induction false} CellsRecovered(r: Recovery, v: Bit, k: nat, cells: seq<Cell>)
    requires Aligned(r, v, k) && Clean(cells) && RunsContinue(v, k, BitsOf(cells))
    ensures r.Bits(Wave(cells)) == BitsOf(cells)
    ensures exists v', k' :: Aligned(r.After(Wave(cells)), v', k')
    decreases |cells|
  {
    if cells == [] {
      assert Aligned(r.After(Wave(cells)), v, k);
    } else {
      var c := cells[0];
      var h := Hold(c.bit, c.width);
      CellStep(r, v, k, c);
      assert BitsOf(cells) == [c.bit] + BitsOf(cells[1..]);
      assert BitsOf(cells)[1..] == BitsOf(cells[1..]);
      CellsRecovered(r.After(h), c.bit, if c.bit == v then k + 1 else 1, cells[1..]);
      RunAppend(r, h, Wave(cells[1..]));
    }
  }

  // One bit in each cell: its own.
  lemma {:induction false} CellByCell(r: Recovery, v: Bit, k: nat, cells: seq<Cell>, i: nat)
    requires Aligned(r, v, k) && Clean(cells) && RunsContinue(v, k, BitsOf(cells)) && i < |cells|
    ensures r.After(Wave(cells[..i])).Bits(Hold(cells[i].bit, cells[i].width)) == [cells[i].bit]
    decreases i
  {
    var c, rest := cells[0], cells[1..];
    assert BitsOf(cells)[1..] == BitsOf(rest);
    CellStep(r, v, k, c);
    if i > 0 {
      var h := Hold(c.bit, c.width);
      assert cells[..i][1..] == rest[..i - 1];
      RunAppend(r, h, Wave(rest[..i - 1]));
      CellByCell(r.After(h), c.bit, if c.bit == v then k + 1 else 1, rest, i - 1);
    }
  }

  // After the sync reset on the first sample of a cell, the rest of that cell yields its bit and leaves the
  // receiver aligned.
  lemma {:induction false} FirstCell(cells: seq<Cell>)
    requires cells != [] && Clean(cells) && RunsAtMostNine(BitsOf(cells))
    ensures var c, r := cells[0], Synced(cells[0].bit);
            && r.Bits(Hold(c.bit, c.width - 1)) == [c.bit] && Aligned(r.After(Hold(c.bit, c.width - 1)), c.bit, 1)
            && RunsContinue(c.bit, 1, BitsOf(cells[1..]))
  {
    var c := cells[0];
    OneBitTime(Synced(c.bit), c.width - 1);
    assert BitsOf(cells) == seq(1, _ => c.bit) + BitsOf(cells[1..]);
    RunsSuffix(c.bit, 1, BitsOf(cells[1..]));
  }

  lemma WaveWithoutFirst(cells: seq<Cell>)
    requires cells != [] && cells[0].width >= 1
    ensures Wave(cells) != [] && Wave(cells)[1..] == Hold(cells[0].bit, cells[0].width - 1) + Wave(cells[1..])
  {
  }

  // After the reset and the cells before it, cell i yields one bit, its own.
  predicate YieldsItsBit(cells: seq<Cell>, i: nat)
    requires 1 <= i < |cells|
  {
    var before := Wave(cells[..i]);
    before != [] && Synced(cells[0].bit).After(before[1..]).Bits(Hold(cells[i].bit, cells[i].width)) == [cells[i].bit]
  }

  lemma {:induction false} EachCellFromSync(cells: seq<Cell>, i: nat)
    requires Clean(cells) && RunsAtMostNine(BitsOf(cells)) && 1 <= i < |cells|
    ensures YieldsItsBit(cells, i)
  {
    var c, rest := cells[0], cells[1..];
    var h := Hold(c.bit, c.width - 1);
    WaveWithoutFirst(cells[..i]);
    assert cells[..i][1..] == rest[..i - 1];
    FirstCell(cells);
    hide Wave, RunsAtMostNine, RunsContinue;
    RunAppend(Synced(c.bit), h, Wave(rest[..i - 1]));
    CellByCell(Synced(c.bit).After(h), c.bit, 1, rest, i - 1);
  }

  lemma {:induction false} BitsFromSync(cells: seq<Cell>)
    requires cells != [] && Clean(cells) && RunsAtMostNine(BitsOf(cells))
    ensures Synced(cells[0].bit).Bits(Wave(cells)[1..]) == BitsOf(cells)
  {
    var c, rest := cells[0], cells[1..];
    var h := Hold(c.bit, c.width - 1);
    assert BitsOf(cells) == [c.bit] + BitsOf(rest);
    WaveWithoutFirst(cells);
    FirstCell(cells);
    hide Wave, BitsOf, RunsAtMostNine, RunsContinue;
    RunAppend(Synced(c.bit), h, Wave(rest));
    CellsRecovered(Synced(c.bit).After(h), c.bit, 1, rest);
  }

  /** Clock recovery from the sync reset on the first sample of a cell: the rest of that cell and all later
      cells yield the transmitted bits, one in the rest of the first cell and one in each later one. */
  lemma {:induction false} RecoveredFromSync(cells: seq<Cell>)
    requires cells != [] && Clean(cells) && RunsAtMostNine(BitsOf(cells))
    ensures Synced(cells[0].bit).Bits(Wave(cells)[1..]) == BitsOf(cells)
    ensures Synced(cells[0].bit).Bits(Hold(cells[0].bit, cells[0].width - 1)) == [cells[0].bit]
    ensures forall i :: 1 <= i < |cells| ==> YieldsItsBit(cells, i)
  {
    hide YieldsItsBit, Wave, BitsOf;
    BitsFromSync(cells);
    FirstCell(cells);
    forall i | 1 <= i < |cells|
      ensures YieldsItsBit(cells, i)
    {
      EachCellFromSync(cells, i);
    }
  }
}
