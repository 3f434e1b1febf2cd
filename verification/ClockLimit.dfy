/** The exact limit of the bit clock: which cells come back bit for bit, read off the lengths of the
    runs of equal bits. */
module ClockLimit {
  import opened BitClock

  /** A run of equal bits: its level, how many bits it stands for and how many samples it lasts. */
  datatype Level = Level(bit: Bit, count: nat, width: nat)

  // The runs of a list of cells.
  function Levels(cells: seq<Cell>): (levels: seq<Level>)
    ensures cells != [] ==> levels != [] && levels[0].bit == cells[0].bit
    decreases |cells|
  {
    if cells == [] then []
    else
      var c, rest := cells[0], Levels(cells[1..]);
      if rest != [] && rest[0].bit == c.bit then [Level(c.bit, rest[0].count + 1, rest[0].width + c.width)] + rest[1..]
      else [Level(c.bit, 1, c.width)] + rest
  }

  // The samples of a list of runs, and the bits it stands for.
  function Signal(levels: seq<Level>): seq<Bit>
    decreases |levels|
  {
    if levels == [] then [] else Hold(levels[0].bit, levels[0].width) + Signal(levels[1..])
  }

  function Spelled(levels: seq<Level>): seq<Bit>
    decreases |levels|
  {
    if levels == [] then [] else Hold(levels[0].bit, levels[0].count) + Spelled(levels[1..])
  }

  predicate Alternating(levels: seq<Level>)
    decreases |levels|
  {
    |levels| <= 1 || (levels[0].bit != levels[1].bit && Alternating(levels[1..]))
  }

  // Every run but perhaps the first stands for a bit at least.
  predicate Counted(levels: seq<Level>) {
    forall i :: 1 <= i < |levels| ==> levels[i].count >= 1
  }

  // Wide enough for an edge and a bit time.
  const MIN_WIDTH := 15

  predicate Wide(cells: seq<Cell>) {
    forall i :: 0 <= i < |cells| ==> cells[i].width >= MIN_WIDTH
  }

  predicate WideLevels(levels: seq<Level>) {
    forall i :: 0 <= i < |levels| ==> levels[i].width >= MIN_WIDTH
  }

  lemma {:induction false} BitsOfFirst(cells: seq<Cell>)
    requires cells != []
    ensures BitsOf(cells) == Hold(cells[0].bit, 1) + BitsOf(cells[1..])
  {
  }

  lemma {:induction false} HoldOnto(b: Bit, m: nat, n: nat, rest: seq<Bit>)
    ensures Hold(b, m) + (Hold(b, n) + rest) == Hold(b, m + n) + rest
  {
  }

  lemma {:induction false} LevelsSignal(cells: seq<Cell>)
    ensures Signal(Levels(cells)) == Wave(cells)
    decreases |cells|
  {
    if cells != [] {
      var c, rest := cells[0], Levels(cells[1..]);
      LevelsSignal(cells[1..]);
      if rest != [] && rest[0].bit == c.bit {
        HoldOnto(c.bit, c.width, rest[0].width, Signal(rest[1..]));
      }
    }
  }

  lemma {:induction false} LevelsSpell(cells: seq<Cell>)
    ensures Spelled(Levels(cells)) == BitsOf(cells)
    decreases |cells|
  {
    if cells != [] {
      var c, rest := cells[0], Levels(cells[1..]);
      LevelsSpell(cells[1..]);
      BitsOfFirst(cells);
      if rest != [] && rest[0].bit == c.bit {
        HoldOnto(c.bit, 1, rest[0].count, Spelled(rest[1..]));
      }
    }
  }

  lemma {:induction false} LevelsShape(cells: seq<Cell>)
    ensures Alternating(Levels(cells)) && Counted(Levels(cells))
    ensures Wide(cells) ==> WideLevels(Levels(cells))
    decreases |cells|
  {
    if cells != [] {
      var levels, rest := Levels(cells), Levels(cells[1..]);
      LevelsShape(cells[1..]);
      assert levels[1..] == if rest != [] && rest[0].bit == cells[0].bit then rest[1..] else rest;
    }
  }

  // ---------------------------------------------------------------- what is sampled

  // Bits sampled in a later run: those the old clock still samples before the edge, and those after it.
  function LaterCount(calls: int, width: nat): nat {
    Between(calls, 2) + BitTimes(width - 3)
  }

  // Calls since the last reset at the end of run i, when the first run begins after `calls` of them.
  function CallsAfter(calls: int, levels: seq<Level>, i: nat): int
    requires i < |levels|
  {
    if i == 0 then calls + levels[0].width else levels[i].width - 3
  }

  /** How many bits are sampled in run i, when the first run continues one that the clock was last reset
      `calls` calls ago in; -1 stands for a reset on the run's own first sample. */
  function Sampled(calls: int, levels: seq<Level>, i: nat): nat
    requires i < |levels|
  {
    if i == 0 then Between(calls, levels[0].width)
    else LaterCount(CallsAfter(calls, levels, i - 1), levels[i].width)
  }

  // The runs as they are sampled.
  function Heard(calls: int, levels: seq<Level>): seq<Level> {
    seq(|levels|, i requires 0 <= i < |levels| => levels[i].(count := Sampled(calls, levels, i)))
  }

  // The runs after the first, as they are sampled when that one ends `calls` calls after the reset.
  function HeardLater(calls: int, levels: seq<Level>): seq<Level> {
    seq(|levels|, i requires 0 <= i < |levels| =>
      levels[i].(count := LaterCount(if i == 0 then calls else levels[i - 1].width - 3, levels[i].width)))
  }

  lemma {:induction false} HeardLaterFirst(calls: int, levels: seq<Level>)
    requires levels != []
    ensures HeardLater(calls, levels)[0].count == LaterCount(calls, levels[0].width)
    ensures HeardLater(calls, levels)[1..] == HeardLater(levels[0].width - 3, levels[1..])
  {
  }

  lemma {:induction false} HeardFirst(calls: int, levels: seq<Level>)
    requires levels != []
    ensures Spelled(Heard(calls, levels))
         == Hold(levels[0].bit, Between(calls, levels[0].width))
            + Spelled(HeardLater(calls + levels[0].width, levels[1..]))
  {
    assert Heard(calls, levels)[1..] == HeardLater(calls + levels[0].width, levels[1..]);
  }

  lemma {:induction false} LaterRunsSampled(v: Bit, calls: nat, levels: seq<Level>)
    requires Alternating(levels) && WideLevels(levels) && (levels != [] ==> levels[0].bit != v)
    ensures Running(v, calls).Bits(Signal(levels)) == Spelled(HeardLater(calls, levels))
    decreases |levels|
  {
    if levels != [] {
      var b, w := levels[0].bit, levels[0].width;
      LevelFollows(v, calls, b, w);
      LaterRunsSampled(b, w - 3, levels[1..]);
      RunAppend(Running(v, calls), Hold(b, w), Signal(levels[1..]));
      HeardLaterFirst(calls, levels);
    }
  }

  // From anywhere inside a run of levels[0].bit, `w` more samples of it and then the later runs.
  lemma {:induction false} RunsSampled(calls: nat, w: nat, levels: seq<Level>)
    requires levels != [] && Alternating(levels) && WideLevels(levels[1..])
    ensures Running(levels[0].bit, calls).Bits(Hold(levels[0].bit, w) + Signal(levels[1..]))
         == Hold(levels[0].bit, Between(calls, w)) + Spelled(HeardLater(calls + w, levels[1..]))
  {
    var v := levels[0].bit;
    LevelHolds(v, calls, w);
    RunAppend(Running(v, calls), Hold(v, w), Signal(levels[1..]));
    LaterRunsSampled(v, calls + w, levels[1..]);
  }

  lemma {:induction false} FromReset(b: Bit, w: nat)
    requires w >= 1
    ensures Synced(b) == Running(b, 0) && Between(-1, w) == Between(0, w - 1)
  {
  }

  lemma {:induction false} RunsFromSync(levels: seq<Level>)
    requires levels != [] && Alternating(levels) && WideLevels(levels)
    ensures Synced(levels[0].bit).Bits(Hold(levels[0].bit, levels[0].width - 1) + Signal(levels[1..]))
         == Spelled(Heard(-1, levels))
  {
    RunsSampled(0, levels[0].width - 1, levels);
    HeardFirst(-1, levels);
    FromReset(levels[0].bit, levels[0].width);
  }

  lemma {:induction false} SignalAfterFirst(levels: seq<Level>)
    requires levels != [] && levels[0].width >= 1
    ensures Signal(levels)[1..] == Hold(levels[0].bit, levels[0].width - 1) + Signal(levels[1..])
  {
  }

  /** Everything the clock samples after a sync on the first sample of the first cell, for cells of any
      widths from fifteen samples on: each run of equal bits yields the bit times that fall in it. */
  lemma {:induction false} SampledFromSync(cells: seq<Cell>)
    requires cells != [] && Wide(cells)
    ensures Synced(cells[0].bit).Bits(Wave(cells)[1..]) == Spelled(Heard(-1, Levels(cells)))
  {
    LevelsShape(cells);
    LevelsSignal(cells);
    SignalAfterFirst(Levels(cells));
    RunsFromSync(Levels(cells));
  }

  // ---------------------------------------------------------------- when runs spell the same bits

  predicate SameBits(a: seq<Level>, b: seq<Level>) {
    |a| == |b| && forall i :: 0 <= i < |a| ==> a[i].bit == b[i].bit
  }

  // All runs but the last are equally long, and the last of b is at least as long.
  predicate Covers(a: seq<Level>, b: seq<Level>)
    requires |a| == |b|
  {
    forall i :: 0 <= i < |a| ==> if i < |a| - 1 then a[i].count == b[i].count else a[i].count <= b[i].count
  }

  predicate SameCounts(a: seq<Level>, b: seq<Level>)
    requires |a| == |b|
  {
    forall i :: 0 <= i < |a| ==> a[i].count == b[i].count
  }

  // Two sequences that hold v for x and for y samples and then leave it.
  lemma {:induction false} HoldsDecide(v: Bit, x: nat, y: nat, s: seq<Bit>, t: seq<Bit>)
    requires s != [] && t != [] && s[0] != v && t[0] != v
    ensures Hold(v, x) + s <= Hold(v, y) + t <==> x == y && s <= t
  {
    var a, b := Hold(v, x) + s, Hold(v, y) + t;
    if x < y {
      assert a[x] == s[0] && b[x] == v;
    } else if y < x {
      assert a[y] == v && b[y] == t[0];
    } else {
      assert a[x..] == s && b[x..] == t;
      if s <= t { assert b == a + t[|s|..]; }
      if a <= b { assert s == t[..|s|]; }
    }
  }

  lemma {:induction false} SpelledOne(levels: seq<Level>)
    requires |levels| == 1
    ensures Spelled(levels) == Hold(levels[0].bit, levels[0].count)
  {
  }

  lemma {:induction false} SpelledCovers(a: seq<Level>, b: seq<Level>)
    requires SameBits(a, b) && Alternating(a) && Counted(a) && Counted(b)
    ensures Spelled(a) <= Spelled(b) <==> Covers(a, b)
    decreases |a|
  {
    if |a| == 1 {
      SpelledOne(a);
      SpelledOne(b);
      HoldJoin(a[0].bit, a[0].count, if a[0].count <= b[0].count then b[0].count - a[0].count else 0);
    } else if |a| > 1 {
      HoldsDecide(a[0].bit, a[0].count, b[0].count, Spelled(a[1..]), Spelled(b[1..]));
      SpelledCovers(a[1..], b[1..]);
      CoversFirst(a, b);
    }
  }

  lemma {:induction false} CoversFirst(a: seq<Level>, b: seq<Level>)
    requires |a| == |b| > 1
    ensures Covers(a, b) <==> a[0].count == b[0].count && Covers(a[1..], b[1..])
  {
  }

  lemma {:induction false} SameAlternating(a: seq<Level>, b: seq<Level>)
    requires SameBits(a, b) && Alternating(a)
    ensures Alternating(b)
    decreases |a|
  {
    if |a| > 1 {
      SameAlternating(a[1..], b[1..]);
    }
  }

  // Runs spell the same bits exactly when they are equally long one by one.
  lemma {:induction false} SpelledEqual(a: seq<Level>, b: seq<Level>)
    requires SameBits(a, b) && Alternating(a) && Counted(a) && Counted(b)
    ensures Spelled(a) == Spelled(b) <==> SameCounts(a, b)
  {
    SameAlternating(a, b);
    SpelledCovers(a, b);
    SpelledCovers(b, a);
    if SameCounts(a, b) {
      assert Spelled(a) <= Spelled(b) <= Spelled(a);
    }
  }

  lemma {:induction false} BitTimesPositive(n: int)
    requires n >= 12
    ensures BitTimes(n) >= 1
  {
    BitTimesBounds(n);
  }

  lemma {:induction false} HeardEveryRun(calls: int, levels: seq<Level>)
    requires WideLevels(levels)
    ensures SameBits(levels, Heard(calls, levels)) && Counted(Heard(calls, levels))
  {
    forall i | 1 <= i < |levels|
      ensures Sampled(calls, levels, i) >= 1
    {
      BitTimesPositive(levels[i].width - 3);
    }
  }

  // What was sent and what was sampled, run by run.
  lemma {:induction false} HeardAgainstSent(cells: seq<Cell>)
    requires Wide(cells)
    ensures var levels, heard := Levels(cells), Heard(-1, Levels(cells));
            && Spelled(levels) == BitsOf(cells) && SameBits(levels, heard)
            && (BitsOf(cells) == Spelled(heard) <==> SameCounts(levels, heard))
            && (BitsOf(cells) <= Spelled(heard) <==> Covers(levels, heard))
  {
    var levels := Levels(cells);
    LevelsShape(cells);
    LevelsSpell(cells);
    HeardEveryRun(-1, levels);
    SpelledEqual(levels, Heard(-1, levels));
    SpelledCovers(levels, Heard(-1, levels));
  }

  // From run `first` on, every run yields as many bits as it stands for.
  predicate RunsCounted(calls: int, levels: seq<Level>, first: nat) {
    forall i :: first <= i < |levels| ==> Sampled(calls, levels, i) == levels[i].count
  }

  /** Exact condition for recovery. After a sync on the first sample of the first cell, cells of any widths
      from fifteen samples on come back bit for bit if and only if in every run of equal bits the clock
      has as many bit times as the run has bits: BitTimes of the run's length less three samples (less one
      for the opening run), and one more when a bit time of the run before comes after that run's end but
      before the edge. */
  lemma {:induction false} CellsRecoveredIff(cells: seq<Cell>)
    requires cells != [] && Wide(cells)
    ensures Synced(cells[0].bit).Bits(Wave(cells)[1..]) == BitsOf(cells) <==> RunsCounted(-1, Levels(cells), 0)
  {
    SampledFromSync(cells);
    HeardAgainstSent(cells);
  }

  /** A receiver that owes bits of a run of v, wherever its clock stands, recovers the transmitted bits if
      and only if the run goes on, the rest of it has enough bit times for the bits owed too, and every
      later run has as many as it has bits. */
  lemma {:induction false} BehindRecoveredIff(v: Bit, calls: nat, owed: nat, cells: seq<Cell>)
    requires owed >= 1 && Wide(cells)
    ensures Running(v, calls).Bits(Wave(cells)) == Hold(v, owed) + BitsOf(cells)
       <==> var levels := Levels(cells);
            && cells != [] && cells[0].bit == v
            && Between(calls, levels[0].width) == owed + levels[0].count && RunsCounted(calls, levels, 1)
  {
    var levels := Levels(cells);
    LevelsShape(cells);
    LevelsSignal(cells);
    LevelsSpell(cells);
    if cells == [] {
      assert (Hold(v, owed) + BitsOf(cells))[0] == v;
    } else if cells[0].bit == v {
      RunsSampled(calls, levels[0].width, levels);
      InProgressDecided(calls, owed, levels);
    } else {
      LaterRunsSampled(v, calls, levels);
      FirstHeard(calls, levels);
      assert (Hold(v, owed) + BitsOf(cells))[0] == v;
    }
  }

  // A changed run always yields a bit of its own.
  lemma {:induction false} FirstHeard(calls: int, levels: seq<Level>)
    requires levels != [] && WideLevels(levels)
    ensures Spelled(HeardLater(calls, levels)) != [] && Spelled(HeardLater(calls, levels))[0] == levels[0].bit
  {
    BitTimesPositive(levels[0].width - 3);
    HeardLaterFirst(calls, levels);
  }

  lemma {:induction false} AtMostOneInCell(calls: int)
    ensures Between(calls, 23) <= 1
  {
    BitTimesBounds(calls);
    BitTimesBounds(calls + 23);
    var m := BitTimes(calls);
    assert calls + 23 < BitCall(m + 2);
    if BitTimes(calls + 23) > m + 1 {
      BitCallMonotone(m + 2, BitTimes(calls + 23));
    }
  }

  lemma {:induction false} AtMostOneEach(calls: int, m: nat)
    ensures Between(calls, 23 * m) <= m
    decreases m
  {
    if m > 0 {
      AtMostOneEach(calls, m - 1);
      AtMostOneInCell(calls + 23 * (m - 1));
    }
  }

  /** In cells of 23 samples such a receiver never catches up, whatever follows. */
  lemma {:induction false} BehindStaysWrong(v: Bit, calls: nat, owed: nat, cells: seq<Cell>)
    requires owed >= 1 && Narrow(cells)
    ensures Running(v, calls).Bits(Wave(cells)) != Hold(v, owed) + BitsOf(cells)
  {
    BehindRecoveredIff(v, calls, owed, cells);
    LevelsOfNarrow(cells);
    if cells != [] {
      AtMostOneEach(calls, Levels(cells)[0].count);
    }
  }

  lemma {:induction false} InProgressDecided(calls: nat, owed: nat, levels: seq<Level>)
    requires levels != [] && Alternating(levels) && Counted(levels) && WideLevels(levels)
    ensures Hold(levels[0].bit, Between(calls, levels[0].width))
            + Spelled(HeardLater(calls + levels[0].width, levels[1..]))
         == Hold(levels[0].bit, owed) + Spelled(levels)
       <==> Between(calls, levels[0].width) == owed + levels[0].count && RunsCounted(calls, levels, 1)
  {
    var due := levels[0 := levels[0].(count := owed + levels[0].count)];
    HeardFirst(calls, levels);
    HoldOnto(levels[0].bit, owed, levels[0].count, Spelled(levels[1..]));
    assert Spelled(due) == Hold(levels[0].bit, owed) + Spelled(levels);
    SameAlternating(levels, due);
    HeardEveryRun(calls, levels);
    SpelledEqual(due, Heard(calls, levels));
  }

  // ---------------------------------------------------------------- runs that are not overlong

  // The bit time of the run's last bit comes before the run ends, allowing for the edge.
  predicate Fits(levels: seq<Level>, i: nat)
    requires i < |levels|
  {
    levels[i].count >= 1 && BitCall(levels[i].count) + (if i == 0 then 0 else 2) < levels[i].width
  }

  // The run is not so long that the clock, a little faster than 24 samples, has a bit time to spare.
  predicate NoneToSpare(level: Level) {
    level.width + 1 < BitCall(level.count + 1)
  }

  lemma {:induction false} TooFewBitTimes(n: int, m: nat)
    requires m >= 1 && n < BitCall(m)
    ensures BitTimes(n) < m
  {
    BitTimesBounds(n);
    if m <= BitTimes(n) {
      BitCallMonotone(m, BitTimes(n));
    }
  }

  lemma {:induction false} FitsIffCounted(levels: seq<Level>, i: nat)
    requires i < |levels| && Ordinary(levels)
    requires i > 0 ==> Fits(levels, i - 1)
    ensures Sampled(-1, levels, i) <= levels[i].count
    ensures Sampled(-1, levels, i) == levels[i].count <==> Fits(levels, i)
  {
    var n := levels[i].width - (if i == 0 then 1 else 3);
    if i > 0 {
      BitTimesIs(CallsAfter(-1, levels, i - 1), levels[i - 1].count);
      BitTimesIs(CallsAfter(-1, levels, i - 1) + 2, levels[i - 1].count);
    }
    assert Sampled(-1, levels, i) == BitTimes(n);
    BitTimesBounds(n);
    if Fits(levels, i) { BitTimesIs(n, levels[i].count); } else { TooFewBitTimes(n, levels[i].count); }
  }

  predicate AllFit(levels: seq<Level>) {
    forall i :: 0 <= i < |levels| ==> Fits(levels, i)
  }

  predicate AllCounted(levels: seq<Level>, n: nat)
    requires n <= |levels|
  {
    forall i :: 0 <= i < n ==> Sampled(-1, levels, i) == levels[i].count
  }

  predicate Ordinary(levels: seq<Level>) {
    forall i :: 0 <= i < |levels| ==> levels[i].count >= 1 && levels[i].width >= MIN_WIDTH && NoneToSpare(levels[i])
  }

  lemma {:induction false} FitsCounted(levels: seq<Level>, i: nat)
    requires i < |levels| && Ordinary(levels)
    requires forall k :: 0 <= k <= i ==> Fits(levels, k)
    ensures Sampled(-1, levels, i) == levels[i].count
  {
    if i > 0 { assert Fits(levels, i - 1); }
    FitsIffCounted(levels, i);
  }

  lemma {:induction false} CountedFits(levels: seq<Level>, i: nat)
    requires i < |levels| && Ordinary(levels) && AllCounted(levels, i + 1)
    ensures Fits(levels, i)
    decreases i
  {
    if i > 0 { CountedFits(levels, i - 1); }
    FitsIffCounted(levels, i);
  }

  lemma {:induction false} AtLeastFits(levels: seq<Level>, i: nat)
    requires i < |levels| && Ordinary(levels) && AllCounted(levels, i)
    requires Sampled(-1, levels, i) >= levels[i].count
    ensures Fits(levels, i)
  {
    if i > 0 { CountedFits(levels, i - 1); }
    FitsIffCounted(levels, i);
  }

  lemma {:induction false} FitIffCounted(levels: seq<Level>)
    requires Ordinary(levels)
    ensures AllCounted(levels, |levels|) <==> AllFit(levels)
  {
    if AllCounted(levels, |levels|) {
      forall i | 0 <= i < |levels| ensures Fits(levels, i) { CountedFits(levels, i); }
    }
    if AllFit(levels) {
      forall i | 0 <= i < |levels| ensures Sampled(-1, levels, i) == levels[i].count { FitsCounted(levels, i); }
    }
  }

  /** For runs with no bit time to spare the condition is one inequality a run: the bit time of its last
      bit, 12 + 24 (m - 1) - floor((m - 1) / 24) calls after the reset, must come before its end. */
  lemma {:induction false} RunsRecoveredIff(cells: seq<Cell>)
    requires cells != [] && Wide(cells)
    requires forall i :: 0 <= i < |Levels(cells)| ==> NoneToSpare(Levels(cells)[i])
    ensures Synced(cells[0].bit).Bits(Wave(cells)[1..]) == BitsOf(cells) <==> AllFit(Levels(cells))
  {
    CellsRecoveredIff(cells);
    LevelsShape(cells);
    LevelsCount(cells);
    FitIffCounted(Levels(cells));
  }

  lemma {:induction false} LevelsCount(cells: seq<Cell>)
    ensures forall i :: 0 <= i < |Levels(cells)| ==> Levels(cells)[i].count >= 1
    decreases |cells|
  {
    if cells != [] {
      LevelsCount(cells[1..]);
    }
  }

  // 23 to 24 samples for each bit of every run.
  predicate CleanLevels(levels: seq<Level>) {
    forall i :: 0 <= i < |levels| ==> 23 * levels[i].count <= levels[i].width <= 24 * levels[i].count
  }

  lemma {:induction false} LevelsOfClean(cells: seq<Cell>)
    requires forall i :: 0 <= i < |cells| ==> 23 <= cells[i].width <= 24
    ensures CleanLevels(Levels(cells))
    decreases |cells|
  {
    if cells != [] {
      LevelsOfClean(cells[1..]);
    }
  }

  predicate Narrow(cells: seq<Cell>) {
    forall i :: 0 <= i < |cells| ==> cells[i].width == 23
  }

  lemma {:induction false} LevelsOfNarrow(cells: seq<Cell>)
    requires Narrow(cells)
    ensures forall i :: 0 <= i < |Levels(cells)| ==> Levels(cells)[i].width == 23 * Levels(cells)[i].count
    decreases |cells|
  {
    if cells != [] {
      LevelsOfNarrow(cells[1..]);
    }
  }

  /** For clean cells, 23 or 24 samples each in any order: bit for bit if and only if every run lasts past
      the bit time of its last bit. Runs of up to 263 equal bits are covered; beyond, the clock may have a
      bit time to spare and CellsRecoveredIff decides. */
  lemma {:induction false} CleanCellsRecoveredIff(cells: seq<Cell>)
    requires cells != [] && Clean(cells)
    requires forall i :: 0 <= i < |Levels(cells)| ==> Levels(cells)[i].count < 264
    ensures Synced(cells[0].bit).Bits(Wave(cells)[1..]) == BitsOf(cells) <==> AllFit(Levels(cells))
  {
    assert forall i :: 0 <= i < |cells| ==> cells[i].Clean();
    LevelsOfClean(cells);
    forall i | 0 <= i < |Levels(cells)|
      ensures NoneToSpare(Levels(cells)[i])
    {
      BitCallIs(Levels(cells)[i].count + 1);
    }
    RunsRecoveredIff(cells);
  }

  // The opening run is at most eleven bits long and every later one at most nine.
  predicate ElevenThenNine(levels: seq<Level>) {
    forall i :: 0 <= i < |levels| ==> levels[i].count <= (if i == 0 then 11 else 9)
  }

  lemma {:induction false} NarrowLevels(cells: seq<Cell>)
    requires Narrow(cells)
    ensures forall i :: 0 <= i < |Levels(cells)| ==> NoneToSpare(Levels(cells)[i])
    ensures AllFit(Levels(cells)) <==> ElevenThenNine(Levels(cells))
  {
    var levels := Levels(cells);
    LevelsOfNarrow(cells);
    LevelsCount(cells);
    forall i | 0 <= i < |levels|
      ensures NoneToSpare(levels[i])
      ensures Fits(levels, i) <==> levels[i].count <= (if i == 0 then 11 else 9)
    {
      BitCallIs(levels[i].count);
      BitCallIs(levels[i].count + 1);
    }
  }

  /** With cells of 23 samples every bit is recovered if and only if the opening run is at most eleven bits
      long and every later run at most nine. */
  lemma {:induction false} NarrowCellsRecoveredIff(cells: seq<Cell>)
    requires cells != [] && Narrow(cells)
    ensures Synced(cells[0].bit).Bits(Wave(cells)[1..]) == BitsOf(cells) <==> ElevenThenNine(Levels(cells))
  {
    NarrowLevels(cells);
    RunsRecoveredIff(cells);
  }

  function Width(cells: seq<Cell>): nat
    decreases |cells|
  {
    if cells == [] then 0 else cells[0].width + Width(cells[1..])
  }

  lemma {:induction false} EqualBits(v: Bit, run: seq<Cell>)
    requires run != [] && forall i :: 0 <= i < |run| ==> run[i].bit == v
    ensures Levels(run) == [Level(v, |run|, Width(run))]
    decreases |run|
  {
    if |run| > 1 {
      EqualBits(v, run[1..]);
    } else {
      assert Levels(run[1..]) == [] && Width(run[1..]) == 0;
    }
  }

  /** Equal bits after a change, in clean cells: they are recovered if and only if they last past the last
      one's bit time. Up to nine always are; ten need at least one cell of 24 samples. */
  lemma {:induction false} EqualBitsRecoveredIff(first: Cell, v: Bit, run: seq<Cell>)
    requires first.Clean() && first.bit != v && Clean(run) && 1 <= |run| < 264
    requires forall i :: 0 <= i < |run| ==> run[i].bit == v
    ensures var cells := [first] + run;
            Synced(first.bit).Bits(Wave(cells)[1..]) == BitsOf(cells) <==> BitCall(|run|) + 2 < Width(run)
    ensures |run| <= 9 ==> BitCall(|run|) + 2 < Width(run)
    ensures |run| == 10 ==> (BitCall(|run|) + 2 < Width(run) <==> Width(run) > 230)
  {
    var cells := [first] + run;
    assert cells[1..] == run;
    EqualBits(v, run);
    assert Levels(cells) == [Level(first.bit, 1, first.width), Level(v, |run|, Width(run))];
    CleanCellsRecoveredIff(cells);
    assert forall i :: 0 <= i < |run| ==> run[i].Clean();
    LevelsOfClean(run);
    BitCallIs(1);
    BitCallIs(|run|);
    assert AllFit(Levels(cells)) <==> Fits(Levels(cells), 0) && Fits(Levels(cells), 1);
  }
}
