/** Exactly which bursts are delivered: the limit of the bit clock carried through the framer. */
module BurstLimit {
  import opened Words
  import opened BitClock
  import opened ClockLimit
  import opened Framer
  import opened Receiver
  import opened Session

  // ---------------------------------------------------------------- what the framer delivers

  lemma PackRoundTrip(a: Bit, b: Bit, c: Bit, d: Bit, e: Bit, f: Bit, g: Bit, h: Bit)
    ensures LsbFirst(Pack(a, b, c, d, e, f, g, h)) == [a, b, c, d, e, f, g, h]
  {
  }

  // Eight bits are the byte they leave in the shifter, sent LSB first.
  lemma FoldRoundTrip(s: Byte, w: seq<Bit>)
    requires |w| == 8
    ensures LsbFirst(Fold(s, w)) == w
  {
    FoldEight(s, w);
    PackRoundTrip(w[0], w[1], w[2], w[3], w[4], w[5], w[6], w[7]);
    assert w == [w[0], w[1], w[2], w[3], w[4], w[5], w[6], w[7]];
  }

  lemma FirstByte(s: Byte, bits: seq<Bit>)
    requires |bits| >= 8
    ensures var b := Fold(s, bits[..8]);
            LsbFirst(b) == bits[..8] && Frame(true, s, 0).Bytes(bits) == [b] + Frame(true, b, 0).Bytes(bits[8..])
  {
    var b := Fold(s, bits[..8]);
    FoldRoundTrip(s, bits[..8]);
    OneByte(s, b);
    assert bits == bits[..8] + bits[8..];
    FrameAppend(Frame(true, s, 0), bits[..8], bits[8..]);
  }

  /** The framer loses nothing: from a byte boundary, the bytes delivered, sent again, are the bits received
      up to the last whole byte. */
  lemma {:induction false} DeliveredBits(s: Byte, bits: seq<Bit>)
    ensures var bytes := Frame(true, s, 0).Bytes(bits);
            Transmit(bytes) <= bits && |bits| < |Transmit(bytes)| + 8
    decreases |bits|
  {
    if |bits| < 8 {
      PartByte(Frame(true, s, 0), bits);
    } else {
      var b := Fold(s, bits[..8]);
      FirstByte(s, bits);
      DeliveredBits(b, bits[8..]);
      var rest := Frame(true, b, 0).Bytes(bits[8..]);
      assert ([b] + rest)[1..] == rest;
      assert bits == bits[..8] + bits[8..];
    }
  }

  // Less than a byte after the bits of a byte list delivers nothing more.
  lemma BytesAndMore(s: Byte, bits: seq<Bit>, bytes: seq<Byte>)
    requires Transmit(bytes) <= bits && |bits| < |Transmit(bytes)| + 8
    ensures Frame(true, s, 0).Bytes(bits) == bytes
  {
    var sent, tail := Transmit(bytes), bits[|Transmit(bytes)|..];
    assert bits == sent + tail;
    BytesDelivered(s, bytes);
    FrameAppend(Frame(true, s, 0), sent, tail);
    PartByte(Frame(true, s, 0).After(sent), tail);
  }

  // The framer delivers a byte list exactly when its bits come first and less than a byte follows.
  lemma BytesDecided(s: Byte, bits: seq<Bit>, bytes: seq<Byte>)
    ensures Frame(true, s, 0).Bytes(bits) == bytes <==> Transmit(bytes) <= bits && |bits| < |Transmit(bytes)| + 8
  {
    if Frame(true, s, 0).Bytes(bits) == bytes {
      DeliveredBits(s, bits);
    } else if Transmit(bytes) <= bits && |bits| < |Transmit(bytes)| + 8 {
      BytesAndMore(s, bits, bytes);
    }
  }

  // ---------------------------------------------------------------- which bits have to come back

  // Cells with short runs come back, whatever cells follow them.
  lemma OpeningRecovered(opening: seq<Cell>, more: seq<Cell>)
    requires opening != [] && Clean(opening) && RunsAtMostNine(BitsOf(opening))
    ensures Wave(opening + more) != []
    ensures BitsOf(opening) <= Synced(opening[0].bit).Bits(Wave(opening + more)[1..])
  {
    assert opening[0].Clean();
    RecoveredFromSync(opening);
    WaveSplit(opening, more);
    WaveAt(opening, 0, 0);
    hide Wave, RunsAtMostNine;
    var w := Wave(opening);
    assert (w + Wave(more))[1..] == w[1..] + Wave(more);
    RunAppend(Synced(opening[0].bit), w[1..], Wave(more));
  }

  // Recovered bits that begin as they should are framed from the ninth on.
  lemma HuntDecided(got: seq<Bit>, rest: seq<Byte>)
    requires Approach(1) <= got
    ensures HUNTING.Bytes(got) == [SYNC_BYTE] + rest
       <==> Approach(1) + Transmit(rest) <= got && |got| < |Approach(1) + Transmit(rest)| + 8
  {
    var more := got[9..];
    assert got == Approach(1) + more;
    HuntFinds(1);
    FrameAppend(HUNTING, Approach(1), more);
    BytesDecided(SYNC_BYTE, more, rest);
    SamePrefix([SYNC_BYTE], Frame(true, SYNC_BYTE, 0).Bytes(more), rest);
    SamePrefix(Approach(1), Transmit(rest), more);
  }

  lemma SamePrefix<T>(a: seq<T>, s: seq<T>, t: seq<T>)
    ensures a + s <= a + t <==> s <= t
    ensures a + s == a + t <==> s == t
  {
    assert (a + s)[|a|..] == s && (a + t)[|a|..] == t;
    if s <= t { assert a + t == (a + s) + t[|s|..]; }
    if a + s <= a + t { assert s == t[..|s|]; }
  }

  // What comes back always begins as it should.
  lemma GotBegins(n: nat, message: seq<Byte>, cells: seq<Cell>)
    requires n >= 3 && Carries(cells, Transmit(Preamble(n) + message))
    ensures |cells| >= 24 && Wave(cells[15..]) != []
    ensures Approach(1) <= Synced(1).Bits(Wave(cells[15..])[1..])
  {
    TailBits(n, message, cells);
    var tail := cells[15..];
    assert BitsOf(tail[..9]) == BitsOf(tail)[..9] == Approach(1);
    OpeningRecovered(tail[..9], tail[9..]);
    assert tail == tail[..9] + tail[9..];
  }

  // A burst is delivered exactly when its bits come back, with less than a byte behind them.
  lemma BurstDecided(s: Rx, n: nat, message: seq<Byte>, cells: seq<Cell>)
    requires !s.insync && IdleHistory(s.register)
    requires n >= 3 && Carries(cells, Transmit(Preamble(n) + message))
    ensures |cells| >= 24 && Wave(cells[15..]) != []
    ensures var got, sent := Synced(1).Bits(Wave(cells[15..])[1..]), BitsOf(cells[15..]);
            s.Bytes(Wave(cells)) == Preamble(n - 2) + message <==> sent <= got && |got| < |sent| + 8
  {
    BurstOpens(n, message, cells);
    DeliveredByHunt(s, cells);
    TailBits(n, message, cells);
    GotBegins(n, message, cells);
    HuntDecided(Synced(1).Bits(Wave(cells[15..])[1..]), Preamble(n - 3) + message);
    OneMoreSyncByte(n - 2, message);
  }

  // ---------------------------------------------------------------- in terms of runs

  // Runs that differ in the last one only differ in length by as much.
  lemma {:induction false} CoversLength(a: seq<Level>, b: seq<Level>)
    requires a != [] && |a| == |b| && Covers(a, b)
    ensures |Spelled(b)| - |Spelled(a)| == b[|b| - 1].count - a[|a| - 1].count
    decreases |a|
  {
    if |a| == 1 {
      SpelledOne(a);
      SpelledOne(b);
    } else {
      CoversFirst(a, b);
      CoversLength(a[1..], b[1..]);
    }
  }

  // Every run yields as many bits as it stands for; the last may yield up to seven more, which do not
  // make a byte.
  predicate RunsDelivered(levels: seq<Level>)
    requires levels != []
  {
    Covers(levels, Heard(-1, levels)) && Sampled(-1, levels, |levels| - 1) < levels[|levels| - 1].count + 8
  }

  lemma RunsDeliveredIs(levels: seq<Level>)
    requires levels != []
    ensures var heard := Heard(-1, levels);
            RunsDelivered(levels) <==> Covers(levels, heard) && |Spelled(heard)| < |Spelled(levels)| + 8
  {
    if Covers(levels, Heard(-1, levels)) {
      CoversLength(levels, Heard(-1, levels));
      HeardCount(levels, |levels| - 1);
    }
  }

  lemma HeardCount(levels: seq<Level>, i: nat)
    requires i < |levels|
    ensures Heard(-1, levels)[i].count == Sampled(-1, levels, i)
  {
  }

  /** Exact condition for delivery. A burst in clean cells, received from an idle history, is delivered as
      n - 2 sync bytes and exactly the message if and only if, from the sixteenth cell on, every run of equal
      bits has as many bit times as bits; the last run may have up to seven more. */
  lemma BurstDeliveredIff(s: Rx, n: nat, message: seq<Byte>, cells: seq<Cell>)
    requires !s.insync && IdleHistory(s.register)
    requires n >= 3 && Carries(cells, Transmit(Preamble(n) + message))
    ensures |cells| >= 24 && Levels(cells[15..]) != []
    ensures s.Bytes(Wave(cells)) == Preamble(n - 2) + message <==> RunsDelivered(Levels(cells[15..]))
  {
    BurstDecided(s, n, message, cells);
    TailBits(n, message, cells);
    var tail := cells[15..];
    assert forall i :: 0 <= i < |tail| ==> tail[i].Clean();
    SampledFromSync(tail);
    HeardAgainstSent(tail);
    RunsDeliveredIs(Levels(tail));
  }

  lemma FitIsDelivered(levels: seq<Level>)
    requires levels != [] && Ordinary(levels)
    ensures RunsDelivered(levels) <==> AllFit(levels)
  {
    if AllFit(levels) {
      FitIffCounted(levels);
      assert forall i :: 0 <= i < |levels| ==> Heard(-1, levels)[i].count == levels[i].count;
    }
    if RunsDelivered(levels) {
      forall i | 0 <= i < |levels|
        ensures Fits(levels, i)
      {
        DeliveredFits(levels, i);
      }
    }
  }

  lemma DeliveredCount(levels: seq<Level>, i: nat)
    requires i < |levels| && RunsDelivered(levels)
    ensures Sampled(-1, levels, i) >= levels[i].count
    ensures i < |levels| - 1 ==> Sampled(-1, levels, i) == levels[i].count
  {
  }

  // An ordinary run never yields more bits than it stands for, not even the last.
  lemma DeliveredFits(levels: seq<Level>, i: nat)
    requires i < |levels| && Ordinary(levels) && RunsDelivered(levels)
    ensures Fits(levels, i)
  {
    DeliveredCounted(levels, i);
    DeliveredCount(levels, i);
    AtLeastFits(levels, i);
  }

  lemma DeliveredCounted(levels: seq<Level>, i: nat)
    requires i < |levels| && RunsDelivered(levels)
    ensures AllCounted(levels, i)
  {
  }

  lemma CleanIsOrdinary(cells: seq<Cell>)
    requires Clean(cells)
    requires forall i :: 0 <= i < |Levels(cells)| ==> NoneToSpare(Levels(cells)[i])
    ensures Ordinary(Levels(cells))
  {
    assert forall i :: 0 <= i < |cells| ==> cells[i].Clean();
    LevelsShape(cells);
    LevelsCount(cells);
  }

  /** With no bit time to spare in any run, the burst is delivered if and only if every run from the
      sixteenth cell on lasts past the bit time of its last bit. */
  lemma BurstFitsIff(s: Rx, n: nat, message: seq<Byte>, cells: seq<Cell>)
    requires !s.insync && IdleHistory(s.register)
    requires n >= 3 && Carries(cells, Transmit(Preamble(n) + message)) && |cells| >= 24
    requires forall i :: 0 <= i < |Levels(cells[15..])| ==> NoneToSpare(Levels(cells[15..])[i])
    ensures s.Bytes(Wave(cells)) == Preamble(n - 2) + message <==> AllFit(Levels(cells[15..]))
  {
    BurstDeliveredIff(s, n, message, cells);
    TailBits(n, message, cells);
    CleanIsOrdinary(cells[15..]);
    FitIsDelivered(Levels(cells[15..]));
  }

  /** In cells of 23 samples: if and only if, from the sixteenth cell on, the opening run is at most eleven
      bits long and every later one at most nine. */
  lemma NarrowBurstDeliveredIff(s: Rx, n: nat, message: seq<Byte>, cells: seq<Cell>)
    requires !s.insync && IdleHistory(s.register)
    requires n >= 3 && Carries(cells, Transmit(Preamble(n) + message)) && Narrow(cells)
    ensures |cells| >= 24
    ensures s.Bytes(Wave(cells)) == Preamble(n - 2) + message <==> ElevenThenNine(Levels(cells[15..]))
  {
    BurstOpens(n, message, cells);
    NarrowLevels(cells[15..]);
    BurstFitsIff(s, n, message, cells);
  }

  // ---------------------------------------------------------------- the nominal rate

  // Samples before cell k of a stream at 23.04 samples a bit.
  function At(k: nat, phase: nat): nat {
    (576 * k + phase) / 25
  }

  lemma NominalRest(bits: seq<Bit>, phase: nat)
    requires bits != []
    ensures NominalCells(bits, phase)[1..] == NominalCells(bits[1..], phase + 576)
    ensures NominalCells(bits, phase)[0] == Cell(bits[0], At(1, phase) - At(0, phase))
  {
  }

  // Over m bits the stream advances by 23.04 m samples, rounded.
  predicate AtRate(level: Level) {
    level.count >= 1 && 25 * level.width <= 576 * level.count + 24
  }

  // One more bit ahead of a run.
  lemma AtRateLonger(m: nat, phase: nat)
    requires m >= 1
    ensures (At(1, phase) - At(0, phase)) + (At(m, phase + 576) - At(0, phase + 576)) == At(m + 1, phase) - At(0, phase)
  {
  }

  lemma AtRateRun(level: Level, phase: nat)
    requires level.count >= 1 && level.width == At(level.count, phase) - At(0, phase)
    ensures AtRate(level)
  {
  }

  lemma {:induction false} NominalLevels(bits: seq<Bit>, phase: nat)
    ensures var levels := Levels(NominalCells(bits, phase));
            && (forall i :: 0 <= i < |levels| ==> AtRate(levels[i]))
            && (bits != [] ==> levels[0].width == At(levels[0].count, phase) - At(0, phase))
    decreases |bits|
  {
    if bits != [] {
      NominalRest(bits, phase);
      NominalLevels(bits[1..], phase + 576);
      var cells := NominalCells(bits, phase);
      var levels, rest := Levels(cells), Levels(cells[1..]);
      if rest != [] && rest[0].bit == cells[0].bit {
        AtRateLonger(rest[0].count, phase);
        assert levels[1..] == rest[1..];
      } else {
        assert levels[1..] == rest;
      }
      AtRateRun(levels[0], phase);
      assert forall i :: 1 <= i < |levels| ==> levels[i] == levels[1..][i - 1];
    }
  }

  lemma AtRateNoneToSpare(level: Level)
    requires AtRate(level)
    ensures NoneToSpare(level)
  {
    BitCallIs(level.count + 1);
  }

  lemma {:induction false} NominalTail(bits: seq<Bit>, phase: nat, k: nat)
    requires k <= |bits|
    ensures NominalCells(bits, phase)[k..] == NominalCells(bits[k..], phase + 576 * k)
    decreases k
  {
  }

  /** At the nominal rate, for every message and every phase: the burst is delivered if and only if every
      run of equal bits from the sixteenth cell on lasts past the bit time of its last bit. */
  lemma NominalBurstDeliveredIff(s: Rx, n: nat, message: seq<Byte>, phase: nat)
    requires !s.insync && IdleHistory(s.register) && n >= 3
    ensures var cells := NominalCells(Transmit(Preamble(n) + message), phase);
            |cells| >= 24
            && (s.Bytes(Wave(cells)) == Preamble(n - 2) + message <==> AllFit(Levels(cells[15..])))
  {
    var bits := Transmit(Preamble(n) + message);
    NominalCellsCarry(bits, phase);
    TailBits(n, message, NominalCells(bits, phase));
    NominalTail(bits, phase, 15);
    NominalLevels(bits[15..], phase + 576 * 15);
    var levels := Levels(NominalCells(bits, phase)[15..]);
    forall i | 0 <= i < |levels|
      ensures NoneToSpare(levels[i])
    {
      AtRateNoneToSpare(levels[i]);
    }
    BurstFitsIff(s, n, message, NominalCells(bits, phase));
  }

  lemma TenWide(phase: nat)
    ensures At(10, phase) - At(0, phase) > 230 <==> phase % 25 >= 15
  {
  }

  lemma RemainderOf576(phase: nat)
    ensures (phase + 576) % 25 == (phase + 1) % 25
  {
  }

  // Ten equal bits at the nominal rate.
  lemma TenCells(c: Bit, phase: nat)
    ensures var run := NominalCells(Hold(c, 10), phase);
            |run| == 10 && Clean(run) && (forall i :: 0 <= i < 10 ==> run[i].bit == c)
            && (Width(run) > 230 <==> phase % 25 >= 15)
  {
    var run := NominalCells(Hold(c, 10), phase);
    NominalCellsCarry(Hold(c, 10), phase);
    NominalLevels(Hold(c, 10), phase);
    EqualBits(c, run);
    TenWide(phase);
  }

  /** Ten equal bits after a change, at the nominal rate, come back at ten of the twenty-five phases. */
  lemma TenBitsAtNominalRate(b: Bit, c: Bit, phase: nat)
    requires b != c
    ensures var bits := [b] + Hold(c, 10);
            var cells := NominalCells(bits, phase);
            |Wave(cells)| >= 1 && (Synced(b).Bits(Wave(cells)[1..]) == bits <==> (phase + 1) % 25 >= 15)
  {
    hide Wave, Width, BitCall;
    var bits := [b] + Hold(c, 10);
    var cells := NominalCells(bits, phase);
    assert bits[1..] == Hold(c, 10);
    NominalCellsCarry(bits, phase);
    NominalRest(bits, phase);
    TenCells(c, phase + 576);
    RemainderOf576(phase);
    assert cells[0].Clean();
    assert cells == [cells[0]] + cells[1..];
    WaveAt(cells, 0, 0);
    EqualBitsRecoveredIff(cells[0], c, cells[1..]);
  }
}
