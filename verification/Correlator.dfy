/** The sync correlator of demod.c: a 368-sample shift register with sixteen taps, one bit time apart. */
module Correlator {
  import opened BitClock
  import opened Framer

  const N_CORR_BITS := BITSPERBYTE * 2
  const CORR_LENGTH := BIT_DIVISOR * N_CORR_BITS

  // What the taps must show, newest first.
  const TAP_PATTERN: seq<Bit> := [1, 0, 1, 0, 1, 0, 1, 1, 1, 0, 1, 0, 1, 0, 1, 1]

  // Contents of the register, newest sample first.
  type Register = c: seq<Bit> | |c| == CORR_LENGTH witness seq(CORR_LENGTH, _ => 0)

  const EMPTY_REGISTER: Register := seq(CORR_LENGTH, _ => 0)

  function Push(c: Register, b: Bit): Register {
    [b] + c[..CORR_LENGTH - 1]
  }

  predicate Detects(c: Register) {
    forall i :: 0 <= i < N_CORR_BITS ==> c[i * BIT_DIVISOR] == TAP_PATTERN[i]
  }

  class SyncDetector {
    const correlator: array<Bit>

    ghost predicate Valid() {
      correlator.Length == CORR_LENGTH
    }

    constructor ()
      ensures Valid() && fresh(correlator) && correlator[..] == EMPTY_REGISTER
    {
      correlator := new Bit[CORR_LENGTH](_ => 0);
      new;
      assert correlator[..] == EMPTY_REGISTER;
    }

    // The first loop: everything moves up one place and the new bit comes in at 0.
    method Shift(databit: Bit)
      requires Valid()
      modifies correlator
      ensures correlator[..] == Push(old(correlator[..]), databit)
    {
      ghost var w := correlator[..];
      var i := CORR_LENGTH - 1;
      while i > 0
        invariant 0 <= i < CORR_LENGTH
        invariant forall k :: 0 <= k <= i ==> correlator[k] == w[k]
        invariant forall k :: i < k < CORR_LENGTH ==> correlator[k] == w[k - 1]
      {
        correlator[i] := correlator[i - 1];
        i := i - 1;
      }
      correlator[0] := databit;
      assert correlator[..] == Push(w, databit);
    }

    method SyncCorrelator(databit: Bit) returns (sync: bool)
      requires Valid()
      modifies correlator
      ensures correlator[..] == Push(old(correlator[..]), databit)
      ensures sync == Detects(correlator[..])
    {
      Shift(databit);
      var i := 0;
      while i < N_CORR_BITS
        invariant 0 <= i <= N_CORR_BITS
        invariant forall k :: 0 <= k < i ==> correlator[k * BIT_DIVISOR] == TAP_PATTERN[k]
      {
        if correlator[i * BIT_DIVISOR] != TAP_PATTERN[i] {
          return false;
        }
        i := i + 1;
      }
      return true;
    }
  }

  // The register after feeding samples w into c.
  function History(c: Register, w: seq<Bit>): Register {
    seq(CORR_LENGTH, k requires 0 <= k < CORR_LENGTH =>
      if k < |w| then w[|w| - 1 - k] else c[k - |w|])
  }

  lemma HistoryPush(c: Register, w: seq<Bit>, b: Bit)
    ensures Push(History(c, w), b) == History(c, w + [b])
  {
  }

  // The sixteen tapped samples, oldest first.
  function TappedBits(c: Register): (t: seq<Bit>)
    ensures |t| == N_CORR_BITS
  {
    seq(N_CORR_BITS, i requires 0 <= i < N_CORR_BITS => c[(15 - i) * BIT_DIVISOR])
  }

  lemma PatternIsSyncTwice(i: nat)
    requires i < N_CORR_BITS
    ensures TAP_PATTERN[i] == (SYNC_BITS + SYNC_BITS)[15 - i]
  {
  }

  lemma DetectsIsEquality(c: Register)
    ensures Detects(c) <==> TappedBits(c) == SYNC_BITS + SYNC_BITS
  {
    var t := TappedBits(c);
    forall i | 0 <= i < N_CORR_BITS
      ensures c[i * BIT_DIVISOR] == t[15 - i] && TAP_PATTERN[i] == (SYNC_BITS + SYNC_BITS)[15 - i]
    {
      PatternIsSyncTwice(i);
    }
    if Detects(c) {
      forall k | 0 <= k < N_CORR_BITS
        ensures t[k] == (SYNC_BITS + SYNC_BITS)[k]
      {
        assert c[(15 - k) * BIT_DIVISOR] == TAP_PATTERN[15 - k];
      }
    }
  }

  /** The taps accept exactly when, read oldest first through the receiver's own byte shifter,
      they spell 0xAB and then 0xAB again. */
  lemma DetectsTwoSyncBytes(c: Register)
    ensures Detects(c) <==> SpellsTwoSyncBytes(TappedBits(c))
  {
    var t := TappedBits(c);
    DetectsIsEquality(c);
    EightIsSync(0, t[..8]);
    EightIsSync(0, t[8..]);
    assert t == t[..8] + t[8..];
    assert (SYNC_BITS + SYNC_BITS)[..8] == SYNC_BITS && (SYNC_BITS + SYNC_BITS)[8..] == SYNC_BITS;
  }

  // The sixteen samples 23 apart that end with the newest of w, oldest first; before w came c.
  function SpacedSamples(c: Register, w: seq<Bit>): (t: seq<Bit>)
    ensures |t| == N_CORR_BITS
  {
    seq(N_CORR_BITS, i requires 0 <= i < N_CORR_BITS =>
      var age := (15 - i) * BIT_DIVISOR;
      if age < |w| then w[|w| - 1 - age] else c[age - |w|])
  }

  // Two bytes of sixteen bits, through the receiver's own shifter.
  predicate SpellsTwoSyncBytes(t: seq<Bit>)
    requires |t| == N_CORR_BITS
  {
    Fold(0, t[..8]) == SYNC_BYTE && Fold(0, t[8..]) == SYNC_BYTE
  }

  /** SyncCorrelator over any run of samples: with the register initially c, the call on the last
      sample b returns TRUE exactly when the samples 23 apart that end with it, folded oldest first
      through the byte shifter, are 0xAB and 0xAB. */
  lemma DetectsByHistory(c: Register, w: seq<Bit>, b: Bit)
    ensures Detects(Push(History(c, w), b)) <==> SpellsTwoSyncBytes(SpacedSamples(c, w + [b]))
  {
    HistoryPush(c, w, b);
    DetectsTwoSyncBytes(History(c, w + [b]));
    assert TappedBits(History(c, w + [b])) == SpacedSamples(c, w + [b]);
  }
}
