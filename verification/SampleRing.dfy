/** The 4096-sample ring of FSKdsp.c: DSPDemod halves the sample rate and publishes whole batches. */
module SampleRing {
  import opened Words
  import opened RingProtocol

  const SAMPLE_BFRSIZ := 4096

  function Mean2(a: Sample, b: Sample): Sample {
    (a + b) / 2
  }

  // The masks of the source do not disturb the mean.
  lemma MaskedMean(a: Sample, b: Sample)
    ensures ToInt16(ToInt16((b + a) / 2) % 0x1_0000) == Mean2(a, b)
  {
    MaskRoundTrip(Mean2(a, b));
  }

  // Pairs of samples averaged, rounding down; a sample left over is dropped.
  function Decimate(x: seq<Sample>): seq<Sample> {
    seq(|x| / 2, k requires 0 <= k < |x| / 2 => Mean2(x[2 * k], x[2 * k + 1]))
  }

  // d is the mean of a and b, rounded down.
  predicate IsMean(d: int, a: int, b: int) {
    2 * d <= a + b <= 2 * d + 1
  }

  lemma DecimateMeans(x: seq<Sample>, k: nat)
    requires 2 * k + 1 < |x|
    ensures k < |Decimate(x)| && IsMean(Decimate(x)[k], x[2 * k], x[2 * k + 1])
  {
  }

  // Up to a whole ring of them, every mean is found in its slot.
  lemma MeansStored(buffer: seq<Sample>, wrptr: nat, x: seq<Sample>)
    requires |buffer| == SAMPLE_BFRSIZ && |x| / 2 <= SAMPLE_BFRSIZ
    ensures forall k :: 0 <= k < |x| / 2 ==>
              IsMean(Stored(SAMPLE_BFRSIZ, buffer, wrptr, Decimate(x), |Decimate(x)|)[(wrptr + k) % SAMPLE_BFRSIZ],
                     x[2 * k], x[2 * k + 1])
  {
    forall k | 0 <= k < |x| / 2
      ensures IsMean(Stored(SAMPLE_BFRSIZ, buffer, wrptr, Decimate(x), |Decimate(x)|)[(wrptr + k) % SAMPLE_BFRSIZ],
                     x[2 * k], x[2 * k + 1])
    {
      StoredAt(SAMPLE_BFRSIZ, buffer, wrptr, Decimate(x), |Decimate(x)|, k);
      DecimateMeans(x, k);
    }
  }

  class SampleBuffer {
    const buffer: array<Sample>
    var wrptr: nat
    var rdptr: nat

    ghost predicate Valid()
      reads this
    {
      buffer.Length == SAMPLE_BFRSIZ && wrptr < SAMPLE_BFRSIZ && rdptr < SAMPLE_BFRSIZ
    }

    ghost function Model(): Ring<Sample>
      reads this, buffer
    {
      Ring(buffer[..], wrptr, rdptr)
    }

    constructor ()
      ensures Valid() && fresh(buffer) && buffer.Length == 4096
      ensures wrptr == 0 && rdptr == 0
    {
      buffer := new Sample[SAMPLE_BFRSIZ](_ => 0);
      wrptr, rdptr := 0, 0;
    }

    // Everything DSPDemod does inside the mutex.
    method DSPDemod(pipeBuffer: seq<Sample>)
      requires Valid()
      modifies this`wrptr, buffer
      ensures Valid()
      ensures Model() == PutAll(SAMPLE_BFRSIZ, old(Model()), Decimate(pipeBuffer))
      ensures |pipeBuffer| / 2 <= 4096 ==>
                forall k :: 0 <= k < |pipeBuffer| / 2 ==>
                  var d: int, a: int, b: int :=
                    buffer[(old(wrptr) + k) % 4096], pipeBuffer[2 * k], pipeBuffer[2 * k + 1];
                  2 * d <= a + b <= 2 * d + 1
    {
      hide ToInt16, Mean2, Stored;
      StoredNone(SAMPLE_BFRSIZ, buffer[..], wrptr, Decimate(pipeBuffer));
      ghost var wrptr0 := wrptr;
      var wr := wrptr;
      var samplez1: int := 0;
      ghost var out, n := Decimate(pipeBuffer), 0;
      var i := 0;
      while i < |pipeBuffer|
        invariant 0 <= i <= |pipeBuffer| && n == i / 2
        invariant i > 0 ==> samplez1 == pipeBuffer[i - 1]
        invariant wr == (wrptr + n) % SAMPLE_BFRSIZ
        invariant buffer[..] == Stored(SAMPLE_BFRSIZ, old(buffer[..]), wrptr, out, n)
        invariant wrptr == old(wrptr) && rdptr == old(rdptr)
      {
        var sample: int := pipeBuffer[i];
        var sum := sample + samplez1;
        if i % 2 == 1 {
          MaskedMean(samplez1, sample);
          StoredNext(SAMPLE_BFRSIZ, old(buffer[..]), wrptr, out, n);
          assert out[n] == Mean2(samplez1, sample);
          buffer[wr] := ToInt16(ToInt16(sum / 2) % 0x1_0000);
          SlotAdvance(wrptr + n, 1, SAMPLE_BFRSIZ);
          n := n + 1;
          wr := (wr + 1) % SAMPLE_BFRSIZ;
        }
        samplez1 := sample;
        i := i + 1;
      }
      wrptr := wr;
      if |pipeBuffer| / 2 <= 4096 {
        MeansStored(old(buffer[..]), wrptr0, pipeBuffer);
      }
    }

    // The thread's read, outside the mutex.
    method NextSample() returns (sample: Sample)
      requires Valid()
      modifies this`rdptr
      ensures Valid()
      ensures sample == old(buffer[rdptr]) && Model() == Taken(SAMPLE_BFRSIZ, old(Model()))
    {
      sample := buffer[rdptr];
      rdptr := (rdptr + 1) % SAMPLE_BFRSIZ;
    }
  }

  // ---------------------------------------------------------------- chunking

  function Concat<T>(calls: seq<seq<T>>): seq<T>
    decreases |calls|
  {
    if calls == [] then [] else calls[0] + Concat(calls[1..])
  }

  function DecimateEach(calls: seq<seq<Sample>>): seq<seq<Sample>> {
    seq(|calls|, i requires 0 <= i < |calls| => Decimate(calls[i]))
  }

  lemma DecimateAppend(a: seq<Sample>, b: seq<Sample>)
    requires |a| % 2 == 0
    ensures Decimate(a + b) == Decimate(a) + Decimate(b)
  {
  }

  function Lengths(calls: seq<seq<Sample>>): seq<nat> {
    seq(|calls|, i requires 0 <= i < |calls| => |calls[i]|)
  }

  // No samples come after a call of odd length: every call before the last non-empty one is even.
  predicate OddOnlyLast(lens: seq<nat>) {
    forall i, j :: 0 <= i < j < |lens| && lens[i] % 2 == 1 ==> lens[j] == 0
  }

  lemma {:induction false} ConcatOfEmpty<T>(calls: seq<seq<T>>)
    requires forall i :: 0 <= i < |calls| ==> calls[i] == []
    ensures Concat(calls) == []
    decreases |calls|
  {
    if calls != [] {
      ConcatOfEmpty(calls[1..]);
    }
  }

  /** Where no samples come after an odd call, how the audio was cut into calls does not matter. */
  lemma {:induction false} ChunkingIrrelevant(calls: seq<seq<Sample>>)
    requires OddOnlyLast(Lengths(calls))
    ensures Concat(DecimateEach(calls)) == Decimate(Concat(calls))
    decreases |calls|
  {
    if calls != [] {
      var rest := calls[1..];
      assert DecimateEach(calls)[1..] == DecimateEach(rest);
      if |calls[0]| % 2 == 0 {
        assert Lengths(rest) == Lengths(calls)[1..];
        ChunkingIrrelevant(rest);
        DecimateAppend(calls[0], Concat(rest));
      } else {
        forall i | 0 <= i < |rest|
          ensures rest[i] == []
        {
          assert Lengths(calls)[0] % 2 == 1 && |rest[i]| == Lengths(calls)[i + 1];
        }
        ConcatOfEmpty(rest);
        ConcatOfEmpty(DecimateEach(rest));
      }
    }
  }

  // ---------------------------------------------------------------- where chunking matters

  function Silent(n: nat): seq<Sample> {
    seq(n, _ => 0)
  }

  function SilentCalls(lens: seq<nat>): seq<seq<Sample>> {
    seq(|lens|, i requires 0 <= i < |lens| => Silent(lens[i]))
  }

  function Total(lens: seq<nat>): nat
    decreases |lens|
  {
    if lens == [] then 0 else lens[0] + Total(lens[1..])
  }

  lemma {:induction false} SilentConcat(lens: seq<nat>)
    ensures Concat(SilentCalls(lens)) == Silent(Total(lens))
    decreases |lens|
  {
    if lens != [] {
      SilentConcat(lens[1..]);
      assert SilentCalls(lens)[1..] == SilentCalls(lens[1..]);
    }
  }

  lemma {:induction false} TotalPositive(lens: seq<nat>, j: nat)
    requires j < |lens|
    ensures Total(lens) >= lens[j]
    decreases |lens|
  {
    if j > 0 {
      TotalPositive(lens[1..], j - 1);
    }
  }

  // Silent calls but for a 2 at the end of the first odd one: its pair is lost.
  function LosingCalls(lens: seq<nat>): (calls: seq<seq<Sample>>)
    requires !OddOnlyLast(lens)
    ensures Lengths(calls) == lens
    decreases |lens|
  {
    if lens[0] % 2 == 1 then [Silent(lens[0] - 1) + [2]] + SilentCalls(lens[1..])
    else
      assert !OddOnlyLast(lens[1..]) by { ViolationLater(lens); }
      [Silent(lens[0])] + LosingCalls(lens[1..])
  }

  lemma ViolationLater(lens: seq<nat>)
    requires !OddOnlyLast(lens) && lens[0] % 2 == 0
    ensures !OddOnlyLast(lens[1..])
  {
    var i, j :| 0 <= i < j < |lens| && lens[i] % 2 == 1 && lens[j] != 0;
    assert lens[1..][i - 1] == lens[i] && lens[1..][j - 1] == lens[j];
  }

  // A first odd call with samples after it.
  lemma OddCallLoses(n: nat, lens: seq<nat>)
    requires n % 2 == 1 && Total(lens) > 0
    ensures var calls := [Silent(n - 1) + [2]] + SilentCalls(lens);
            Concat(DecimateEach(calls)) != Decimate(Concat(calls))
  {
    var head := Silent(n - 1) + [2];
    var calls := [head] + SilentCalls(lens);
    assert calls[1..] == SilentCalls(lens);
    SilentConcat(lens);
    var whole := Decimate(Concat(calls));
    assert Concat(calls)[n - 1] == 2 && Concat(calls)[n] == 0;
    assert whole[(n - 1) / 2] == Mean2(2, 0) == 1;
    OnlySilence(calls);
  }

  // The decimated calls hold nothing but zeros.
  lemma {:induction false} OnlySilence(calls: seq<seq<Sample>>)
    requires forall i, k :: 0 <= i < |calls| && 0 <= k < |Decimate(calls[i])| ==> Decimate(calls[i])[k] == 0
    ensures forall k :: 0 <= k < |Concat(DecimateEach(calls))| ==> Concat(DecimateEach(calls))[k] == 0
    decreases |calls|
  {
    if calls != [] {
      OnlySilence(calls[1..]);
      assert DecimateEach(calls)[1..] == DecimateEach(calls[1..]);
    }
  }

  // An even call ahead changes nothing.
  lemma EvenCallAhead(head: seq<Sample>, rest: seq<seq<Sample>>)
    requires |head| % 2 == 0
    ensures Concat(DecimateEach([head] + rest)) == Decimate(Concat([head] + rest))
       <==> Concat(DecimateEach(rest)) == Decimate(Concat(rest))
  {
    var calls, out, x := [head] + rest, Concat(DecimateEach(rest)), Concat(rest);
    assert calls[1..] == rest && DecimateEach(calls)[1..] == DecimateEach(rest);
    DecimateAppend(head, x);
    assert (Decimate(head) + out)[|Decimate(head)|..] == out;
    assert (Decimate(head) + Decimate(x))[|Decimate(head)|..] == Decimate(x);
  }

  lemma SamplesAfter(lens: seq<nat>)
    requires !OddOnlyLast(lens)
    ensures Total(lens[1..]) > 0
  {
    var i, j :| 0 <= i < j < |lens| && lens[i] % 2 == 1 && lens[j] != 0;
    TotalPositive(lens[1..], j - 1);
  }

  lemma {:induction false} LosingCallsLose(lens: seq<nat>)
    requires !OddOnlyLast(lens)
    ensures Concat(DecimateEach(LosingCalls(lens))) != Decimate(Concat(LosingCalls(lens)))
    decreases |lens|
  {
    if lens[0] % 2 == 1 {
      SamplesAfter(lens);
      OddCallLoses(lens[0], lens[1..]);
    } else {
      ViolationLater(lens);
      LosingCallsLose(lens[1..]);
      EvenCallAhead(Silent(lens[0]), LosingCalls(lens[1..]));
    }
  }

  /** Exactly when chunking does not matter: calls of the given lengths always write the decimation of
      their concatenation if and only if no samples come after a call of odd length. */
  lemma ChunkingIrrelevantIff(lens: seq<nat>)
    ensures (forall calls :: Lengths(calls) == lens ==> Concat(DecimateEach(calls)) == Decimate(Concat(calls)))
       <==> OddOnlyLast(lens)
  {
    if OddOnlyLast(lens) {
      forall calls | Lengths(calls) == lens
        ensures Concat(DecimateEach(calls)) == Decimate(Concat(calls))
      {
        ChunkingIrrelevant(calls);
      }
    } else {
      LosingCallsLose(lens);
      assert Lengths(LosingCalls(lens)) == lens;
    }
  }

  // ---------------------------------------------------------------- through the ring

  /** DSPDemod signals whatever it wrote: the thread woken by a call finds a sample exactly when the
      call brought at least two. */
  lemma WokenFindsSampleIff(s: System<Sample>, call: seq<Sample>)
    requires Inv(SAMPLE_BFRSIZ, s) && s.consumer.Blocked? && s.producer.Away?
    ensures var t := PutUpToSignal(SAMPLE_BFRSIZ, Do(SAMPLE_BFRSIZ, s, Lock(Decimate(call))), Decimate(call), 0);
            t.consumer.Woken? && (Unread(t) > 0 <==> |call| >= 2)
  {
  }

  // The batches of a run, in the order the producer takes the mutex.
  function Batches<T>(actions: seq<Action<T>>): seq<seq<T>>
    decreases |actions|
  {
    if actions == [] then []
    else (if actions[0].Lock? then [actions[0].items] else []) + Batches(actions[1..])
  }

  lemma {:induction false} HandedIsBatches<T>(actions: seq<Action<T>>)
    ensures Handed(actions) == Concat(Batches(actions))
    decreases |actions|
  {
    if actions != [] {
      HandedIsBatches(actions[1..]);
      if actions[0].Lock? {
        assert Batches(actions)[1..] == Batches(actions[1..]);
      } else {
        assert Batches(actions) == Batches(actions[1..]);
      }
    }
  }

  /** The thread sees the decimated audio: over every interleaving whose batches come from DSPDemod calls
      with no samples after an odd one, what it has read is a beginning of the decimation of all the
      audio: item after item the mean of the next two samples, rounded down. */
  lemma ThreadSeesDecimatedAudio(buffer: seq<Sample>, calls: seq<seq<Sample>>, actions: seq<Action<Sample>>)
    requires |buffer| == SAMPLE_BFRSIZ
    requires Runs(SAMPLE_BFRSIZ, Initial(SAMPLE_BFRSIZ, buffer), actions)
    requires OddOnlyLast(Lengths(calls))
    requires Batches(actions) == DecimateEach(calls)
    ensures var t := Final(SAMPLE_BFRSIZ, Initial(SAMPLE_BFRSIZ, buffer), actions);
            t.got <= Decimate(Concat(calls))
            && (t.producer.Away? && Unread(t) == 0 ==> t.got == Decimate(Concat(calls)))
    ensures var t, x := Final(SAMPLE_BFRSIZ, Initial(SAMPLE_BFRSIZ, buffer), actions), Concat(calls);
            && 2 * |t.got| <= |x| && (t.producer.Away? && Unread(t) == 0 ==> |t.got| == |x| / 2)
            && forall k :: 0 <= k < |t.got| ==>
                 var d: int, a: int, b: int := t.got[k], x[2 * k], x[2 * k + 1];
                 2 * d <= a + b <= 2 * d + 1
  {
    RunIsFifo(SAMPLE_BFRSIZ, buffer, actions);
    HandedIsBatches(actions);
    ChunkingIrrelevant(calls);
    PrefixMeans(Final(SAMPLE_BFRSIZ, Initial(SAMPLE_BFRSIZ, buffer), actions).got, Concat(calls));
  }

  lemma PrefixMeans(got: seq<Sample>, x: seq<Sample>)
    requires got <= Decimate(x)
    ensures 2 * |got| <= |x| && forall k :: 0 <= k < |got| ==> IsMean(got[k], x[2 * k], x[2 * k + 1])
  {
    forall k | 0 <= k < |got|
      ensures IsMean(got[k], x[2 * k], x[2 * k + 1])
    {
      DecimateMeans(x, k);
    }
  }
}
