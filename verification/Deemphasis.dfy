/** The de-emphasis filter of codecs.c: one 32-bit state word, fixed-point feedback. */
module Deemphasis {
  import opened Words

  const COEFF00 := 6878
  const COEFF01 := 25889

  // The feedback and the output on unbounded integers.
  function Feedback(state: int, input: int): int {
    input + (state * COEFF01) / 0x8000
  }

  function Scaled(state: int): int {
    (state * COEFF00) / 0x4000 + (state * COEFF00) / 0x8000
  }

  // The same with the source's 32-bit products and sums and 16-bit result.
  function NextState(state: int, input: Sample): int {
    ToInt32(input + ToInt32(state * COEFF01) / 0x8000)
  }

  function Output(state: int): Sample {
    var accum := ToInt32(state * COEFF00);
    ToInt16(accum / 0x4000 + accum / 0x8000)
  }

  class Filter {
    var state: int

    constructor ()
      ensures state == 0
    {
      state := 0;
    }

    method Deemph(input: Sample) returns (out: Sample)
      modifies this
      ensures state == NextState(old(state), input)
      ensures out == Output(state)
    {
      var accum: int := input;
      state := ToInt32(accum + ToInt32(state * COEFF01) / 0x8000);
      accum := ToInt32(state * COEFF00);
      return ToInt16(accum / 0x4000 + accum / 0x8000);
    }
  }

  function StateAfter(state: int, inputs: seq<Sample>): int
    decreases |inputs|
  {
    if inputs == [] then state else NextState(StateAfter(state, inputs[..|inputs| - 1]), inputs[|inputs| - 1])
  }

  // No product, sum or result of this call loses anything.
  predicate StepExact(state: int, input: Sample) {
    && IsInt32(state * COEFF01)
    && IsInt32(Feedback(state, input))
    && IsInt32(Feedback(state, input) * COEFF00)
    && IsInt16(Scaled(Feedback(state, input)))
  }

  /** What one call computes, while nothing is lost: the new state is the input plus 25889 / 32768 of the old
      one, less than one step below it, and the output 20634 / 32768 of the new state, less than two steps
      below it. */
  lemma FilterScale(state: int, input: Sample)
    requires StepExact(state, input)
    ensures var s := NextState(state, input);
            && 0x8000 * (s - input) <= 25889 * state < 0x8000 * (s - input) + 0x8000
            && 0x8000 * Output(s) <= 20634 * s < 0x8000 * Output(s) + 0x1_0000
  {
    var s := NextState(state, input);
    assert s == Feedback(state, input) && Output(s) == Scaled(s);
  }

  // Nothing is lost on any call of a run from power-up.
  predicate RunExact(inputs: seq<Sample>) {
    forall n :: 0 <= n < |inputs| ==> StepExact(StateAfter(0, inputs[..n]), inputs[n])
  }

  predicate Within(bound: nat, inputs: seq<Sample>) {
    forall n :: 0 <= n < |inputs| ==> Abs(inputs[n]) <= bound
  }

  const STATE_LIMIT := 52035

  lemma StepKeepsLimit(state: int, input: Sample)
    requires Abs(state) <= STATE_LIMIT && Abs(input) <= 10923
    ensures StepExact(state, input)
    ensures NextState(state, input) == Feedback(state, input) && Abs(Feedback(state, input)) <= STATE_LIMIT
    ensures Output(Feedback(state, input)) == Scaled(Feedback(state, input))
  {
  }

  /** From any state within the limit, inputs of magnitude at most 10923 keep the state within 52035
      forever. */
  lemma {:induction false} StateStaysWithin(state: int, inputs: seq<Sample>)
    requires Abs(state) <= STATE_LIMIT && Within(10923, inputs)
    ensures Abs(StateAfter(state, inputs)) <= STATE_LIMIT
    decreases |inputs|
  {
    if inputs != [] {
      var n := |inputs| - 1;
      StateStaysWithin(state, inputs[..n]);
      StepKeepsLimit(StateAfter(state, inputs[..n]), inputs[n]);
    }
  }

  // The state under n inputs of -10924.
  function Pushed(n: nat): int {
    if n == 0 then 0 else NextState(Pushed(n - 1), -10924)
  }

  lemma {:induction false} PushedIsRun(n: nat)
    ensures StateAfter(0, seq(n, _ => -10924)) == Pushed(n)
  {
    if n > 0 {
      PushedIsRun(n - 1);
      assert seq(n, _ => -10924)[..n - 1] == seq(n - 1, _ => -10924);
    }
  }

  lemma PushFurther(s: int)
    requires -52037 <= s <= 0
    ensures -52037 <= NextState(s, -10924) <= 0
    ensures NextState(s, -10924) <= -52036 || NextState(s, -10924) <= s - 1
  {
  }

  // The state sinks on every call until it reaches -52036.
  lemma {:induction false} PushedSinks(n: nat)
    ensures -52037 <= Pushed(n) <= 0
    ensures Pushed(n) <= -52036 || Pushed(n) + n <= 0
  {
    if n > 0 {
      PushedSinks(n - 1);
      PushFurther(Pushed(n - 1));
    }
  }

  // From there one more input of -10924 gives an output of -32769.
  lemma OutputTooLow(s: int)
    requires -52037 <= s <= -52036
    ensures Scaled(Feedback(s, -10924)) == -32769 && !StepExact(s, -10924)
  {
  }

  // A run of inputs of -10924 that ends in overflow.
  lemma PushedRunFails(inputs: seq<Sample>)
    requires inputs == seq(52037, _ => -10924)
    ensures Within(10924, inputs) && !RunExact(inputs)
  {
    assert inputs[..52036] == seq(52036, _ => -10924);
    PushedIsRun(52036);
    PushedSinks(52036);
    OutputTooLow(Pushed(52036));
    assert !StepExact(StateAfter(0, inputs[..52036]), inputs[52036]);
  }

  lemma BoundedRunExact(inputs: seq<Sample>)
    requires Within(10923, inputs)
    ensures RunExact(inputs)
  {
    forall n | 0 <= n < |inputs|
      ensures StepExact(StateAfter(0, inputs[..n]), inputs[n])
    {
      StateStaysWithin(0, inputs[..n]);
      StepKeepsLimit(StateAfter(0, inputs[..n]), inputs[n]);
    }
  }

  /** The exact input limit: every run of inputs bounded by `bound` is free of overflow, in all 32-bit
      products and in the 16-bit result, if and only if the bound is at most 10923. */
  lemma DeemphasisExactIff(bound: nat)
    requires bound <= 0x8000
    ensures (forall inputs :: Within(bound, inputs) ==> RunExact(inputs)) <==> bound <= 10923
  {
    if bound <= 10923 {
      forall inputs | Within(bound, inputs)
        ensures RunExact(inputs)
      {
        BoundedRunExact(inputs);
      }
    } else {
      var inputs: seq<Sample> := seq(52037, _ => -10924);
      PushedRunFails(inputs);
      assert Within(bound, inputs);
    }
  }

  // ---------------------------------------------------------------- settling

  // The states that zero input leaves alone.
  predicate Settled(state: int) {
    -4 <= state <= 0
  }

  /** With zero input the magnitude shrinks on every call until the state lies in -4..0, where it stays:
      rounding toward minus infinity leaves a small negative remainder and never a positive one. */
  lemma ZeroInputShrinks(state: int)
    requires Abs(state) <= STATE_LIMIT
    ensures !Settled(state) <==> Abs(NextState(state, 0)) < Abs(state)
    ensures Settled(state) <==> NextState(state, 0) == state
  {
  }

  function Zeros(n: nat): seq<Sample> {
    seq(n, _ => 0)
  }

  /** From any state within the limit, as many zero inputs as its magnitude settle the filter. */
  lemma {:induction false} ZeroInputSettles(state: int, n: nat)
    requires Abs(state) <= STATE_LIMIT
    ensures Abs(StateAfter(state, Zeros(n))) <= STATE_LIMIT
    ensures Settled(StateAfter(state, Zeros(n))) || Abs(StateAfter(state, Zeros(n))) + n <= Abs(state)
    ensures n > Abs(state) ==> Settled(StateAfter(state, Zeros(n)))
    decreases n
  {
    if n > 0 {
      ZeroInputSettles(state, n - 1);
      assert Zeros(n)[..n - 1] == Zeros(n - 1);
      ZeroInputShrinks(StateAfter(state, Zeros(n - 1)));
    }
  }
}
