/** The mu-law buffer loops of codecs.c: decimation by three, gain, optional de-emphasis, companding. */
module Codecs {
  import opened Words
  import opened G711
  import opened Deemphasis

  // The i-th group of three samples, averaged with C's rounding toward zero.
  function Sum3(buffer: seq<Sample>, i: nat): int
    requires 3 * i + 2 < |buffer|
  {
    var a: int, b: int, c: int := buffer[3 * i], buffer[3 * i + 1], buffer[3 * i + 2];
    a + b + c
  }

  function Mean3(buffer: seq<Sample>, i: nat): (m: int)
    requires 3 * i + 2 < |buffer|
    ensures IsInt16(m)
    ensures Abs(3 * m - Sum3(buffer, i)) <= 2
  {
    DivC(Sum3(buffer, i), 3)
  }

  // What reaches the codec without de-emphasis.
  function Amplified(buffer: seq<Sample>, gain: nat, i: nat): int
    requires 3 * i + 2 < |buffer|
  {
    Mean3(buffer, i) * Power2(gain)
  }

  // m is a third of s, rounded toward zero.
  predicate IsThird(m: int, s: int) {
    Abs(3 * m) <= Abs(s) <= Abs(3 * m) + 2 && (s >= 0 ==> m >= 0) && (s <= 0 ==> m <= 0)
  }

  lemma ThirdUnique(m: int, n: int, s: int)
    requires IsThird(m, s) && IsThird(n, s)
    ensures m == n
  {
  }

  /** The level that is companded: a third of the three samples, rounded toward zero, and doubled as often as
      the gain says. */
  lemma AmplifiedIs(buffer: seq<Sample>, gain: nat, i: nat)
    requires 3 * i + 2 < |buffer|
    ensures var sum := (buffer[3 * i] as int) + (buffer[3 * i + 1] as int) + (buffer[3 * i + 2] as int);
            IsThird(Amplified(buffer, 0, i), sum)
    ensures Amplified(buffer, gain + 1, i) == 2 * Amplified(buffer, gain, i)
  {
  }

  // Where C defines the shift and the companding after it: the level and the level plus the bias fit 32 bits.
  predicate ShiftDefined(buffer: seq<Sample>, gain: nat, i: nat)
    requires 3 * i + 2 < |buffer|
  {
    gain < 32 && Abs(Amplified(buffer, gain, i)) <= 0x7FFF_FFFF - BIAS
  }

  lemma SmallGainDefined(buffer: seq<Sample>, gain: nat, i: nat)
    requires 3 * i + 2 < |buffer| && gain <= 15
    ensures ShiftDefined(buffer, gain, i)
  {
    var m, p := Mean3(buffer, i), Power2(gain);
    PowersOrdered(gain, 15);
    Power2Of15();
    ScaledBound(m, p);
  }

  lemma Power2Of15()
    ensures Power2(15) == 0x8000
  {
    assert Power2(5) == 32 && Power2(10) == 32 * Power2(5) && Power2(15) == 32 * Power2(10);
  }

  lemma ScaledBound(m: int, p: nat)
    requires IsInt16(m) && p <= 0x8000
    ensures Abs(m * p) <= 0x8000 * 0x8000
  {
    assert Abs(m * p) == Abs(m) * p;
    assert Abs(m) * p <= Abs(m) * 0x8000;
  }

  // What reaches the de-emphasis filter: its parameter is 16 bits wide.
  function FilterInputs(buffer: seq<Sample>, gain: nat, n: nat): (x: seq<Sample>)
    requires 3 * n <= |buffer|
    ensures |x| == n
  {
    seq(n, i requires 0 <= i < n => ToInt16(Amplified(buffer, gain, i)))
  }

  // The linear value companded into output byte i, for a filter that starts in `state`.
  function Linear(buffer: seq<Sample>, gain: nat, deemphasis: bool, state: int, i: nat): int
    requires 3 * i + 2 < |buffer|
  {
    if deemphasis then Output(StateAfter(state, FilterInputs(buffer, gain, i + 1))) else Amplified(buffer, gain, i)
  }

  // The first n output bytes, and the state of the filter after them.
  function Encoded(buffer: seq<Sample>, gain: nat, deemphasis: bool, state: int, n: nat): (bytes: seq<Byte>)
    requires 3 * n <= |buffer|
    ensures |bytes| == n
  {
    seq(n, i requires 0 <= i < n => Ulaw(Linear(buffer, gain, deemphasis, state, i)))
  }

  function FilterState(buffer: seq<Sample>, gain: nat, deemphasis: bool, state: int, n: nat): int
    requires 3 * n <= |buffer|
  {
    if deemphasis then StateAfter(state, FilterInputs(buffer, gain, n)) else state
  }

  // The filter state and the byte after one amplified level.
  function OneState(state: int, level: int, deemphasis: bool): int {
    if deemphasis then NextState(state, ToInt16(level)) else state
  }

  function OneByte(state: int, level: int, deemphasis: bool): Byte {
    Ulaw(if deemphasis then Output(state) else level)
  }

  // One more sample through the filter.
  lemma FilterStep(buffer: seq<Sample>, gain: nat, state: int, i: nat)
    requires 3 * i + 2 < |buffer|
    ensures FilterInputs(buffer, gain, i + 1)[..i] == FilterInputs(buffer, gain, i)
    ensures StateAfter(state, FilterInputs(buffer, gain, i + 1))
         == NextState(StateAfter(state, FilterInputs(buffer, gain, i)), ToInt16(Amplified(buffer, gain, i)))
  {
  }

  // The body of the loop from the amplified level on.
  method EncodeOne(filter: Filter, level: int, deemphasis: bool) returns (code: Byte)
    modifies filter
    ensures filter.state == OneState(old(filter.state), level, deemphasis)
    ensures code == OneByte(filter.state, level, deemphasis)
  {
    if deemphasis {
      var y := filter.Deemph(ToInt16(level));
      code := Linear2Ulaw(y);
    } else {
      code := Linear2Ulaw(level);
    }
  }

  // Group i: the body of the loop, with the filter where the groups before it left it.
  method EncodeGroup(filter: Filter, buffer: seq<Sample>, gain: nat, deemphasis: bool, ghost state: int, i: nat)
      returns (code: Byte)
    requires 3 * i + 2 < |buffer|
    requires filter.state == FilterState(buffer, gain, deemphasis, state, i)
    modifies filter
    ensures filter.state == FilterState(buffer, gain, deemphasis, state, i + 1)
    ensures code == Ulaw(Linear(buffer, gain, deemphasis, state, i))
  {
    var decimSample: int := buffer[3 * i];
    decimSample := decimSample + buffer[3 * i + 1];
    decimSample := decimSample + buffer[3 * i + 2];
    MaskRoundTrip(Mean3(buffer, i));
    var level := ToInt16(DivC(decimSample, 3) % 0x1_0000) * Power2(gain);
    assert level == Amplified(buffer, gain, i);
    FilterStep(buffer, gain, state, i);
    code := EncodeOne(filter, level, deemphasis);
  }

  method G711uLawEncode(filter: Filter, buffer: seq<Sample>, outbuf: array<Byte>, len: nat, gain: nat, deemphasis: bool)
      returns (newlen: nat)
    requires len <= |buffer| && len / 3 <= outbuf.Length
    requires forall i :: 0 <= i < len / 3 ==> ShiftDefined(buffer, gain, i)
    modifies filter, outbuf
    ensures newlen == len / 3
    ensures outbuf[..] == Encoded(buffer, gain, deemphasis, old(filter.state), newlen) + old(outbuf[newlen..])
    ensures filter.state == FilterState(buffer, gain, deemphasis, old(filter.state), newlen)
  {
    hide Ulaw, Linear;
    newlen := len / 3;
    ghost var state := filter.state;
    ghost var bytes := Encoded(buffer, gain, deemphasis, state, newlen);
    var i := 0;
    while i < newlen
      invariant 0 <= i <= newlen
      invariant forall k :: 0 <= k < i ==> outbuf[k] == bytes[k]
      invariant forall k :: i <= k < outbuf.Length ==> outbuf[k] == old(outbuf[k])
      invariant filter.state == FilterState(buffer, gain, deemphasis, state, i)
    {
      outbuf[i] := EncodeGroup(filter, buffer, gain, deemphasis, state, i);
      i := i + 1;
    }
  }

  method G711uLawDecode(inbuf: seq<Byte>, outbuf: array<Sample>, len: nat)
    requires len <= |inbuf| && len <= outbuf.Length
    modifies outbuf
    ensures forall i :: 0 <= i < len ==> outbuf[i] == UlawValue(inbuf[i])
    ensures outbuf[len..] == old(outbuf[len..])
  {
    var i := 0;
    while i < len
      invariant 0 <= i <= len
      invariant forall k :: 0 <= k < i ==> outbuf[k] == UlawValue(inbuf[k])
      invariant outbuf[len..] == old(outbuf[len..])
    {
      var v := Ulaw2Linear(inbuf[i]);
      DecodedFits16(inbuf[i]);
      outbuf[i] := ToInt16(v);
      i := i + 1;
    }
  }

  lemma DecodedFits16(b: Byte)
    ensures Abs(UlawValue(b)) <= 32124
  {
    UExpandRange(Index(b, 0xFF));
  }

  lemma UExpandRange(u: nat)
    ensures 0 <= UExpand(u) <= 32124
  {
    var q, seg := u % 16, u / 16 % 8;
    PowersOrdered(0, seg);
    PowersOrdered(seg, 7);
    assert Power2(7) == 8 * Power2(4) && Power2(4) == 8 * Power2(1);
    UScaled(q, Power2(seg));
    EighthsOf(Power2(seg), 16 + q);
  }

  // d is v after companding: within 1/32 (plus 132/32) of it up to the clipping level, beyond it at
  // full scale with the right sign.
  predicate Faithful(d: int, v: int) {
    if Abs(v) <= 32635 then 32 * Abs(d - v) <= Abs(v) + 132 else d == if v < 0 then -32124 else 32124
  }

  /** Encoding and decoding a buffer without de-emphasis: for every buffer and gain, every output byte
      decodes to the amplified mean of its three samples, up to the mu-law error. */
  lemma EncodedAudioFaithful(buffer: seq<Sample>, gain: nat, state: int, n: nat)
    requires 3 * n <= |buffer|
    ensures var bytes := Encoded(buffer, gain, false, state, n);
            forall i :: 0 <= i < n ==> Faithful(UlawValue(bytes[i]), Amplified(buffer, gain, i))
  {
    forall i | 0 <= i < n
      ensures Faithful(UlawValue(Encoded(buffer, gain, false, state, n)[i]), Amplified(buffer, gain, i))
    {
      UlawError(Amplified(buffer, gain, i));
    }
  }

  /** The same on the samples: with m a third of the three, rounded toward zero, the byte decodes to m times
      2^gain, up to the mu-law error. */
  lemma EncodedSamplesFaithful(buffer: seq<Sample>, gain: nat, state: int, n: nat, i: nat, m: int)
    requires 3 * n <= |buffer| && i < n
    requires var a: int, b: int, c: int := buffer[3 * i], buffer[3 * i + 1], buffer[3 * i + 2];
             && Abs(3 * m) <= Abs(a + b + c) <= Abs(3 * m) + 2
             && (a + b + c >= 0 ==> m >= 0) && (a + b + c <= 0 ==> m <= 0)
    ensures Faithful(UlawValue(Encoded(buffer, gain, false, state, n)[i]), m * Power2(gain))
  {
    AmplifiedIs(buffer, 0, i);
    ThirdUnique(m, Mean3(buffer, i), Sum3(buffer, i));
    hide Ulaw, UlawValue, Faithful, Power2, Mean3;
    EncodedAudioFaithful(buffer, gain, state, n);
  }

  // The filter's output for group i, computed on unbounded integers.
  function ExactOutput(buffer: seq<Sample>, gain: nat, state: int, i: nat): int
    requires 3 * i + 2 < |buffer|
  {
    Scaled(Feedback(StateAfter(state, FilterInputs(buffer, gain, i)), Amplified(buffer, gain, i)))
  }

  /** With de-emphasis, from any state within the limit, amplified levels of at most 10923 keep the
      filter exact: every byte decodes to the unwrapped filter output, up to the mu-law error. */
  lemma DeemphasizedAudioFaithful(buffer: seq<Sample>, gain: nat, state: int, n: nat)
    requires 3 * n <= |buffer| && Abs(state) <= STATE_LIMIT
    requires forall k :: 0 <= k < n ==> Abs(Amplified(buffer, gain, k)) <= 10923
    ensures var bytes := Encoded(buffer, gain, true, state, n);
            forall i :: 0 <= i < n ==> Faithful(UlawValue(bytes[i]), ExactOutput(buffer, gain, state, i))
    ensures Abs(FilterState(buffer, gain, true, state, n)) <= STATE_LIMIT
  {
    StateStaysWithin(state, FilterInputs(buffer, gain, n));
    forall i | 0 <= i < n
      ensures Faithful(UlawValue(Encoded(buffer, gain, true, state, n)[i]), ExactOutput(buffer, gain, state, i))
    {
      FilteredByte(buffer, gain, state, i);
    }
  }

  lemma FilteredByte(buffer: seq<Sample>, gain: nat, state: int, i: nat)
    requires 3 * i + 2 < |buffer| && Abs(state) <= STATE_LIMIT
    requires forall k :: 0 <= k <= i ==> Abs(Amplified(buffer, gain, k)) <= 10923
    ensures Faithful(UlawValue(Ulaw(Linear(buffer, gain, true, state, i))), ExactOutput(buffer, gain, state, i))
  {
    FilterStep(buffer, gain, state, i);
    StateStaysWithin(state, FilterInputs(buffer, gain, i));
    FilteredError(StateAfter(state, FilterInputs(buffer, gain, i)), Amplified(buffer, gain, i));
  }

  lemma FilteredError(before: int, level: int)
    requires Abs(before) <= STATE_LIMIT && Abs(level) <= 10923
    ensures Faithful(UlawValue(Ulaw(Output(NextState(before, ToInt16(level))))), Scaled(Feedback(before, level)))
  {
    StepKeepsLimit(before, level);
    UlawError(Scaled(Feedback(before, level)));
  }
}
