/** What the low-pass filter of fir.c does to signals: its impulse response, its gain at zero frequency and
    its stop band. At 12 kHz, periods of 2, 3, 4 and 6 samples are 6, 4, 3 and 2 kHz. */
module FilterResponse {
  import opened Words
  import opened FirFilter

  // ---------------------------------------------------------------- impulse response

  // The 16-bit words of the coefficient table, as the source writes them.
  const WORDS_0: seq<nat> := [0x0018, 0x0055, 0x0097, 0x00D0, 0x00EC, 0x00D9, 0x008A, 0x0000, 0xFF45]
  const WORDS_1: seq<nat> := [0xFE75, 0xFDB7, 0xFD3D, 0xFD37, 0xFDCD, 0xFF17, 0x0114, 0x03AC, 0x06AA]
  const WORDS_2: seq<nat> := [0x09C4, 0x0CA7, 0x0F00, 0x1088, 0x1110, 0x1088, 0x0F00, 0x0CA7, 0x09C4]
  const WORDS_3: seq<nat> := [0x06AA, 0x03AC, 0x0114, 0xFF17, 0xFDCD, 0xFD37, 0xFD3D, 0xFDB7, 0xFE75]
  const WORDS_4: seq<nat> := [0xFF45, 0x0000, 0x008A, 0x00D9, 0x00EC, 0x00D0, 0x0097, 0x0055, 0x0018]
  const TABLE_WORDS: seq<nat> := WORDS_0 + WORDS_1 + WORDS_2 + WORDS_3 + WORDS_4

  // A single sample a, k samples ago.
  function Impulse(a: int, k: nat): Window
    requires k < N_FIR_TAPS
  {
    seq(N_FIR_TAPS, i => if i == k then a else 0)
  }

  lemma {:induction false} MacOfImpulse(h: Coefficients, a: int, k: nat, n: nat)
    requires k < N_FIR_TAPS && n <= N_FIR_TAPS
    ensures Mac(h, Impulse(a, k), n) == if n > k then a * h[k] else 0
    decreases n
  {
    if n > 0 {
      MacOfImpulse(h, a, k, n - 1);
    }
  }

  /** The impulse response is the table: a sample a read k samples later comes out as the k-th word of the
      table, read as a signed 16-bit number, times a over 2^16. */
  lemma ImpulseResponse(a: int, k: nat)
    requires k < N_FIR_TAPS
    ensures Filter(Impulse(a, k)) == a * ToInt16(TABLE_WORDS[k]) / 0x1_0000
  {
    MacOfImpulse(FIR_COEFFS, a, k, N_FIR_TAPS);
    TapIsWord(k);
  }

  predicate ReadAs(row: seq<Sample>, words: seq<nat>) {
    |row| == |words| && forall j :: 0 <= j < |row| ==> row[j] == ToInt16(words[j])
  }

  lemma RowWords0()
    ensures ReadAs(ROW_0, WORDS_0)
  {
  }

  lemma RowWords1()
    ensures ReadAs(ROW_1, WORDS_1)
  {
  }

  lemma RowWords2()
    ensures ReadAs(ROW_2, WORDS_2)
  {
  }

  lemma RowWords3()
    ensures ReadAs(ROW_3, WORDS_3)
  {
  }

  lemma RowWords4()
    ensures ReadAs(ROW_4, WORDS_4)
  {
  }

  lemma TapIsWord(k: nat)
    requires k < N_FIR_TAPS
    ensures FIR_COEFFS[k] == ToInt16(TABLE_WORDS[k])
  {
    hide ToInt16;
    RowWords0();
    RowWords1();
    RowWords2();
    RowWords3();
    RowWords4();
  }

  /** It rises strictly to its middle, where most of its weight lies, and by symmetry falls after it. */
  lemma ImpulseResponseRises(a: nat, k: nat)
    requires a > 0 && 12 <= k < 22
    ensures Mac(FIR_COEFFS, Impulse(a, k), N_FIR_TAPS) < Mac(FIR_COEFFS, Impulse(a, k + 1), N_FIR_TAPS)
    ensures Mac(FIR_COEFFS, Impulse(a, k), N_FIR_TAPS) == Mac(FIR_COEFFS, Impulse(a, 44 - k), N_FIR_TAPS)
  {
    MacOfImpulse(FIR_COEFFS, a, k, N_FIR_TAPS);
    MacOfImpulse(FIR_COEFFS, a, k + 1, N_FIR_TAPS);
    MacOfImpulse(FIR_COEFFS, a, 44 - k, N_FIR_TAPS);
    TapsRise(k);
    Scaled(a, FIR_COEFFS[k], FIR_COEFFS[k + 1]);
  }

  lemma TapsRise(k: nat)
    requires 12 <= k < 22
    ensures FIR_COEFFS[k] < FIR_COEFFS[k + 1] && FIR_COEFFS[k] == FIR_COEFFS[44 - k]
  {
  }

  lemma Scaled(a: nat, b: int, c: int)
    requires a > 0 && b < c
    ensures a * b < a * c
  {
  }

  // ---------------------------------------------------------------- periodic signals

  lemma ThreeTaps(h: Coefficients, w: Window, n: nat)
    requires n + 3 <= N_FIR_TAPS
    ensures Mac(h, w, n + 3) == Mac(h, w, n) + w[n] * h[n] + w[n + 1] * h[n + 1] + w[n + 2] * h[n + 2]
  {
    assert Mac(h, w, n + 1) == Mac(h, w, n) + w[n] * h[n];
    assert Mac(h, w, n + 2) == Mac(h, w, n + 1) + w[n + 1] * h[n + 1];
  }

  lemma NineTaps(h: Coefficients, w: Window, n: nat)
    requires n + 9 <= N_FIR_TAPS
    ensures Mac(h, w, n + 9) == Mac(h, w, n)
          + w[n] * h[n] + w[n + 1] * h[n + 1] + w[n + 2] * h[n + 2] + w[n + 3] * h[n + 3] + w[n + 4] * h[n + 4]
          + w[n + 5] * h[n + 5] + w[n + 6] * h[n + 6] + w[n + 7] * h[n + 7] + w[n + 8] * h[n + 8]
  {
    ThreeTaps(h, w, n);
    ThreeTaps(h, w, n + 3);
    ThreeTaps(h, w, n + 6);
  }

  lemma Row0(w: Window)
    ensures Mac(FIR_COEFFS, w, 9) == Mac(FIR_COEFFS, w, 0)
          + 24 * w[0] + 85 * w[1] + 151 * w[2] + 208 * w[3] + 236 * w[4]
          + 217 * w[5] + 138 * w[6] + 0 * w[7] + -187 * w[8]
  {
    assert FIR_COEFFS[0] == 24 && FIR_COEFFS[1] == 85 && FIR_COEFFS[2] == 151 && FIR_COEFFS[3] == 208
        && FIR_COEFFS[4] == 236;
    assert FIR_COEFFS[5] == 217 && FIR_COEFFS[6] == 138 && FIR_COEFFS[7] == 0 && FIR_COEFFS[8] == -187;
    NineTaps(FIR_COEFFS, w, 0);
  }

  lemma Row1(w: Window)
    ensures Mac(FIR_COEFFS, w, 18) == Mac(FIR_COEFFS, w, 9)
          + -395 * w[9] + -585 * w[10] + -707 * w[11] + -713 * w[12] + -563 * w[13]
          + -233 * w[14] + 276 * w[15] + 940 * w[16] + 1706 * w[17]
  {
    assert FIR_COEFFS[9] == -395 && FIR_COEFFS[10] == -585 && FIR_COEFFS[11] == -707 && FIR_COEFFS[12] == -713
        && FIR_COEFFS[13] == -563;
    assert FIR_COEFFS[14] == -233 && FIR_COEFFS[15] == 276 && FIR_COEFFS[16] == 940 && FIR_COEFFS[17] == 1706;
    NineTaps(FIR_COEFFS, w, 9);
  }

  lemma Row2(w: Window)
    ensures Mac(FIR_COEFFS, w, 27) == Mac(FIR_COEFFS, w, 18)
          + 2500 * w[18] + 3239 * w[19] + 3840 * w[20] + 4232 * w[21] + 4368 * w[22]
          + 4232 * w[23] + 3840 * w[24] + 3239 * w[25] + 2500 * w[26]
  {
    assert FIR_COEFFS[18] == 2500 && FIR_COEFFS[19] == 3239 && FIR_COEFFS[20] == 3840 && FIR_COEFFS[21] == 4232
        && FIR_COEFFS[22] == 4368;
    assert FIR_COEFFS[23] == 4232 && FIR_COEFFS[24] == 3840 && FIR_COEFFS[25] == 3239 && FIR_COEFFS[26] == 2500;
    NineTaps(FIR_COEFFS, w, 18);
  }

  lemma Row3(w: Window)
    ensures Mac(FIR_COEFFS, w, 36) == Mac(FIR_COEFFS, w, 27)
          + 1706 * w[27] + 940 * w[28] + 276 * w[29] + -233 * w[30] + -563 * w[31]
          + -713 * w[32] + -707 * w[33] + -585 * w[34] + -395 * w[35]
  {
    assert FIR_COEFFS[27] == 1706 && FIR_COEFFS[28] == 940 && FIR_COEFFS[29] == 276 && FIR_COEFFS[30] == -233
        && FIR_COEFFS[31] == -563;
    assert FIR_COEFFS[32] == -713 && FIR_COEFFS[33] == -707 && FIR_COEFFS[34] == -585 && FIR_COEFFS[35] == -395;
    NineTaps(FIR_COEFFS, w, 27);
  }

  lemma Row4(w: Window)
    ensures Mac(FIR_COEFFS, w, 45) == Mac(FIR_COEFFS, w, 36)
          + -187 * w[36] + 0 * w[37] + 138 * w[38] + 217 * w[39] + 236 * w[40]
          + 208 * w[41] + 151 * w[42] + 85 * w[43] + 24 * w[44]
  {
    assert FIR_COEFFS[36] == -187 && FIR_COEFFS[37] == 0 && FIR_COEFFS[38] == 138 && FIR_COEFFS[39] == 217
        && FIR_COEFFS[40] == 236;
    assert FIR_COEFFS[41] == 208 && FIR_COEFFS[42] == 151 && FIR_COEFFS[43] == 85 && FIR_COEFFS[44] == 24;
    NineTaps(FIR_COEFFS, w, 36);
  }

  // A window that repeats twelve values.
  function Repeated(u: seq<int>): Window
    requires |u| == 12
  {
    seq(N_FIR_TAPS, i requires 0 <= i < N_FIR_TAPS => u[i % 12])
  }

  /** Every signal of period twelve is weighed by the coefficients twelve apart. */
  lemma PeriodTwelve(u: seq<int>)
    requires |u| == 12
    ensures Mac(FIR_COEFFS, Repeated(u), N_FIR_TAPS)
         == 2964 * u[0] + 2761 * u[1] + 2556 * u[2] + 2407 * u[3] + 2352 * u[4] + 2407 * u[5]
          + 2556 * u[6] + 2761 * u[7] + 2964 * u[8] + 3130 * u[9] + 3198 * u[10] + 3130 * u[11]
  {
    var w := Repeated(u);
    Row0(w);
    Row1(w);
    Row2(w);
    Row3(w);
    Row4(w);
  }

  /** A constant passes with gain 33186 / 65536. */
  lemma PassesConstants(a: int)
    ensures Mac(FIR_COEFFS, seq(N_FIR_TAPS, _ => a), N_FIR_TAPS) == 33186 * a
  {
    PeriodTwelve(seq(12, _ => a));
    assert Repeated(seq(12, _ => a)) == seq(N_FIR_TAPS, _ => a);
  }

  // The signals of period 2, 3, 4 and 6 that are pure tones, of any amplitude and phase: two values fix
  // one, as each value follows from the two before it.
  function Tone6k(x: int): seq<int> {
    [x, -x, x, -x, x, -x, x, -x, x, -x, x, -x]
  }

  function Tone4k(x: int, y: int): seq<int> {
    [x, y, -x - y, x, y, -x - y, x, y, -x - y, x, y, -x - y]
  }

  function Tone3k(x: int, y: int): seq<int> {
    [x, y, -x, -y, x, y, -x, -y, x, y, -x, -y]
  }

  function Tone2k(x: int, y: int): seq<int> {
    [x, y, y - x, -x, -y, x - y, x, y, y - x, -x, -y, x - y]
  }

  /** The stop band: of a tone of 6, 4, 3 or 2 kHz, whatever its amplitude and phase, the accumulator keeps
      at most 45 times one of its samples, against 33186 times a constant. */
  lemma StopsTones(x: int, y: int)
    ensures Mac(FIR_COEFFS, Repeated(Tone6k(x)), N_FIR_TAPS) == -6 * x
    ensures Mac(FIR_COEFFS, Repeated(Tone4k(x, y)), N_FIR_TAPS) == 15 * y
    ensures Mac(FIR_COEFFS, Repeated(Tone3k(x, y)), N_FIR_TAPS) == -30 * x
    ensures Mac(FIR_COEFFS, Repeated(Tone2k(x, y)), N_FIR_TAPS) == -45 * y
  {
    PeriodTwelve(Tone6k(x));
    PeriodTwelve(Tone4k(x, y));
    PeriodTwelve(Tone3k(x, y));
    PeriodTwelve(Tone2k(x, y));
  }

  /** So at full scale hardly anything comes out. */
  lemma StopBandOutput(x: Sample, y: Sample)
    ensures Abs(Filter(Repeated(Tone6k(x)))) <= 4 && Abs(Filter(Repeated(Tone4k(x, y)))) <= 8
    ensures Abs(Filter(Repeated(Tone3k(x, y)))) <= 15 && Abs(Filter(Repeated(Tone2k(x, y)))) <= 23
  {
    StopsTones(x, y);
  }
}
