/** The mu-law and A-law conversions of g711.c. */
module G711 {
  import opened Words

  const SEG_END: seq<int> := [0xFF, 0x1FF, 0x3FF, 0x7FF, 0xFFF, 0x1FFF, 0x3FFF, 0x7FFF]
  const BIAS := 0x84

  // The table search: the first entry from i on that is not below val, or the table size.
  function SegmentFrom(val: int, i: nat): (seg: nat)
    requires i <= 8
    ensures i <= seg <= 8
    decreases 8 - i
  {
    if i == 8 || val <= SEG_END[i] then i else SegmentFrom(val, i + 1)
  }

  function Segment(val: int): (seg: nat)
    ensures seg <= 8
  {
    SegmentFrom(val, 0)
  }

  method Search(val: int, table: seq<int>, size: nat) returns (i: nat)
    requires size <= |table|
    ensures i <= size
    ensures forall k :: 0 <= k < i ==> table[k] < val
    ensures i < size ==> val <= table[i]
  {
    i := 0;
    while i < size
      invariant 0 <= i <= size
      invariant forall k :: 0 <= k < i ==> table[k] < val
    {
      if val <= table[i] {
        return;
      }
      i := i + 1;
    }
  }

  // Any result of the search over the segment ends is the segment.
  lemma {:induction false} SearchIsSegment(val: int, i: nat, from: nat)
    requires from <= i <= 8
    requires forall k :: from <= k < i ==> SEG_END[k] < val
    requires i < 8 ==> val <= SEG_END[i]
    ensures i == SegmentFrom(val, from)
    decreases i - from
  {
  }

  lemma SegEndIs(k: nat)
    requires k < 8
    ensures SEG_END[k] == 256 * Power2(k) - 1
  {
  }

  lemma {:induction false} SegmentFromBounds(val: int, i: nat)
    requires i <= 8 && (i > 0 ==> SEG_END[i - 1] < val)
    ensures var seg := SegmentFrom(val, i);
            (seg > 0 ==> SEG_END[seg - 1] < val) && (seg < 8 ==> val <= SEG_END[seg])
    decreases 8 - i
  {
    if !(i == 8 || val <= SEG_END[i]) {
      SegmentFromBounds(val, i + 1);
    }
  }

  // Segment seg > 0 holds the magnitudes from 2^(seg+7) up to 2^(seg+8) - 1.
  lemma SegmentBounds(val: int)
    ensures var seg := Segment(val);
            && (seg > 0 ==> 128 * Power2(seg) <= val)
            && (seg < 8 ==> val < 256 * Power2(seg))
            && (seg == 8 <==> val > 0x7FFF)
  {
    SegmentFromBounds(val, 0);
    var seg := Segment(val);
    if seg > 0 { SegEndIs(seg - 1); }
    if seg < 8 { SegEndIs(seg); PowersOrdered(seg, 7); SegEndIs(7); }
  }

  lemma {:induction false} SegmentFromMonotone(m: int, n: int, i: nat)
    requires m <= n && i <= 8
    ensures SegmentFrom(m, i) <= SegmentFrom(n, i)
    decreases 8 - i
  {
    if !(i == 8 || m <= SEG_END[i]) {
      SegmentFromMonotone(m, n, i + 1);
    }
  }

  lemma SegmentUnique(val: int, seg: nat)
    requires seg < 8 && val < 256 * Power2(seg) && (seg > 0 ==> 128 * Power2(seg) <= val)
    ensures Segment(val) == seg
  {
    SegEndIs(seg);
    forall k | 0 <= k < seg
      ensures SEG_END[k] < val
    {
      SegEndIs(k);
      PowersOrdered(k, seg - 1);
    }
    SearchIsSegment(val, seg, 0);
  }

  lemma {:induction false} PowersOrdered(a: nat, b: nat)
    requires a <= b
    ensures Power2(a) <= Power2(b)
    decreases b - a
  {
    if a < b {
      PowersOrdered(a, b - 1);
    }
  }

  // Sixteen to thirty-one eighths of a scale stay between 128 and 256 of it.
  lemma EighthsOf(s: nat, k: int)
    requires 16 <= k < 32
    ensures 128 * s <= 8 * s * k && 8 * s * k + 8 * s <= 256 * s
  {
  }

  // A quotient between 16 and 31.
  lemma SixteenthsOf(m: int, d: nat)
    requires d > 0 && 16 * d <= m < 32 * d
    ensures 16 <= m / d < 32 && d * (m / d) <= m < d * (m / d) + d
  {
  }

  // uval ^ mask, and the number under the mask again.
  function Code(u: nat, mask: bv8): Byte
    requires u < 128
  {
    (u as bv8) ^ mask
  }

  function Index(code: Byte, mask: bv8): (i: nat)
    ensures i < 256
  {
    (code ^ mask) as int
  }

  lemma BitsRoundTrip(v: bv8)
    ensures (v as int) as bv8 == v
  {
  }

  lemma NumberRoundTrip(u: nat)
    requires u < 128
    ensures (u as bv8) as int == u && (u as bv8) < 0x80
  {
  }

  lemma XorTwice(v: bv8, mask: bv8)
    ensures (v ^ mask) ^ mask == v
  {
  }

  // The two masks of a code differ in the sign bit.
  lemma XorOther(v: bv8, mask: bv8, other: bv8)
    requires mask ^ other == 0x80
    ensures v < 0x80 ==> (v ^ other) ^ mask == v + 0x80
    ensures v >= 0x80 ==> (v - 0x80) ^ other == v ^ mask
  {
  }

  lemma TopBit(v: bv8)
    ensures v < 0x80 ==> (v as int) < 128 && (v + 0x80) as int == 128 + (v as int)
    ensures v >= 0x80 ==> (v as int) >= 128 && (v - 0x80) as int == (v as int) - 128
  {
  }

  // Unmasking what was masked.
  lemma IndexOfPositive(u: nat, mask: bv8)
    requires u < 128
    ensures Index(Code(u, mask), mask) == u
  {
    NumberRoundTrip(u);
    XorTwice(u as bv8, mask);
  }

  lemma IndexOfNegative(u: nat, mask: bv8, other: bv8)
    requires u < 128 && mask ^ other == 0x80
    ensures Index(Code(u, other), mask) == 128 + u
  {
    NumberRoundTrip(u);
    XorOther(u as bv8, mask, other);
    TopBit(u as bv8);
  }

  // One mask of each pair sets the sign bit.
  lemma IndexOfCode(u: nat)
    requires u < 128
    ensures Index(Code(u, 0xFF), 0xFF) == u && Index(Code(u, 0x7F), 0xFF) == 128 + u
    ensures Index(Code(u, 0x55), 0x55) == u && Index(Code(u, 0xD5), 0x55) == 128 + u
  {
    IndexOfPositive(u, 0xFF);
    IndexOfNegative(u, 0xFF, 0x7F);
    IndexOfPositive(u, 0x55);
    IndexOfNegative(u, 0x55, 0xD5);
  }

  // Masking what was unmasked.
  lemma CodeOfIndex(b: Byte, mask: bv8, other: bv8)
    requires mask ^ other == 0x80
    ensures var i := Index(b, mask); (if i < 128 then Code(i, mask) else Code(i - 128, other)) == b
  {
    var v := b ^ mask;
    XorTwice(b, mask);
    TopBit(v);
    if v < 0x80 {
      BitsRoundTrip(v);
    } else {
      BitsRoundTrip(v - 0x80);
      XorOther(v, mask, other);
    }
  }

  // A quantization code from its segment and its four bits.
  lemma SplitCode(seg: nat, q: nat)
    requires seg < 8 && q < 16
    ensures (seg * 16 + q) % 16 == q && (seg * 16 + q) / 16 % 8 == seg
    ensures (128 + seg * 16 + q) % 16 == q && (128 + seg * 16 + q) / 16 % 8 == seg
  {
  }

  // ---------------------------------------------------------------- mu-law

  // Segment and quantization bits of a biased magnitude; 0x7F beyond the last segment.
  function UMagnitude(m: int): (u: int)
    ensures 0 <= u < 128
  {
    var seg := Segment(m);
    if seg >= 8 then 0x7F else seg * 16 + (m / (8 * Power2(seg))) % 16
  }

  function UExpand(u: nat): int {
    (u % 16 * 8 + BIAS) * Power2(u / 16 % 8) - BIAS
  }

  function Ulaw(pcm: int): Byte {
    if pcm < 0 then Code(UMagnitude(BIAS - pcm), 0x7F) else Code(UMagnitude(pcm + BIAS), 0xFF)
  }

  function UlawValue(code: Byte): int {
    var u := Index(code, 0xFF);
    if u >= 128 then -UExpand(u) else UExpand(u)
  }

  method Linear2Ulaw(pcm: int) returns (code: Byte)
    ensures code == Ulaw(pcm)
  {
    var val, mask: bv8;
    if pcm < 0 {
      val := BIAS - pcm;
      mask := 0x7F;
    } else {
      val := pcm + BIAS;
      mask := 0xFF;
    }
    var seg := Search(val, SEG_END, 8);
    SearchIsSegment(val, seg, 0);
    if seg >= 8 {
      return Code(0x7F, mask);
    } else {
      var uval := seg * 16 + (val / (8 * Power2(seg))) % 16;
      return Code(uval, mask);
    }
  }

  method Ulaw2Linear(code: Byte) returns (pcm: int)
    ensures pcm == UlawValue(code)
  {
    var u := Index(code, 0xFF);
    var t := (u % 16) * 8 + BIAS;
    t := t * Power2(u / 16 % 8);
    return if u >= 128 then BIAS - t else t - BIAS;
  }

  // The value a biased magnitude comes back as, before the sign.
  function UMid(m: int): int {
    UExpand(UMagnitude(m))
  }

  // The sign bit does not disturb the magnitude.
  lemma UExpandSign(u: nat)
    requires u < 128
    ensures UExpand(128 + u) == UExpand(u)
  {
    SplitCode(u / 16, u % 16);
  }

  // Companding keeps the sign and rounds the magnitude.
  lemma UlawRounds(pcm: int)
    ensures UlawValue(Ulaw(pcm)) == if pcm < 0 then -UMid(BIAS - pcm) else UMid(pcm + BIAS)
  {
    var u := UMagnitude(if pcm < 0 then BIAS - pcm else pcm + BIAS);
    IndexOfCode(u);
    UExpandSign(u);
  }

  // The middle of a quantization cell of width 8 s, seen from any magnitude in it.
  lemma UCell(m: int)
    requires BIAS <= m <= 0x7FFF
    ensures var s := Power2(Segment(m));
            && Segment(m) < 8
            && UMid(m) + BIAS - 4 * s <= m < UMid(m) + BIAS + 4 * s
            && 128 * s + 4 * s <= UMid(m) + BIAS <= 256 * s - 4 * s
            && UMid(m) + BIAS == 8 * s * (m / (8 * s)) + 4 * s
  {
    SegmentBounds(m);
    var seg := Segment(m);
    var s := Power2(seg);
    SixteenthsOf(m, 8 * s);
    var k := m / (8 * s);
    UMidIs(m, seg, k);
    EighthsOf(s, k);
  }

  lemma UScaled(q: nat, s: nat)
    ensures (q * 8 + BIAS) * s == 8 * s * (16 + q) + 4 * s
  {
  }

  lemma UMidIs(m: int, seg: nat, k: int)
    requires BIAS <= m && seg == Segment(m) < 8 && k == m / (8 * Power2(seg)) && 16 <= k < 32
    ensures UMid(m) + BIAS == 8 * Power2(seg) * k + 4 * Power2(seg)
  {
    var s := Power2(seg);
    SplitCode(seg, k - 16);
    assert UMagnitude(m) == seg * 16 + (k - 16);
    UScaled(k - 16, s);
  }

  lemma USaturates(m: int)
    requires m > 0x7FFF
    ensures UMid(m) == 32124
  {
    SegmentBounds(m);
    assert Power2(7) == 8 * Power2(4) && Power2(4) == 8 * Power2(1);
  }

  /** Mu-law error bound: up to 32635 the companded value is within 2^(seg+2) of the input, so within
      1/32 of the biased magnitude; beyond, it saturates at 32124 with the input's sign. */
  lemma UlawError(x: int)
    ensures Abs(x) <= 32635 ==>
              && Segment(Abs(x) + BIAS) < 8
              && Abs(UlawValue(Ulaw(x)) - x) <= 4 * Power2(Segment(Abs(x) + BIAS))
              && 32 * Abs(UlawValue(Ulaw(x)) - x) <= Abs(x) + 132
    ensures Abs(x) > 32635 ==> UlawValue(Ulaw(x)) == if x < 0 then -32124 else 32124
  {
    UlawRounds(x);
    var m := Abs(x) + BIAS;
    if Abs(x) <= 32635 {
      UCell(m);
      SegmentBounds(m);
    } else {
      USaturates(m);
    }
  }

  // Cells of different segments keep their order, and so do the cells of one segment.
  lemma UMidAcross(m: int, n: int)
    requires BIAS <= m <= n <= 0x7FFF && Segment(m) < Segment(n)
    ensures UMid(m) <= UMid(n)
  {
    UCell(m);
    UCell(n);
    PowersOrdered(Segment(m), Segment(n) - 1);
  }

  lemma UMidWithin(m: int, n: int, s: nat)
    requires BIAS <= m <= n <= 0x7FFF && Segment(m) == Segment(n) && s == Power2(Segment(m))
    ensures UMid(m) <= UMid(n)
  {
    UCell(m);
    UCell(n);
    QuotientMonotone(m, n, 8 * s);
  }

  lemma UMidOrdered(m: int, n: int)
    requires BIAS <= m <= n <= 0x7FFF
    ensures UMid(m) <= UMid(n)
  {
    SegmentFromMonotone(m, n, 0);
    if Segment(m) < Segment(n) { UMidAcross(m, n); } else { UMidWithin(m, n, Power2(Segment(m))); }
  }

  lemma UMidMonotone(m: int, n: int)
    requires BIAS <= m <= n
    ensures 0 <= UMid(m) <= UMid(n) <= 32124
  {
    if m <= 0x7FFF { UMidBounds(m); } else { USaturates(m); }
    if n <= 0x7FFF { UMidBounds(n); UMidOrdered(m, n); } else { USaturates(n); }
  }

  lemma QuotientMonotone(m: int, n: int, d: nat)
    requires d > 0 && m <= n
    ensures d * (m / d) <= d * (n / d)
  {
    assert m == d * (m / d) + m % d && n == d * (n / d) + n % d;
    MultiplesApart(d, n / d, m / d);
  }

  lemma UMidBounds(m: int)
    requires BIAS <= m <= 0x7FFF
    ensures 0 <= UMid(m) <= 32124
  {
    UCell(m);
    PowersOrdered(0, Segment(m));
    PowersOrdered(Segment(m), 7);
    assert Power2(7) == 8 * Power2(4) && Power2(4) == 8 * Power2(1);
  }

  /** Mu-law companding is monotone over all integers. */
  lemma UlawMonotone(x: int, y: int)
    requires x <= y
    ensures UlawValue(Ulaw(x)) <= UlawValue(Ulaw(y))
  {
    UlawRounds(x);
    UlawRounds(y);
    if x >= 0 {
      UMidMonotone(x + BIAS, y + BIAS);
    } else if y < 0 {
      UMidMonotone(BIAS - y, BIAS - x);
    } else {
      UMidMonotone(BIAS, BIAS - x);
      UMidMonotone(BIAS, y + BIAS);
    }
  }

  /** Mu-law companding is odd over all integers. */
  lemma UlawOdd(x: int)
    ensures UlawValue(Ulaw(-x)) == -UlawValue(Ulaw(x))
  {
    UlawRounds(x);
    UlawRounds(-x);
    UMidZero();
  }

  lemma UMidZero()
    ensures UMid(BIAS) == 0
  {
    ZeroMagnitude();
  }

  lemma UExpandIs(seg: nat, q: nat, s: nat)
    requires seg < 8 && q < 16 && s == Power2(seg)
    ensures UExpand(seg * 16 + q) + BIAS == 8 * s * (16 + q) + 4 * s
  {
    var u := seg * 16 + q;
    assert u % 16 == q && u / 16 % 8 == seg by {
      SplitCode(seg, q);
    }
    assert UExpand(u) == (q * 8 + BIAS) * s - BIAS;
    UScaled(q, s);
  }

  // Compressing an expanded magnitude code gives the code back.
  lemma UMagnitudeRoundTrip(u: nat)
    requires u < 128
    ensures UExpand(u) >= 0 && UMagnitude(UExpand(u) + BIAS) == u
  {
    var seg, q := u / 16, u % 16;
    var s := Power2(seg);
    UExpandIs(seg, q, s);
    EighthsOf(s, 16 + q);
    CellOf(seg, q, 4 * s);
    UMagnitudeOf(seg, q, 8 * s * (16 + q) + 4 * s);
    PowersOrdered(0, seg);
  }

  // Any magnitude in a quantization cell lies in the cell's segment and sixteenth of it.
  lemma CellOf(seg: nat, q: nat, r: int)
    requires seg < 8 && q < 16 && 0 <= r < 8 * Power2(seg)
    ensures var m := 8 * Power2(seg) * (16 + q) + r;
            Segment(m) == seg && m / (8 * Power2(seg)) == 16 + q
  {
    var s := Power2(seg);
    var k := 16 + q;
    EighthsOf(s, k);
    SegmentUnique(8 * s * k + r, seg);
    DivModUnique(8 * s * k + r, 8 * s, k, r);
  }

  lemma UMagnitudeOf(seg: nat, q: nat, m: int)
    requires seg < 8 && q < 16 && Segment(m) == seg && m / (8 * Power2(seg)) == 16 + q
    ensures UMagnitude(m) == seg * 16 + q
  {
  }

  lemma UExpandPositive(u: nat)
    requires 0 < u < 128
    ensures UExpand(u) > 0
  {
  }

  // Compressing an expanded index gives the code back, if it is not the negative zero.
  lemma UIndexRoundTrip(i: nat)
    requires i < 256 && i != 128
    ensures Ulaw(if i >= 128 then -UExpand(i) else UExpand(i)) == if i < 128 then Code(i, 0xFF) else Code(i - 128, 0x7F)
  {
    if i < 128 {
      UMagnitudeRoundTrip(i);
    } else {
      UExpandSign(i - 128);
      UMagnitudeRoundTrip(i - 128);
      UExpandPositive(i - 128);
    }
  }

  lemma NegativeZero()
    ensures UlawValue(0x7F) == 0 && UlawValue(0xFF) == 0 && Ulaw(0) == 0xFF
  {
    ZeroMagnitude();
    ZeroIndices();
  }

  lemma ZeroMagnitude()
    ensures UMagnitude(BIAS) == 0 && UExpand(0) == 0 && UExpand(128) == 0
  {
    assert SEG_END[0] == 0xFF;
    assert Power2(0) == 1;
  }

  lemma ZeroIndices()
    ensures Code(0, 0xFF) == 0xFF && Index(0xFF, 0xFF) == 0 && Index(0x7F, 0xFF) == 128
  {
  }

  /** Encoding a decoded byte gives the byte back, except for the negative-zero code 0x7F alone,
      which comes back as 0xFF. */
  lemma UlawByteRoundTrip(b: Byte)
    ensures Ulaw(UlawValue(b)) == if b == 0x7F then 0xFF else b
  {
    CodeOfIndex(b, 0xFF, 0x7F);
    NegativeZero();
    assert Code(0, 0x7F) == 0x7F;
    if Index(b, 0xFF) != 128 {
      UIndexRoundTrip(Index(b, 0xFF));
    }
  }

  /** Companding twice changes nothing more. */
  lemma UlawIdempotent(x: int)
    ensures UlawValue(Ulaw(UlawValue(Ulaw(x)))) == UlawValue(Ulaw(x))
  {
    UlawByteRoundTrip(Ulaw(x));
    NegativeZero();
  }

  // ^ 0xFF is subtraction from 255, and the other mask of the code leaves the sign bit out.
  lemma Complement(v: bv8)
    ensures v ^ 0xFF == 0xFF - v && (v < 0x80 ==> v ^ 0x7F == 0x7F - v)
  {
  }

  lemma ComplementAsNumber(v: bv8)
    ensures (0xFF - v) as int == 255 - v as int && (v < 0x80 ==> (0x7F - v) as int == 127 - v as int)
  {
  }

  lemma UlawCodeAsNumber(u: nat)
    requires u < 128
    ensures Code(u, 0xFF) as int == 255 - u && Code(u, 0x7F) as int == 127 - u
  {
    NumberRoundTrip(u);
    Complement(u as bv8);
    ComplementAsNumber(u as bv8);
  }

  lemma QuotientsOrdered(m: int, n: int, d: nat)
    requires d > 0 && 16 * d <= m <= n < 32 * d
    ensures 16 <= m / d <= n / d < 32
  {
    SixteenthsOf(m, d);
    SixteenthsOf(n, d);
    MultiplesApart(d, n / d, m / d);
  }

  lemma UMagnitudeInSegment(m: int)
    ensures Segment(m) < 8 ==> 16 * Segment(m) <= UMagnitude(m) < 16 * Segment(m) + 16
    ensures Segment(m) == 8 ==> UMagnitude(m) == 0x7F
  {
  }

  lemma UMagnitudesOrdered(m: int, n: int)
    requires BIAS <= m <= n && Segment(m) == Segment(n) < 8
    ensures UMagnitude(m) <= UMagnitude(n)
  {
    SegmentBounds(m);
    SegmentBounds(n);
    QuotientsOrdered(m, n, 8 * Power2(Segment(m)));
  }

  lemma UMagnitudeMonotone(m: int, n: int)
    requires BIAS <= m <= n
    ensures UMagnitude(m) <= UMagnitude(n)
  {
    hide UMagnitude;
    SegmentFromMonotone(m, n, 0);
    UMagnitudeInSegment(m);
    UMagnitudeInSegment(n);
    if Segment(m) == Segment(n) < 8 {
      UMagnitudesOrdered(m, n);
    }
  }

  /** On the byte as a number: from 0 on a greater input never gets a greater code. */
  lemma UlawCodesFall(x: int, y: int)
    requires 0 <= x <= y
    ensures 0x80 <= Ulaw(y) as int <= Ulaw(x) as int <= 0xFF
  {
    hide UMagnitude;
    UMagnitudeMonotone(x + BIAS, y + BIAS);
    UlawCodeAsNumber(UMagnitude(x + BIAS));
    UlawCodeAsNumber(UMagnitude(y + BIAS));
  }

  /** A negative input has the code of its magnitude without the sign bit. */
  lemma UlawSignBit(x: int)
    requires x > 0
    ensures Ulaw(-x) as int == Ulaw(x) as int - 0x80
  {
    hide UMagnitude;
    UlawCodeAsNumber(UMagnitude(x + BIAS));
  }

  lemma UScaledByFour(q: nat, s: nat)
    ensures (q * 8 + BIAS) * s - BIAS == 4 * ((33 + 2 * q) * s - 33)
  {
    assert (q * 8 + BIAS) * s == (4 * (33 + 2 * q)) * s;
  }

  lemma UExpandTable(u: nat)
    requires u < 128
    ensures UExpand(u) == 4 * ((33 + 2 * (u % 16)) * Power2(u / 16) - 33)
  {
    hide Power2;
    UScaledByFour(u % 16, Power2(u / 16));
  }

  /** The decoder's table: counted down from 0xFF or 0x7F, the code of segment e and four bits q stands for
      (33 + 2 q) 2^e - 33 steps of four, negative from 0x7F. */
  lemma UlawTable(b: Byte)
    ensures var u := if b as int >= 128 then 255 - b as int else 127 - b as int;
            var magnitude := 4 * ((33 + 2 * (u % 16)) * Power2(u / 16) - 33);
            UlawValue(b) == if b as int >= 128 then magnitude else -magnitude
  {
    hide UExpand, Power2;
    Complement(b);
    ComplementAsNumber(b);
    if b as int >= 128 {
      UExpandTable(255 - b as int);
    } else {
      UExpandSign(127 - b as int);
      UExpandTable(127 - b as int);
    }
  }

  // ---------------------------------------------------------------- A-law

  function AMagnitude(m: int): (a: int)
    ensures 0 <= a < 128
  {
    var seg := Segment(m);
    if seg >= 8 then 0x7F
    else seg * 16 + (if seg < 2 then (m / 16) % 16 else (m / (8 * Power2(seg))) % 16)
  }

  function AExpand(a: nat): int {
    var t, seg := a % 16 * 16, a / 16 % 8;
    if seg == 0 then t + 8
    else if seg == 1 then t + 0x108
    else (t + 0x108) * Power2(seg - 1)
  }

  function Alaw(pcm: int): Byte {
    if pcm >= 0 then Code(AMagnitude(pcm), 0xD5) else Code(AMagnitude(-pcm - 8), 0x55)
  }

  function AlawValue(code: Byte): int {
    var a := Index(code, 0x55);
    if a >= 128 then AExpand(a) else -AExpand(a)
  }

  method Linear2Alaw(pcm: int) returns (code: Byte)
    ensures code == Alaw(pcm)
  {
    var val, mask: bv8;
    if pcm >= 0 {
      val := pcm;
      mask := 0xD5;
    } else {
      mask := 0x55;
      val := -pcm - 8;
    }
    var seg := Search(val, SEG_END, 8);
    SearchIsSegment(val, seg, 0);
    if seg >= 8 {
      return Code(0x7F, mask);
    } else {
      var aval := seg * 16;
      if seg < 2 {
        aval := aval + (val / 16) % 16;
      } else {
        aval := aval + (val / (8 * Power2(seg))) % 16;
      }
      return Code(aval, mask);
    }
  }

  method Alaw2Linear(code: Byte) returns (pcm: int)
    ensures pcm == AlawValue(code)
  {
    var a := Index(code, 0x55);
    var t := (a % 16) * 16;
    var seg := a / 16 % 8;
    if seg == 0 {
      t := t + 8;
    } else if seg == 1 {
      t := t + 0x108;
    } else {
      t := t + 0x108;
      t := t * Power2(seg - 1);
    }
    return if a >= 128 then t else -t;
  }

  // The value a magnitude comes back as, before the sign.
  function AMid(m: int): int {
    AExpand(AMagnitude(m))
  }

  lemma AExpandSign(a: nat)
    requires a < 128
    ensures AExpand(128 + a) == AExpand(a)
  {
    SplitCode(a / 16, a % 16);
  }

  lemma AlawRounds(pcm: int)
    ensures AlawValue(Alaw(pcm)) == if pcm >= 0 then AMid(pcm) else -AMid(-pcm - 8)
  {
    var a := AMagnitude(if pcm >= 0 then pcm else -pcm - 8);
    IndexOfCode(a);
    AExpandSign(a);
  }

  // Half a quantization cell.
  function AHalfStep(m: int): nat {
    if Segment(m) < 2 then 8 else 4 * Power2(Segment(m))
  }

  // The bottom of segment seg, and the top of it.
  function ABottom(seg: nat): int {
    if seg == 0 then 0 else 128 * Power2(seg)
  }

  // The middle of a quantization cell, seen from any magnitude in it.
  lemma ACell(m: int)
    requires 0 <= m <= 0x7FFF
    ensures var h := AHalfStep(m); var seg := Segment(m);
            && seg < 8
            && AMid(m) - h <= m < AMid(m) + h
            && ABottom(seg) + h <= AMid(m) <= 256 * Power2(seg) - h
            && AMid(m) == 2 * h * (m / (2 * h)) + h
  {
    SegmentBounds(m);
    if Segment(m) < 2 { ALowCell(m); } else { AHighCell(m); }
  }

  lemma ALowCell(m: int)
    requires 0 <= m && Segment(m) < 2
    ensures AMid(m) == 16 * (m / 16) + 8 && AMid(m) - 8 <= m < AMid(m) + 8
    ensures ABottom(Segment(m)) + 8 <= AMid(m) <= 256 * Power2(Segment(m)) - 8
  {
    SegmentBounds(m);
    assert Power2(1) == 2;
    SplitCode(Segment(m), m / 16 % 16);
    assert AMagnitude(m) == Segment(m) * 16 + m / 16 % 16;
  }

  lemma AHighCell(m: int)
    requires 2 <= Segment(m) < 8
    ensures var h := 4 * Power2(Segment(m));
            && AMid(m) == 2 * h * (m / (2 * h)) + h && AMid(m) - h <= m < AMid(m) + h
            && 32 * h + h <= AMid(m) <= 64 * h - h
  {
    SegmentBounds(m);
    var s := Power2(Segment(m));
    SixteenthsOf(m, 8 * s);
    var k := m / (8 * s);
    AMidIs(m, Segment(m), k);
    EighthsOf(s, k);
  }

  lemma AScaled(q: nat, s: nat)
    ensures (q * 16 + 0x108) * s == 16 * s * (16 + q) + 8 * s
  {
  }

  lemma AExpandIs(seg: nat, q: nat)
    requires 2 <= seg < 8 && q < 16
    ensures AExpand(seg * 16 + q) == 8 * Power2(seg) * (16 + q) + 4 * Power2(seg)
  {
    SplitCode(seg, q);
    AScaled(q, Power2(seg - 1));
  }

  lemma AMidIs(m: int, seg: nat, k: int)
    requires 2 <= seg == Segment(m) < 8 && k == m / (8 * Power2(seg)) && 16 <= k < 32
    ensures AMid(m) == 8 * Power2(seg) * k + 4 * Power2(seg)
  {
    AExpandIs(seg, k - 16);
    assert AMagnitude(m) == seg * 16 + (k - 16);
  }

  lemma ASaturates(m: int)
    requires m > 0x7FFF
    ensures AMid(m) == 32256
  {
    SegmentBounds(m);
    assert Power2(6) == 8 * Power2(3) && Power2(3) == 8;
    assert AMagnitude(m) == 0x7F;
  }

  // The inputs whose magnitude the encoder makes negative.
  predicate InWindow(x: int) {
    -7 <= x <= -1
  }

  /** In the window -7..-1 the encoder produces the code of -248. */
  lemma WindowGives248(x: int)
    requires InWindow(x)
    ensures AlawValue(Alaw(x)) == -248
  {
    AlawRounds(x);
    var m := -x - 8;
    assert SEG_END[0] == 0xFF;
    assert Segment(m) == 0 && m / 16 == -1;
    assert AMagnitude(m) == 15;
  }

  /** A-law error bound, exactly: before saturation the companded value of x >= 0 is within
      max(8, 2^(seg+2)), the value of a negative x within 7 more than that, if and only if x lies
      outside -7..-1. */
  lemma AlawErrorIff(x: int)
    requires -32775 <= x <= 32767
    ensures var m := if x >= 0 then x else -x - 8;
            Abs(AlawValue(Alaw(x)) - x) <= AHalfStep(m) + (if x >= 0 then 0 else 7) <==> !InWindow(x)
  {
    if InWindow(x) {
      WindowGives248(x);
      SegmentBounds(-x - 8);
      SegmentUnique(-x - 8, 0);
    } else {
      AlawRounds(x);
      ACell(if x >= 0 then x else -x - 8);
    }
  }

  /** Beyond the last segment A-law saturates at 32256 with the input's sign. */
  lemma AlawSaturates(x: int)
    requires x > 32767 || x < -32775
    ensures AlawValue(Alaw(x)) == if x > 0 then 32256 else -32256
  {
    AlawRounds(x);
    ASaturates(if x > 0 then x else -x - 8);
  }

  lemma AMidBounds(m: int)
    requires 0 <= m <= 0x7FFF
    ensures 8 <= AMid(m) <= 32256
  {
    ACell(m);
    var seg := Segment(m);
    PowersOrdered(seg, 7);
    if seg < 7 { PowersOrdered(seg, 6); }
    assert Power2(6) == 8 * Power2(3) && Power2(3) == 8 && Power2(7) == 2 * Power2(6);
    if seg > 0 { PowersOrdered(1, seg); }
  }

  // Cells of different segments keep their order.
  lemma AMidAcross(m: int, n: int)
    requires 0 <= m <= n <= 0x7FFF && Segment(m) < Segment(n)
    ensures AMid(m) <= AMid(n)
  {
    ACell(m);
    ACell(n);
    PowersOrdered(Segment(m), Segment(n) - 1);
  }

  // So do the cells of one segment.
  lemma AMidWithin(m: int, n: int, h: nat)
    requires 0 <= m <= n <= 0x7FFF && AHalfStep(m) == h == AHalfStep(n)
    ensures AMid(m) <= AMid(n)
  {
    ACell(m);
    ACell(n);
    QuotientMonotone(m, n, 2 * h);
  }

  lemma AMidOrdered(m: int, n: int)
    requires 0 <= m <= n <= 0x7FFF
    ensures AMid(m) <= AMid(n)
  {
    SegmentFromMonotone(m, n, 0);
    if Segment(m) < Segment(n) {
      AMidAcross(m, n);
    } else {
      AMidWithin(m, n, AHalfStep(m));
    }
  }

  lemma AMidMonotone(m: int, n: int)
    requires 0 <= m <= n
    ensures 8 <= AMid(m) <= AMid(n) <= 32256
  {
    if m <= 0x7FFF { AMidBounds(m); } else { ASaturates(m); }
    if n <= 0x7FFF { AMidBounds(n); AMidOrdered(m, n); } else { ASaturates(n); }
  }

  // The value of a low magnitude is below the middle of the cell 240..255.
  lemma AMidLow(m: int)
    requires 0 <= m < 240
    ensures AMid(m) < 248
  {
  }

  lemma AMid240()
    ensures AMid(240) == 248
  {
  }

  // Order against an input in the window.
  lemma OrderAtWindow(x: int, y: int)
    requires x <= y && InWindow(y)
    ensures AlawValue(Alaw(x)) <= AlawValue(Alaw(y)) <==> !(-247 <= x <= -8)
  {
    WindowGives248(y);
    if InWindow(x) {
      WindowGives248(x);
    } else {
      AlawRounds(x);
      if x <= -248 {
        AMid240();
        AMidMonotone(240, -x - 8);
      } else {
        AMidLow(-x - 8);
      }
    }
  }

  lemma NegativeRounds(x: int)
    requires x < 0
    ensures AlawValue(Alaw(x)) == -AMid(-x - 8)
  {
    AlawRounds(x);
  }

  lemma AMidOrder(m: int, n: int)
    requires 0 <= m <= n
    ensures AMid(m) <= AMid(n)
  {
    AMidMonotone(m, n);
  }

  lemma OrderBelowZero(x: int, y: int)
    requires x <= y < 0 && !InWindow(y)
    ensures AlawValue(Alaw(x)) <= AlawValue(Alaw(y))
  {
    hide AMid, Alaw, AlawValue;
    NegativeRounds(x);
    NegativeRounds(y);
    AMidOrder(-y - 8, -x - 8);
  }

  lemma OrderAboveZero(x: int, y: int)
    requires x <= y && y >= 0
    ensures AlawValue(Alaw(x)) <= AlawValue(Alaw(y))
  {
    AlawRounds(y);
    if InWindow(x) {
      WindowGives248(x);
      AMidMonotone(0, y);
    } else {
      AlawRounds(x);
      if x >= 0 {
        AMidMonotone(x, y);
      } else {
        AMidMonotone(0, y);
        AMidMonotone(0, -x - 8);
      }
    }
  }

  /** A-law companding keeps the order of x <= y exactly unless y falls in the window -7..-1 while x
      lies in -247..-8, just above the value -248 that the window gives. */
  lemma AlawMonotoneIff(x: int, y: int)
    requires x <= y
    ensures AlawValue(Alaw(x)) <= AlawValue(Alaw(y)) <==> !(InWindow(y) && -247 <= x <= -8)
  {
    if InWindow(y) {
      OrderAtWindow(x, y);
    } else if y < 0 {
      OrderBelowZero(x, y);
    } else {
      OrderAboveZero(x, y);
    }
  }

  lemma ALowRoundTrip(a: nat)
    requires a < 32
    ensures AExpand(a) == 16 * a + 8 && AMagnitude(AExpand(a)) == a && AMagnitude(AExpand(a) - 8) == a
  {
    assert Power2(1) == 2;
    SegmentUnique(16 * a + 8, a / 16);
    SegmentUnique(16 * a, a / 16);
  }

  lemma AHighRoundTrip(seg: nat, q: nat)
    requires 2 <= seg < 8 && q < 16
    ensures var a := seg * 16 + q;
            AExpand(a) >= 8 && AMagnitude(AExpand(a)) == a && AMagnitude(AExpand(a) - 8) == a
  {
    AExpandIs(seg, q);
    var s := Power2(seg);
    PowersOrdered(2, seg);
    assert Power2(2) == 4;
    EighthsOf(s, 16 + q);
    var bottom := 8 * s * (16 + q);
    CellOf(seg, q, 4 * s);
    AMagnitudeOf(seg, q, bottom + 4 * s);
    CellOf(seg, q, 4 * s - 8);
    AMagnitudeOf(seg, q, bottom + (4 * s - 8));
  }

  // Compressing an expanded magnitude code, or eight less than it, gives the code back.
  lemma AMagnitudeRoundTrip(a: nat)
    requires a < 128
    ensures AExpand(a) >= 8
    ensures AMagnitude(AExpand(a)) == a && AMagnitude(AExpand(a) - 8) == a
  {
    if a < 32 { ALowRoundTrip(a); } else { AHighRoundTrip(a / 16, a % 16); }
  }

  lemma AMagnitudeOf(seg: nat, q: nat, m: int)
    requires 2 <= seg < 8 && q < 16 && Segment(m) == seg && m / (8 * Power2(seg)) == 16 + q
    ensures AMagnitude(m) == seg * 16 + q
  {
  }

  lemma AIndexRoundTrip(i: nat)
    requires i < 256
    ensures Alaw(if i >= 128 then AExpand(i) else -AExpand(i)) == if i < 128 then Code(i, 0x55) else Code(i - 128, 0xD5)
  {
    if i < 128 {
      AMagnitudeRoundTrip(i);
    } else {
      AExpandSign(i - 128);
      AMagnitudeRoundTrip(i - 128);
    }
  }

  /** Every A-law byte survives decoding and encoding. */
  lemma AlawByteRoundTrip(b: Byte)
    ensures Alaw(AlawValue(b)) == b
  {
    CodeOfIndex(b, 0x55, 0xD5);
    AIndexRoundTrip(Index(b, 0x55));
  }

  lemma MaskedSign(v: bv8)
    ensures (v ^ 0x55) ^ 0x55 == v && (v < 0x80 ==> (v ^ 0xD5) ^ 0x55 == v + 0x80)
  {
  }

  // The code after the inversion of its even bits, as a number.
  lemma AlawCodeAsNumber(a: nat)
    requires a < 128
    ensures (Code(a, 0xD5) ^ 0x55) as int == 128 + a && (Code(a, 0x55) ^ 0x55) as int == a
  {
    NumberRoundTrip(a);
    MaskedSign(a as bv8);
    TopBit(a as bv8);
  }

  lemma AMagnitudeInSegment(m: int)
    ensures Segment(m) < 8 ==> 16 * Segment(m) <= AMagnitude(m) < 16 * Segment(m) + 16
    ensures Segment(m) == 8 ==> AMagnitude(m) == 0x7F
  {
  }

  lemma ALowMagnitude(m: int)
    requires 0 <= m && Segment(m) < 2
    ensures AMagnitude(m) == m / 16
  {
    SegmentBounds(m);
    assert Power2(1) == 2;
  }

  lemma AHighOrdered(m: int, n: int)
    requires m <= n && 2 <= Segment(m) == Segment(n) < 8
    ensures AMagnitude(m) <= AMagnitude(n)
  {
    SegmentBounds(m);
    SegmentBounds(n);
    QuotientsOrdered(m, n, 8 * Power2(Segment(m)));
  }

  lemma AMagnitudeMonotone(m: int, n: int)
    requires 0 <= m <= n
    ensures AMagnitude(m) <= AMagnitude(n)
  {
    hide AMagnitude;
    SegmentFromMonotone(m, n, 0);
    AMagnitudeInSegment(m);
    AMagnitudeInSegment(n);
    if Segment(m) == Segment(n) {
      if Segment(m) < 2 {
        ALowMagnitude(m);
        ALowMagnitude(n);
      } else if Segment(m) < 8 {
        AHighOrdered(m, n);
      }
    }
  }

  /** After the inversion of the even bits, on the byte as a number: from 0 on a greater input never
      gets a smaller code. */
  lemma AlawCodesRise(x: int, y: int)
    requires 0 <= x <= y
    ensures 0x80 <= (Alaw(x) ^ 0x55) as int <= (Alaw(y) ^ 0x55) as int <= 0xFF
  {
    hide AMagnitude;
    AMagnitudeMonotone(x, y);
    AlawCodeAsNumber(AMagnitude(x));
    AlawCodeAsNumber(AMagnitude(y));
  }

  /** Minus x + 8 has the code of x without the sign bit. */
  lemma AlawSignBit(x: int)
    requires x >= 0
    ensures (Alaw(-x - 8) ^ 0x55) as int == (Alaw(x) ^ 0x55) as int - 0x80
  {
    hide AMagnitude;
    AlawCodeAsNumber(AMagnitude(x));
  }

  lemma AScaledByEight(q: nat, s: nat)
    ensures (q * 16 + 0x108) * s == 8 * (33 + 2 * q) * s
  {
  }

  lemma AExpandTable(a: nat)
    requires a < 128
    ensures var e, q := a / 16, a % 16;
            AExpand(a) == if e == 0 then 8 * (2 * q + 1) else 8 * (33 + 2 * q) * Power2(e - 1)
  {
    if a >= 16 {
      AScaledByEight(a % 16, Power2(a / 16 - 1));
    }
  }

  lemma SignKeepsBits(a: nat)
    ensures (128 + a) % 16 == a % 16 && (a < 128 ==> (128 + a) % 128 == a)
  {
  }

  /** The decoder's table: after the inversion of the even bits and without the sign, the code of segment e
      and four bits q stands for 2 q + 1 steps of eight if e is 0, and (33 + 2 q) 2^(e - 1) otherwise. */
  lemma AlawTable(b: Byte)
    ensures var n := (b ^ 0x55) as int;
            var e, q := n % 128 / 16, n % 16;
            var magnitude := if e == 0 then 8 * (2 * q + 1) else 8 * (33 + 2 * q) * Power2(e - 1);
            AlawValue(b) == if n >= 128 then magnitude else -magnitude
  {
    hide AExpand, Power2;
    var n := Index(b, 0x55);
    AExpandTable(n % 128);
    if n >= 128 {
      AExpandSign(n - 128);
      SignKeepsBits(n - 128);
    }
  }
}
