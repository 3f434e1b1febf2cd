/** Byte framing of the receive thread in FSKdsp.c: an LSB-first shifter that hunts for 0xAB and
    then delivers every eighth bit time. */
module Framer {
  import opened Words
  import opened BitClock

  const BITSPERBYTE := 8
  const SYNC_BYTE: Byte := 0xAB

  function ShiftIn(b: Byte, bit: Bit): Byte {
    (b >> 1) | ((bit & 1) << 7)
  }

  function Fold(b: Byte, bits: seq<Bit>): Byte
    decreases |bits|
  {
    if bits == [] then b else Fold(ShiftIn(b, bits[0]), bits[1..])
  }

  // The variables bytesync, demod_byte and bitctr.
  datatype Frame = Frame(bytesync: bool, byte: Byte, bitctr: int) {

    function Next(bit: Bit): Frame {
      var b := ShiftIn(byte, bit);
      if !bytesync then (if b == SYNC_BYTE then Frame(true, b, 0) else Frame(false, b, bitctr))
      else if bitctr == BITSPERBYTE - 1 then Frame(true, b, 0)
      else Frame(true, b, bitctr + 1)
    }

    // The byte handed to byte_rx_func on this bit, if any.
    function Emit(bit: Bit): seq<Byte> {
      var b := ShiftIn(byte, bit);
      if (if bytesync then bitctr == BITSPERBYTE - 1 else b == SYNC_BYTE) then [b] else []
    }

    function After(bits: seq<Bit>): Frame
      decreases |bits|
    {
      if bits == [] then this else Next(bits[0]).After(bits[1..])
    }

    function Bytes(bits: seq<Bit>): seq<Byte>
      decreases |bits|
    {
      if bits == [] then [] else Emit(bits[0]) + Next(bits[0]).Bytes(bits[1..])
    }
  }

  const HUNTING := Frame(false, 0, 0)

  // The eight bits of a byte in the order they are sent.
  function LsbFirst(b: Byte): (bits: seq<Bit>)
    ensures |bits| == 8
  {
    [b & 1, (b >> 1) & 1, (b >> 2) & 1, (b >> 3) & 1, (b >> 4) & 1, (b >> 5) & 1, (b >> 6) & 1, (b >> 7) & 1]
  }

  function Transmit(bytes: seq<Byte>): seq<Bit>
    decreases |bytes|
  {
    if bytes == [] then [] else LsbFirst(bytes[0]) + Transmit(bytes[1..])
  }

  function Preamble(n: nat): seq<Byte> {
    seq(n, _ => SYNC_BYTE)
  }

  lemma {:induction false} FrameAppend(f: Frame, a: seq<Bit>, b: seq<Bit>)
    ensures f.After(a + b) == f.After(a).After(b)
    ensures f.Bytes(a + b) == f.Bytes(a) + f.After(a).Bytes(b)
    decreases |a|
  {
    if a == [] {
      assert a + b == b;
    } else {
      assert (a + b)[0] == a[0] && (a + b)[1..] == a[1..] + b;
      FrameAppend(f.Next(a[0]), a[1..], b);
    }
  }

  // Eight shifts written out.
  function Pack(a: bv8, b: bv8, c: bv8, d: bv8, e: bv8, f: bv8, g: bv8, h: bv8): Byte {
    a | (b << 1) | (c << 2) | (d << 3) | (e << 4) | (f << 5) | (g << 6) | (h << 7)
  }

  // Eight bits replace the whole shifter, whatever it held.
  lemma FoldEight(s: Byte, w: seq<Bit>)
    requires |w| == 8
    ensures Fold(s, w) == Pack(w[0], w[1], w[2], w[3], w[4], w[5], w[6], w[7])
  {
    var s4 := ShiftIn(ShiftIn(ShiftIn(ShiftIn(s, w[0]), w[1]), w[2]), w[3]);
    FoldFour(s, w);
    FoldFour(s4, w[4..]);
    PackShifts(s, w[0], w[1], w[2], w[3], w[4], w[5], w[6], w[7]);
  }

  lemma FoldFour(s: Byte, w: seq<Bit>)
    requires |w| >= 4
    ensures Fold(s, w) == Fold(ShiftIn(ShiftIn(ShiftIn(ShiftIn(s, w[0]), w[1]), w[2]), w[3]), w[4..])
  {
    var s1 := ShiftIn(s, w[0]);
    var s2 := ShiftIn(s1, w[1]);
    var s3 := ShiftIn(s2, w[2]);
    assert w[1..][1..] == w[2..] && w[2..][1..] == w[3..] && w[3..][1..] == w[4..];
    assert Fold(s, w) == Fold(s1, w[1..]);
    assert Fold(s1, w[1..]) == Fold(s2, w[2..]);
    assert Fold(s2, w[2..]) == Fold(s3, w[3..]);
  }

  lemma PackShifts(s: Byte, a: Bit, b: Bit, c: Bit, d: Bit, e: Bit, f: Bit, g: Bit, h: Bit)
    ensures ShiftIn(ShiftIn(ShiftIn(ShiftIn(ShiftIn(ShiftIn(ShiftIn(ShiftIn(s, a), b), c), d), e), f), g), h)
         == Pack(a, b, c, d, e, f, g, h)
  {
  }

  /** Eight LSB-first bits put exactly the byte sent into the shifter. */
  lemma ShiftInByte(s: Byte, b: Byte)
    ensures Fold(s, LsbFirst(b)) == b
  {
    var w := LsbFirst(b);
    FoldEight(s, w);
    assert Pack(w[0], w[1], w[2], w[3], w[4], w[5], w[6], w[7]) == b;
  }

  // With byte sync held, bits that do not complete a byte only fill the shifter.
  lemma {:induction false} PartByte(f: Frame, bits: seq<Bit>)
    requires f.bytesync && 0 <= f.bitctr && f.bitctr + |bits| < BITSPERBYTE
    ensures f.After(bits) == Frame(true, Fold(f.byte, bits), f.bitctr + |bits|)
    ensures f.Bytes(bits) == []
    decreases |bits|
  {
    if bits != [] {
      PartByte(f.Next(bits[0]), bits[1..]);
    }
  }

  lemma {:induction false} FoldAppend(s: Byte, a: seq<Bit>, b: seq<Bit>)
    ensures Fold(s, a + b) == Fold(Fold(s, a), b)
    decreases |a|
  {
    if a == [] {
      assert a + b == b;
    } else {
      assert (a + b)[1..] == a[1..] + b;
      FoldAppend(ShiftIn(s, a[0]), a[1..], b);
    }
  }

  lemma FoldOne(s: Byte, b: Bit)
    ensures Fold(s, [b]) == ShiftIn(s, b)
  {
  }

  // At a byte boundary, eight bits deliver one byte and return to a byte boundary.
  lemma OneByte(s: Byte, b: Byte)
    ensures Frame(true, s, 0).Bytes(LsbFirst(b)) == [b]
    ensures Frame(true, s, 0).After(LsbFirst(b)) == Frame(true, b, 0)
  {
    var f, t := Frame(true, s, 0), LsbFirst(b);
    assert t == t[..7] + [t[7]];
    FrameAppend(f, t[..7], [t[7]]);
    PartByte(f, t[..7]);
    FoldAppend(s, t[..7], [t[7]]);
    FoldOne(Fold(s, t[..7]), t[7]);
    ShiftInByte(s, b);
    var g := f.After(t[..7]);
    assert g.Bytes([t[7]]) == g.Emit(t[7]) + g.Next(t[7]).Bytes([]);
    assert g.After([t[7]]) == g.Next(t[7]).After([]);
  }

  /** From a byte boundary the bits of any byte list are delivered as that list. */
  lemma {:induction false} BytesDelivered(s: Byte, bytes: seq<Byte>)
    ensures Frame(true, s, 0).Bytes(Transmit(bytes)) == bytes
    ensures exists s' :: Frame(true, s, 0).After(Transmit(bytes)) == Frame(true, s', 0)
    decreases |bytes|
  {
    if bytes == [] {
      assert Frame(true, s, 0).After(Transmit(bytes)) == Frame(true, s, 0);
    } else {
      OneByte(s, bytes[0]);
      BytesDelivered(bytes[0], bytes[1..]);
      FrameAppend(Frame(true, s, 0), LsbFirst(bytes[0]), Transmit(bytes[1..]));
    }
  }

  // ---------------------------------------------------------------- hunting

  const SYNC_BITS: seq<Bit> := [1, 1, 0, 1, 0, 1, 0, 1]

  // The sync pattern ends at position p of the bit stream.
  predicate PatternEnds(bits: seq<Bit>, p: int) {
    8 <= p <= |bits| && bits[p - 8..p] == SYNC_BITS
  }

  lemma SyncBits()
    ensures LsbFirst(SYNC_BYTE) == SYNC_BITS
  {
  }

  // After k < 8 shifts from zero the low 8 - k bits of the shifter are still zero.
  predicate LowClear(b: Byte, k: nat) {
    match k
    case 0 => b == 0
    case 1 => b & 0x7F == 0
    case 2 => b & 0x3F == 0
    case 3 => b & 0x1F == 0
    case 4 => b & 0x0F == 0
    case 5 => b & 0x07 == 0
    case 6 => b & 0x03 == 0
    case _ => b & 0x01 == 0
  }

  lemma {:induction false} ShortFoldEven(bits: seq<Bit>)
    requires |bits| < 8
    ensures LowClear(Fold(0, bits), |bits|)
    decreases |bits|
  {
    var n := |bits|;
    if n > 0 {
      ShortFoldEven(bits[..n - 1]);
      assert bits == bits[..n - 1] + [bits[n - 1]];
      FoldAppend(0, bits[..n - 1], [bits[n - 1]]);
      FoldOne(Fold(0, bits[..n - 1]), bits[n - 1]);
      LowClearShift(Fold(0, bits[..n - 1]), n - 1, bits[n - 1]);
    }
  }

  lemma LowClearShift(b: Byte, k: nat, bit: Bit)
    requires k < 7 && LowClear(b, k)
    ensures LowClear(ShiftIn(b, bit), k + 1)
  {
  }

  // The shifter holds 0xAB exactly when its last eight input bits are the pattern.
  lemma FoldIsSync(bits: seq<Bit>)
    ensures Fold(0, bits) == SYNC_BYTE <==> PatternEnds(bits, |bits|)
  {
    hide Fold, LowClear;
    var n := |bits|;
    if n < 8 {
      ShortFoldEven(bits);
      LowClearNotSync(Fold(0, bits), n);
    } else {
      LongFoldIsSync(bits[..n - 8], bits[n - 8..]);
      assert bits == bits[..n - 8] + bits[n - 8..];
    }
  }

  lemma LongFoldIsSync(a: seq<Bit>, w: seq<Bit>)
    requires |w| == 8
    ensures Fold(0, a + w) == SYNC_BYTE <==> w == SYNC_BITS
  {
    FoldAppend(0, a, w);
    EightIsSync(Fold(0, a), w);
  }

  lemma EightIsSync(s: Byte, w: seq<Bit>)
    requires |w| == 8
    ensures Fold(s, w) == SYNC_BYTE <==> w == SYNC_BITS
  {
    FoldEight(s, w);
    PackBits(w[0], w[1], w[2], w[3], w[4], w[5], w[6], w[7]);
    EightBits(w);
  }

  lemma EightBits(w: seq<Bit>)
    requires |w| == 8
    ensures w == SYNC_BITS <==>
            w[0] == 1 && w[1] == 1 && w[2] == 0 && w[3] == 1 && w[4] == 0 && w[5] == 1 && w[6] == 0 && w[7] == 1
  {
  }

  lemma LowClearNotSync(b: Byte, k: nat)
    requires k < 8 && LowClear(b, k)
    ensures b != SYNC_BYTE
  {
  }

  lemma PackBits(a: Bit, b: Bit, c: Bit, d: Bit, e: Bit, f: Bit, g: Bit, h: Bit)
    ensures Pack(a, b, c, d, e, f, g, h) == SYNC_BYTE <==>
            a == 1 && b == 1 && c == 0 && d == 1 && e == 0 && f == 1 && g == 0 && h == 1
  {
  }

  // While the pattern has not been seen, nothing is delivered.
  lemma {:induction false} StillHunting(bits: seq<Bit>)
    requires forall p :: 0 <= p <= |bits| ==> !PatternEnds(bits, p)
    ensures HUNTING.After(bits) == Frame(false, Fold(0, bits), 0)
    ensures HUNTING.Bytes(bits) == []
    decreases |bits|
  {
    var n := |bits|;
    if n > 0 {
      var a, b := bits[..n - 1], bits[n - 1];
      assert bits == a + [b];
      forall p | 0 <= p <= n - 1
        ensures !PatternEnds(a, p)
      {
        assert !PatternEnds(bits, p);
        if p >= 8 { assert a[p - 8..p] == bits[p - 8..p]; }
      }
      StillHunting(a);
      HuntStep(a, b);
      FoldIsSync(bits);
    }
  }

  // One more bit while hunting.
  lemma HuntStep(a: seq<Bit>, b: Bit)
    requires HUNTING.After(a) == Frame(false, Fold(0, a), 0) && HUNTING.Bytes(a) == []
    ensures HUNTING.After(a + [b]) == Frame(Fold(0, a + [b]) == SYNC_BYTE, Fold(0, a + [b]), 0)
    ensures HUNTING.Bytes(a + [b]) == if Fold(0, a + [b]) == SYNC_BYTE then [SYNC_BYTE] else []
  {
    var f := HUNTING.After(a);
    FrameAppend(HUNTING, a, [b]);
    FoldAppend(0, a, [b]);
    FoldOne(Fold(0, a), b);
    assert f.After([b]) == f.Next(b).After([]);
    assert f.Bytes([b]) == f.Emit(b) + f.Next(b).Bytes([]);
  }

  /** Byte sync is exact: it fires on the first bit that completes 1,1,0,1,0,1,0,1 and never on
      any other bit, so in particular never within the first seven. */
  lemma HuntFiresAtFirstPattern(bits: seq<Bit>, p: nat)
    requires PatternEnds(bits, p)
    requires forall q :: 0 <= q < p ==> !PatternEnds(bits, q)
    ensures HUNTING.Bytes(bits[..p - 1]) == []
    ensures HUNTING.Bytes(bits[..p]) == [SYNC_BYTE]
    ensures HUNTING.After(bits[..p]) == Frame(true, SYNC_BYTE, 0)
  {
    var a := bits[..p - 1];
    forall q | 0 <= q <= p - 1
      ensures !PatternEnds(a, q)
    {
      assert !PatternEnds(bits, q);
      if q >= 8 { assert a[q - 8..q] == bits[q - 8..q]; }
    }
    StillHunting(a);
    assert bits[..p] == a + [bits[p - 1]];
    HuntStep(a, bits[p - 1]);
    assert bits[..p][p - 8..p] == bits[p - 8..p];
    FoldIsSync(bits[..p]);
  }

  // The last j bits of 0xAB followed by a whole 0xAB.
  function Approach(j: nat): seq<Bit>
    requires j < 8
  {
    LsbFirst(SYNC_BYTE)[8 - j..] + LsbFirst(SYNC_BYTE)
  }

  // No proper rotation of the sync pattern is the pattern itself.
  lemma RotationsDiffer(s: nat)
    requires 1 <= s < 8
    ensures SYNC_BITS[s..] + SYNC_BITS[..s] != SYNC_BITS
  {
    var r := SYNC_BITS[s..] + SYNC_BITS[..s];
    var i := if s == 7 then 2 else if s % 2 == 1 then 1 else 0;
    assert r[i] != SYNC_BITS[i];
  }

  // No other eight bits on the way are the pattern.
  lemma ApproachOnce(t: seq<Bit>, j: nat, q: nat)
    requires j < 8 && 8 <= q < j + 8 && t == SYNC_BITS[8 - j..] + SYNC_BITS
    ensures t[q - 8..q] != SYNC_BITS
  {
    var s := q - j;
    assert t[q - 8..q] == SYNC_BITS[s..] + SYNC_BITS[..s];
    RotationsDiffer(s);
  }

  /** The hunt fires on the last bit of the first whole 0xAB and at no bit before it. */
  lemma HuntFinds(j: nat)
    requires j < 8
    ensures HUNTING.Bytes(Approach(j)) == [SYNC_BYTE]
    ensures HUNTING.After(Approach(j)) == Frame(true, SYNC_BYTE, 0)
  {
    SyncBits();
    var t := Approach(j);
    assert t[j..j + 8] == SYNC_BITS;
    assert PatternEnds(t, j + 8);
    forall q | 8 <= q < j + 8
      ensures !PatternEnds(t, q)
    {
      ApproachOnce(t, j, q);
    }
    HuntFiresAtFirstPattern(t, j + 8);
    assert t[..j + 8] == t;
  }

  /** Framing round trip: after bit sync, the last j < 8 bits of 0xAB, a whole 0xAB and then any
      byte list are delivered as 0xAB followed by exactly that list. */
  lemma FramingRoundTrip(j: nat, bytes: seq<Byte>)
    requires j < 8
    ensures HUNTING.Bytes(Approach(j) + Transmit(bytes)) == [SYNC_BYTE] + bytes
    ensures HUNTING.After(Approach(j) + Transmit(bytes)).bytesync
  {
    HuntFinds(j);
    BytesDelivered(SYNC_BYTE, bytes);
    FrameAppend(HUNTING, Approach(j), Transmit(bytes));
  }
}
