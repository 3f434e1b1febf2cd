/** The RTP sender of udp.c: a 12-byte header kept in the packet buffer and rewritten after every send.
    Field layout: RFC 3550, section 5.1. */
module Rtp {
  import opened Words

  type Octet = b: int | 0 <= b < 256

  const HDR2 := 1
  const SSEQ := 2
  const TIMESTAMP := 4
  const SYNCSRC := 8
  const RTP_HDRLEN := 12
  const BUFFER_LEN := 484
  const MARK := 0x80
  const CODEC_NONE := -1

  // The low k bytes of x as the source stores them, high byte first.
  function Stored(x: int, k: nat): (b: seq<Octet>)
    ensures |b| == k
    decreases k
  {
    if k == 0 then [] else Stored(x / 256, k - 1) + [x % 256]
  }

  // The number such bytes stand for.
  function Value(b: seq<Octet>): nat
    decreases |b|
  {
    if b == [] then 0 else Value(b[..|b| - 1]) * 256 + b[|b| - 1]
  }

  // b | MARK and b & ~MARK
  function SetMark(b: Octet): Octet {
    if b < MARK then b + MARK else b
  }

  function ClearMark(b: Octet): Octet {
    b % MARK
  }

  /** The header in buffer order: flags, marker and payload type, sequence number, timestamp,
      synchronization source. */
  datatype Header = Header(first: Octet, second: Octet, number: seq<Octet>, stamp: seq<Octet>, ssrc: seq<Octet>) {

    function Bytes(): seq<Octet> {
      [first, second] + number + stamp + ssrc
    }

    predicate WellFormed() {
      |number| == 2 && |stamp| == 4 && |ssrc| == 4
    }

    function Sequence(): nat {
      Value(number)
    }

    function Timestamp(): nat {
      Value(stamp)
    }

    predicate Marked() {
      second >= MARK
    }

    function PayloadType(): int {
      second % MARK
    }

    // What is left alone by the sender.
    predicate SameStream(other: Header) {
      first == other.first && PayloadType() == other.PayloadType() && ssrc == other.ssrc
    }

    // The bytes the source stores for a sequence number and a timestamp.
    function WithCounters(sequence: int, timestamp: int): Header {
      this.(number := Stored(sequence, |number|), stamp := Stored(timestamp, |stamp|))
    }

    // The header of the next packet, when this one carried `length` payload bytes.
    function Next(length: nat): Header {
      this.(second := ClearMark(second)).WithCounters(Sequence() + 1, Timestamp() + length)
    }
  }

  // ---------------------------------------------------------------- counters in bytes

  // 256 to the k-th.
  function Turn(k: nat): (t: nat)
    ensures t > 0
  {
    if k == 0 then 1 else 256 * Turn(k - 1)
  }

  // The number x keeps in k bytes.
  function Low(x: int, k: nat): nat
    decreases k
  {
    if k == 0 then 0 else Low(x / 256, k - 1) * 256 + x % 256
  }

  lemma Turns()
    ensures Turn(2) == 0x1_0000 && Turn(4) == 0x1_0000_0000
  {
  }

  // The low byte of a remainder, and what is above it.
  lemma RemainderByBytes(x: int, m: nat, y: int, q: int, r: int)
    requires m > 0 && y == x / 256 && q == y / m && r == y % m
    ensures x % (256 * m) == 256 * r + x % 256
  {
    assert y == m * q + r;
    assert 256 * y == 256 * (m * q) + 256 * r;
    assert (256 * m) * q == 256 * (m * q);
    MultiplesApart(256, r, m);
    DivModUnique(x, 256 * m, q, 256 * r + x % 256);
  }

  lemma {:induction false} LowIsRemainder(x: int, k: nat)
    ensures Low(x, k) == x % Turn(k)
    decreases k
  {
    if k > 0 {
      var m, y := Turn(k - 1), x / 256;
      LowIsRemainder(y, k - 1);
      RemainderByBytes(x, m, y, y / m, y % m);
    }
  }

  // Stored bytes read back as the number modulo 256 to the k-th.
  lemma {:induction false} ValueOfStored(x: int, k: nat)
    ensures Value(Stored(x, k)) == Low(x, k)
    decreases k
  {
    if k > 0 {
      assert Stored(x, k)[..k - 1] == Stored(x / 256, k - 1);
      ValueOfStored(x / 256, k - 1);
    }
  }

  // And bytes read and stored again are the same bytes.
  lemma {:induction false} StoredOfValue(b: seq<Octet>)
    ensures Stored(Value(b), |b|) == b
    decreases |b|
  {
    if b != [] {
      var n := |b| - 1;
      StoredOfValue(b[..n]);
      assert Value(b) / 256 == Value(b[..n]) && Value(b) % 256 == b[n];
      assert b == b[..n] + [b[n]];
    }
  }

  // So only the remainder matters to what is stored.
  lemma SameStored(x: int, y: int, k: nat)
    requires Low(x, k) == Low(y, k)
    ensures Stored(x, k) == Stored(y, k)
  {
    ValueOfStored(x, k);
    ValueOfStored(y, k);
    StoredOfValue(Stored(x, k));
    StoredOfValue(Stored(y, k));
  }

  // Sequence numbers keep 16 bits and timestamps 32.
  lemma LowWord(x: int, k: nat)
    requires k == 2
    ensures Low(x, k) == x % 0x1_0000
  {
    LowIsRemainder(x, k);
    Turns();
  }

  lemma LowLong(x: int, k: nat)
    requires k == 4
    ensures Low(x, k) == x % 0x1_0000_0000
  {
    LowIsRemainder(x, k);
    Turns();
  }

  lemma LowAdd(a: int, b: int, k: nat)
    ensures Low(Low(a, k) + b, k) == Low(a + b, k)
  {
    LowIsRemainder(a, k);
    LowIsRemainder(Low(a, k) + b, k);
    LowIsRemainder(a + b, k);
    ModAdd(a, b, Turn(k));
  }

  lemma LowTwice(x: int, k: nat)
    ensures Low(Low(x, k), k) == Low(x, k)
  {
    LowAdd(x, 0, k);
  }

  lemma StoredCounters(h: Header, sequence: int, timestamp: int)
    ensures h.WithCounters(sequence, timestamp).Sequence() == Low(sequence, |h.number|)
    ensures h.WithCounters(sequence, timestamp).Timestamp() == Low(timestamp, |h.stamp|)
  {
    ValueOfStored(sequence, |h.number|);
    ValueOfStored(timestamp, |h.stamp|);
  }

  /** Whatever 16-bit sequence number (signed or not) and 32-bit timestamp are stored, the header's
      fields read back as those numbers modulo 2^16 and 2^32. */
  lemma CountersReadBack(h: Header, sequence: int, timestamp: int)
    requires h.WellFormed()
    ensures h.WithCounters(sequence, timestamp).Sequence() == sequence % 0x1_0000
    ensures h.WithCounters(sequence, timestamp).Timestamp() == timestamp % 0x1_0000_0000
  {
    StoredCounters(h, sequence, timestamp);
    LowWord(sequence, |h.number|);
    LowLong(timestamp, |h.stamp|);
  }

  // The source's counter, a signed 16-bit one, has the low bytes of the exact one.
  lemma SignedKeepsLow(x: int, k: nat)
    requires k == 2
    ensures Low(ToInt16(x), k) == Low(x, k)
  {
    Int16KeepsLowBits(x);
    LowWord(x, k);
    LowWord(ToInt16(x), k);
  }

  // The source's counters one packet on, stored, are the next header's.
  lemma NextHeader(h: Header, sequence: int, t: int, length: nat)
    requires |h.number| == 2 && h.Sequence() == Low(sequence, |h.number|)
    requires t == Low(h.Timestamp() + length, |h.stamp|)
    ensures h.(second := ClearMark(h.second)).WithCounters(ToInt16(sequence + 1), t) == h.Next(length)
  {
    NextNumber(h.Sequence(), sequence, |h.number|);
    NextStamp(h.Timestamp() + length, |h.stamp|);
  }

  // The same on the words themselves.
  lemma NextHeaderWords(h: Header, sequence: int, length: nat)
    requires h.WellFormed() && h.Sequence() == sequence % 0x1_0000
    ensures var s, t := ToInt16(sequence + 1), (h.Timestamp() + length) % 0x1_0000_0000;
            h.(second := ClearMark(h.second)).WithCounters(s, t) == h.Next(length)
  {
    LowWord(sequence, |h.number|);
    LowLong(h.Timestamp() + length, |h.stamp|);
    NextHeader(h, sequence, (h.Timestamp() + length) % 0x1_0000_0000, length);
  }

  lemma NextStamp(x: int, k: nat)
    ensures Stored(Low(x, k), k) == Stored(x, k)
  {
    LowTwice(x, k);
    SameStored(Low(x, k), x, k);
  }

  lemma NextNumber(q: int, sequence: int, k: nat)
    requires k == 2 && q == Low(sequence, k)
    ensures Stored(ToInt16(sequence + 1), k) == Stored(q + 1, k)
  {
    SignedKeepsLow(sequence + 1, k);
    LowAdd(sequence, 1, k);
    SameStored(ToInt16(sequence + 1), q + 1, k);
  }

  // (x >> 8 k) & 0xff
  function Digit(x: int, k: nat): Octet
    decreases k
  {
    if k == 0 then x % 256 else Digit(x / 256, k - 1)
  }

  // The bytes of a 16-bit and of a 32-bit word, written out.
  function Word16(hi: int, lo: int): int {
    hi * 0x100 + lo
  }

  function Word32(a: int, b: int, c: int, d: int): int {
    a * 0x100_0000 + b * 0x1_0000 + c * 0x100 + d
  }

  lemma {:induction false} DigitsStored(x: int, k: nat, i: nat)
    requires i < k
    ensures Stored(x, k)[i] == Digit(x, k - 1 - i)
    decreases k
  {
    if i < k - 1 {
      DigitsStored(x / 256, k - 1, i);
    }
  }

  lemma TwoStored(b: seq<Octet>, x: int, k: nat)
    requires |b| == k == 2 && b[0] == Digit(x, 1) && b[1] == Digit(x, 0)
    ensures b == Stored(x, k)
  {
  }

  lemma FourStored(b: seq<Octet>, x: int, k: nat)
    requires |b| == k == 4 && b[0] == Digit(x, 3) && b[1] == Digit(x, 2) && b[2] == Digit(x, 1) && b[3] == Digit(x, 0)
    ensures b == Stored(x, k)
  {
  }

  lemma ValueOfTwo(b: seq<Octet>)
    requires |b| == 2
    ensures Value(b) == Word16(b[0], b[1])
  {
    assert b[..1][..0] == [];
    assert Value(b[..1]) == Value([]) * 256 + b[0];
  }

  lemma ValueOfFour(b: seq<Octet>)
    requires |b| == 4
    ensures Value(b) == Word32(b[0], b[1], b[2], b[3])
  {
    assert b[..3][..2] == b[..2];
    ValueOfTwo(b[..2]);
    assert Value(b[..3]) == Value(b[..2]) * 256 + b[2];
  }

  // ---------------------------------------------------------------- the sender

  // The first twelve bytes of the buffer once the header is copied over what it held.
  function Overlaid(header: seq<Octet>, memory: seq<Octet>): (h: seq<Octet>)
    requires |memory| >= RTP_HDRLEN
    ensures |h| == RTP_HDRLEN
    ensures |header| == RTP_HDRLEN ==> h == header
  {
    seq(RTP_HDRLEN, i requires 0 <= i < RTP_HDRLEN => if i < |header| then header[i] else memory[i])
  }

  lemma MarkedHeader(header: seq<Octet>, memory: seq<Octet>, copied: seq<Octet>)
    requires |header| <= BUFFER_LEN == |memory| == |copied|
    requires forall i :: 0 <= i < BUFFER_LEN ==> copied[i] == if i < |header| then header[i] else memory[i]
    ensures var h := Overlaid(header, memory);
            copied[HDR2 := SetMark(copied[HDR2])][..RTP_HDRLEN] == h[1 := h[1] % 128 + 128]
  {
  }

  class Sender {
    var sequence: int
    var timestamp: int
    var codec: int
    const buffer: array<Octet>

    ghost function Model(): Header
      requires buffer.Length == BUFFER_LEN
      reads this, buffer
    {
      Header(buffer[0], buffer[HDR2], buffer[SSEQ..TIMESTAMP], buffer[TIMESTAMP..SYNCSRC], buffer[SYNCSRC..RTP_HDRLEN])
    }

    // The bytes in the buffer decode to the counters; without a codec there is no buffer.
    ghost predicate Valid()
      reads this, buffer
    {
      codec != CODEC_NONE ==>
        && buffer.Length == BUFFER_LEN
        && IsInt16(sequence) && Model().Sequence() == sequence % 0x1_0000
        && timestamp == Model().Timestamp()
    }

    lemma ModelBytes()
      requires buffer.Length == BUFFER_LEN
      ensures Model().Bytes() == buffer[..RTP_HDRLEN]
    {
    }

    // InitUDP: the header's bytes over what the allocated memory held, with the marker set.
    constructor (header: seq<Octet>, memory: seq<Octet>, codecType: int)
      requires |header| <= BUFFER_LEN == |memory|
      ensures Valid() && fresh(buffer) && codec == codecType
      ensures codecType != CODEC_NONE ==>
                var h := Overlaid(header, memory);
                Model().Bytes() == h[1 := h[1] % 128 + 128]
    {
      hide Value, Word16, Word32, ToInt16, Overlaid, SetMark;
      codec := codecType;
      sequence, timestamp := 0, 0;
      if codecType == CODEC_NONE {
        buffer := new Octet[0];
      } else {
        var b := new Octet[BUFFER_LEN](i =>
          if 0 <= i < |header| then header[i] else if 0 <= i < |memory| then memory[i] else 0);
        ghost var copied := b[..];
        b[HDR2] := SetMark(b[HDR2]);
        MarkedHeader(header, memory, copied);
        assert b[..] == copied[HDR2 := SetMark(copied[HDR2])];
        assert b[..RTP_HDRLEN] == b[..][..RTP_HDRLEN];
        buffer := b;
        sequence := ToInt16(Word16(b[SSEQ], b[SSEQ + 1]));
        timestamp := Word32(b[TIMESTAMP], b[TIMESTAMP + 1], b[TIMESTAMP + 2], b[TIMESTAMP + 3]);
      }
      new;
      if codec != CODEC_NONE {
        ModelBytes();
        CountersDecoded();
      }
    }

    lemma CountersDecoded()
      requires buffer.Length == BUFFER_LEN
      ensures Model().Sequence() == ToInt16(Word16(buffer[SSEQ], buffer[SSEQ + 1])) % 0x1_0000
      ensures Model().Timestamp()
           == Word32(buffer[TIMESTAMP], buffer[TIMESTAMP + 1], buffer[TIMESTAMP + 2], buffer[TIMESTAMP + 3])
    {
      var h := Model();
      ValueOfTwo(h.number);
      Int16KeepsLowBits(Word16(buffer[SSEQ], buffer[SSEQ + 1]));
      ValueOfFour(h.stamp);
    }

    // PCMEncode writes its bytes behind the header.
    method StorePayload(payload: seq<Octet>)
      requires buffer.Length == BUFFER_LEN && RTP_HDRLEN + |payload| <= BUFFER_LEN
      modifies buffer
      ensures buffer[..RTP_HDRLEN] == old(buffer[..RTP_HDRLEN])
      ensures buffer[RTP_HDRLEN..RTP_HDRLEN + |payload|] == payload
    {
      var i := 0;
      while i < |payload|
        invariant 0 <= i <= |payload|
        invariant buffer[..RTP_HDRLEN] == old(buffer[..RTP_HDRLEN])
        invariant buffer[RTP_HDRLEN..RTP_HDRLEN + i] == payload[..i]
      {
        buffer[RTP_HDRLEN + i] := payload[i];
        i := i + 1;
      }
    }

    // The marker is cleared and the counters are written into the header.
    method StoreCounters()
      requires buffer.Length == BUFFER_LEN
      modifies buffer
      ensures Model() == old(Model().(second := ClearMark(Model().second)).WithCounters(sequence, timestamp))
    {
      buffer[HDR2] := ClearMark(buffer[HDR2]);
      buffer[SSEQ] := Digit(sequence, 1);
      buffer[SSEQ + 1] := Digit(sequence, 0);
      buffer[TIMESTAMP] := Digit(timestamp, 3);
      buffer[TIMESTAMP + 1] := Digit(timestamp, 2);
      buffer[TIMESTAMP + 2] := Digit(timestamp, 1);
      buffer[TIMESTAMP + 3] := Digit(timestamp, 0);
      TwoStored(Model().number, sequence, |Model().number|);
      FourStored(Model().stamp, timestamp, |Model().stamp|);
    }

    // What SendUDPPacket does after Send.
    method AdvanceHeader(length: nat)
      requires Valid() && codec != CODEC_NONE
      modifies this`sequence, this`timestamp, buffer
      ensures Valid() && Model() == old(Model()).Next(length)
    {
      hide Value, Stored;
      ghost var h := Model();
      NextHeaderWords(h, sequence, length);
      timestamp := (timestamp + length) % 0x1_0000_0000;
      sequence := ToInt16(sequence + 1);
      CountersReadBack(h.(second := ClearMark(h.second)), sequence, timestamp);
      StoreCounters();
    }

    // SendUDPPacket, with the bytes PCMEncode produced; the result is what is passed to Send.
    method SendUDPPacket(payload: seq<Octet>) returns (packet: seq<Octet>)
      requires Valid() && (codec != CODEC_NONE ==> RTP_HDRLEN + |payload| <= BUFFER_LEN)
      modifies this`sequence, this`timestamp, buffer
      ensures Valid()
      ensures codec == CODEC_NONE ==> packet == [] && unchanged(this) && unchanged(buffer)
      ensures codec != CODEC_NONE ==>
                && packet == old(Model()).Bytes() + payload && Model() == old(Model()).Next(|payload|)
                && Model().second == packet[1] % 128
    {
      // without a codec the encoder writes to standard output and nothing is sent
      if codec == CODEC_NONE {
        return [];
      }
      ModelBytes();
      StorePayload(payload);
      ModelBytes();
      SameBytes(Model(), old(Model()));
      packet := buffer[..|payload| + RTP_HDRLEN];
      assert packet == buffer[..RTP_HDRLEN] + buffer[RTP_HDRLEN..RTP_HDRLEN + |payload|];
      AdvanceHeader(|payload|);
    }

    // The packet after those with the payloads `before`.
    method SendNext(ghost start: Header, ghost before: seq<seq<Octet>>, payload: seq<Octet>)
      returns (packet: seq<Octet>)
      requires Valid() && codec != CODEC_NONE && RTP_HDRLEN + |payload| <= BUFFER_LEN
      requires Model() == HeaderAt(start, PayloadLengths(before))
      modifies this`sequence, this`timestamp, buffer
      ensures Valid() && Model() == HeaderAt(start, PayloadLengths(before + [payload]))
      ensures Packets(start, before + [payload]) == Packets(start, before) + [packet]
    {
      hide *;
      NextPacket(start, before, payload);
      packet := SendUDPPacket(payload);
    }

    // One packet after another, as the timer thread sends them from the start of a stream.
    method SendAll(ghost start: Header, payloads: seq<seq<Octet>>) returns (packets: seq<seq<Octet>>)
      requires Valid() && codec != CODEC_NONE && Model() == HeaderAt(start, [])
      requires forall i :: 0 <= i < |payloads| ==> RTP_HDRLEN + |payloads[i]| <= BUFFER_LEN
      modifies this`sequence, this`timestamp, buffer
      ensures Valid() && Model() == HeaderAt(start, PayloadLengths(payloads))
      ensures packets == Packets(start, payloads)
    {
      packets := [];
      assert payloads[..0] == [] && PayloadLengths([]) == [] && Packets(start, []) == [];
      hide Value, Stored, HeaderAt, Packets, PayloadLengths;
      var n := 0;
      while n < |payloads|
        invariant 0 <= n <= |payloads|
        invariant Valid() && Model() == HeaderAt(start, PayloadLengths(payloads[..n]))
        invariant packets == Packets(start, payloads[..n])
      {
        PrefixGrows(payloads, n);
        var packet := SendNext(start, payloads[..n], payloads[n]);
        packets := packets + [packet];
        n := n + 1;
      }
      assert payloads[..n] == payloads;
    }
  }

  // Equal bytes are equal headers.
  lemma SameBytes(g: Header, h: Header)
    requires g.WellFormed() && h.WellFormed() && g.Bytes() == h.Bytes()
    ensures g == h
  {
    var a, b := g.Bytes(), h.Bytes();
    assert a[0] == b[0] && a[1] == b[1];
    assert a[2..4] == g.number && b[2..4] == h.number;
    assert a[4..8] == g.stamp && b[4..8] == h.stamp;
    assert a[8..] == g.ssrc && b[8..] == h.ssrc;
  }

  // ---------------------------------------------------------------- runs

  function PayloadLengths(payloads: seq<seq<Octet>>): seq<nat> {
    seq(|payloads|, i requires 0 <= i < |payloads| => |payloads[i]|)
  }

  // What is sent, packet by packet: each header is the stream's, and the payload follows it.
  function Packets(start: Header, payloads: seq<seq<Octet>>): (packets: seq<seq<Octet>>)
    ensures |packets| == |payloads|
    decreases |payloads|
  {
    if payloads == [] then []
    else
      var before, last := payloads[..|payloads| - 1], payloads[|payloads| - 1];
      Packets(start, before) + [HeaderAt(start, PayloadLengths(before)).Bytes() + last]
  }

  lemma NextPacket(start: Header, before: seq<seq<Octet>>, payload: seq<Octet>)
    ensures var h := HeaderAt(start, PayloadLengths(before));
            && HeaderAt(start, PayloadLengths(before + [payload])) == h.Next(|payload|)
            && Packets(start, before + [payload]) == Packets(start, before) + [h.Bytes() + payload]
  {
    assert (before + [payload])[..|before|] == before;
    assert PayloadLengths(before + [payload])[..|before|] == PayloadLengths(before);
  }

  // The header of packet n, when the packets before it had the given payload lengths.
  function HeaderAt(start: Header, lengths: seq<nat>): Header
    decreases |lengths|
  {
    if lengths == [] then start.(second := SetMark(start.second))
    else HeaderAt(start, lengths[..|lengths| - 1]).Next(lengths[|lengths| - 1])
  }

  function Total(lengths: seq<nat>): nat
    decreases |lengths|
  {
    if lengths == [] then 0 else Total(lengths[..|lengths| - 1]) + lengths[|lengths| - 1]
  }

  // Counters that are stored and advanced are the advanced counters, stored.
  lemma AdvanceStored(x: int, d: int, k: nat)
    ensures Stored(Value(Stored(x, k)) + d, k) == Stored(x + d, k)
  {
    ValueOfStored(x, k);
    LowAdd(x, d, k);
    SameStored(Low(x, k) + d, x + d, k);
  }

  lemma NextOfStored(g: Header, sequence: int, timestamp: int, length: nat)
    ensures g.WithCounters(sequence, timestamp).Next(length)
         == g.(second := ClearMark(g.second)).WithCounters(sequence + 1, timestamp + length)
  {
    AdvanceStored(sequence, 1, |g.number|);
    AdvanceStored(timestamp, length, |g.stamp|);
  }

  // The header the n-th packet starts from.
  function Flagged(start: Header, n: nat): Header {
    start.(second := if n == 0 then SetMark(start.second) else ClearMark(start.second))
  }

  lemma FlaggedCleared(start: Header, n: nat)
    ensures Flagged(start, n).(second := ClearMark(Flagged(start, n).second)) == Flagged(start, n + 1)
  {
  }

  lemma StartStored(start: Header)
    ensures Flagged(start, 0) == Flagged(start, 0).WithCounters(start.Sequence(), start.Timestamp())
  {
    StoredOfValue(start.number);
    StoredOfValue(start.stamp);
  }

  lemma {:induction false} HeaderClosedForm(start: Header, lengths: seq<nat>)
    ensures HeaderAt(start, lengths)
         == Flagged(start, |lengths|).WithCounters(start.Sequence() + |lengths|, start.Timestamp() + Total(lengths))
    decreases |lengths|
  {
    hide Value, Stored;
    if lengths == [] {
      StartStored(start);
    } else {
      var n := |lengths| - 1;
      HeaderClosedForm(start, lengths[..n]);
      NextOfStored(Flagged(start, n), start.Sequence() + n, start.Timestamp() + Total(lengths[..n]), lengths[n]);
      FlaggedCleared(start, n);
    }
  }

  lemma StreamWords(start: Header, lengths: seq<nat>)
    requires start.WellFormed()
    ensures HeaderAt(start, lengths).Sequence() == (start.Sequence() + |lengths|) % 0x1_0000
    ensures HeaderAt(start, lengths).Timestamp() == (start.Timestamp() + Total(lengths)) % 0x1_0000_0000
  {
    hide Value, Stored, HeaderAt, Total;
    HeaderClosedForm(start, lengths);
    CountersReadBack(Flagged(start, |lengths|), start.Sequence() + |lengths|, start.Timestamp() + Total(lengths));
  }

  lemma FlaggedFlags(start: Header, n: nat)
    ensures Flagged(start, n).Marked() <==> n == 0
    ensures Flagged(start, n).SameStream(start)
  {
  }

  lemma StreamFlags(start: Header, lengths: seq<nat>)
    ensures HeaderAt(start, lengths).Marked() <==> lengths == []
    ensures HeaderAt(start, lengths).SameStream(start)
  {
    HeaderClosedForm(start, lengths);
    FlaggedFlags(start, |lengths|);
  }

  /** Packet n of a stream carries sequence number s0 + n mod 2^16, timestamp t0 plus the lengths of all
      earlier payloads mod 2^32, and the marker on the first packet only; the first byte, the payload
      type and the synchronization source never change. */
  lemma StreamHeaders(start: Header, lengths: seq<nat>)
    requires start.WellFormed()
    ensures HeaderAt(start, lengths).Sequence() == (start.Sequence() + |lengths|) % 0x1_0000
    ensures HeaderAt(start, lengths).Timestamp() == (start.Timestamp() + Total(lengths)) % 0x1_0000_0000
    ensures HeaderAt(start, lengths).Marked() <==> lengths == []
    ensures HeaderAt(start, lengths).SameStream(start)
  {
    StreamWords(start, lengths);
    StreamFlags(start, lengths);
  }

  // ---------------------------------------------------------------- the bytes on the wire

  lemma {:induction false} PacketAt(start: Header, payloads: seq<seq<Octet>>, n: nat)
    requires n < |payloads|
    ensures Packets(start, payloads)[n] == HeaderAt(start, PayloadLengths(payloads[..n])).Bytes() + payloads[n]
    decreases |payloads|
  {
    hide HeaderAt, PayloadLengths;
    var last := |payloads| - 1;
    if n < last {
      PacketAt(start, payloads[..last], n);
      assert payloads[..last][..n] == payloads[..n];
    }
  }

  lemma LengthsCount(payloads: seq<seq<Octet>>, n: nat)
    requires n <= |payloads|
    ensures |PayloadLengths(payloads[..n])| == n
  {
  }

  lemma StreamShape(start: Header, lengths: seq<nat>)
    requires start.WellFormed()
    ensures HeaderAt(start, lengths).WellFormed()
    ensures HeaderAt(start, lengths).first == start.first && HeaderAt(start, lengths).ssrc == start.ssrc
    ensures HeaderAt(start, lengths).second == start.second % 128 + (if lengths == [] then 128 else 0)
  {
    hide Value, Stored, HeaderAt, Total;
    HeaderClosedForm(start, lengths);
  }

  // A header's bytes: the two flag bytes, two 16-bit and 32-bit numbers high byte first, and the source.
  lemma HeaderBytes(h: Header)
    requires h.WellFormed()
    ensures var p := h.Bytes(); var b2: int, b4: int, b5: int, b6: int := p[2], p[4], p[5], p[6];
            && |p| == 12 && p[0] == h.first && p[1] == h.second && p[8..12] == h.ssrc
            && b2 * 256 + p[3] == h.Sequence()
            && b4 * 16777216 + b5 * 65536 + b6 * 256 + p[7] == h.Timestamp()
  {
    ValueOfTwo(h.number);
    ValueOfFour(h.stamp);
  }

  /** The packet as RFC 3550, section 5.1, lays it out: packet n of a stream that starts from a 12-byte header
      carries its first byte, its payload type under the marker bit 128 of packet 0 only, the sequence number
      and the timestamp high byte first, its synchronization source, and then the payload. */
  lemma PacketLayout(start: Header, payloads: seq<seq<Octet>>, n: nat)
    requires start.WellFormed() && n < |payloads|
    ensures var p := Packets(start, payloads)[n];
            && |p| == 12 + |payloads[n]| && p[12..] == payloads[n]
            && p[0] == start.Bytes()[0] && p[8..12] == start.Bytes()[8..12]
            && p[1] == start.Bytes()[1] % 128 + (if n == 0 then 128 else 0)
    ensures var p, s := Packets(start, payloads)[n], start.Bytes();
            var b2: int, b4: int, b5: int, b6: int := p[2], p[4], p[5], p[6];
            var s2: int, s4: int, s5: int, s6: int := s[2], s[4], s[5], s[6];
            && b2 * 256 + p[3] == (s2 * 256 + s[3] + n) % 65536
            && b4 * 16777216 + b5 * 65536 + b6 * 256 + p[7]
            == (s4 * 16777216 + s5 * 65536 + s6 * 256 + s[7] + Total(PayloadLengths(payloads[..n]))) % 4294967296
  {
    hide Value, Stored, HeaderAt, Total, Packets, PayloadLengths;
    var lengths := PayloadLengths(payloads[..n]);
    assert |lengths| == n by { LengthsCount(payloads, n); }
    var h := HeaderAt(start, lengths);
    PacketAt(start, payloads, n);
    StreamShape(start, lengths);
    StreamWords(start, lengths);
    HeaderBytes(h);
    HeaderBytes(start);
    LayoutOf(Packets(start, payloads)[n], h, payloads[n]);
  }

  lemma TotalNext(payloads: seq<seq<Octet>>, n: nat)
    requires n < |payloads|
    ensures Total(PayloadLengths(payloads[..n + 1])) == Total(PayloadLengths(payloads[..n])) + |payloads[n]|
  {
    assert PayloadLengths(payloads[..n + 1])[..n] == PayloadLengths(payloads[..n]);
  }

  lemma Remainders(a: int, t: int, d: int)
    ensures ((a + t) % 4294967296 + d) % 4294967296 == (a + (t + d)) % 4294967296
    ensures ((a + t) % 65536 + d) % 65536 == (a + (t + d)) % 65536
  {
  }

  /** From one packet to the next, the sequence number goes up by one and the timestamp by the length of the
      payload just sent. */
  lemma PacketsFollow(start: Header, payloads: seq<seq<Octet>>, n: nat)
    requires start.WellFormed() && n + 1 < |payloads|
    ensures |Packets(start, payloads)[n]| >= 12 && |Packets(start, payloads)[n + 1]| >= 12
    ensures var p, q := Packets(start, payloads)[n], Packets(start, payloads)[n + 1];
            var p2: int, p4: int, p5: int, p6: int := p[2], p[4], p[5], p[6];
            var q2: int, q4: int, q5: int, q6: int := q[2], q[4], q[5], q[6];
            && q2 * 256 + q[3] == (p2 * 256 + p[3] + 1) % 65536
            && q4 * 16777216 + q5 * 65536 + q6 * 256 + q[7]
            == (p4 * 16777216 + p5 * 65536 + p6 * 256 + p[7] + |payloads[n]|) % 4294967296
  {
    hide Packets, PayloadLengths, Total;
    PacketLayout(start, payloads, n);
    PacketLayout(start, payloads, n + 1);
    TotalNext(payloads, n);
    HeaderBytes(start);
    Remainders(start.Sequence(), n, 1);
    Remainders(start.Timestamp(), Total(PayloadLengths(payloads[..n])), |payloads[n]|);
  }

  lemma LayoutOf(p: seq<Octet>, h: Header, payload: seq<Octet>)
    requires h.WellFormed() && p == h.Bytes() + payload
    ensures |p| == 12 + |payload| && p[..12] == h.Bytes() && p[12..] == payload
    ensures forall k :: 0 <= k < 12 ==> p[k] == h.Bytes()[k]
    ensures p[8..12] == h.Bytes()[8..12]
  {
  }
}
