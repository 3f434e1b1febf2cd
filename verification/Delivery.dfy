/** From the waveform to the Java side: the receiver's bytes through the byte ring. */
module Delivery {
  import opened Words
  import opened BitClock
  import opened Framer
  import opened Receiver
  import opened Session
  import opened RingProtocol
  import opened DataBuffer

  /** A SAME burst reaches the reader: if the bytes put into the ring are those the receiver delivers
      for a burst at the nominal rate, then in every interleaving within the ring's capacity the reader
      has got a beginning of the fourteen sync bytes and the message, and all of it once the ring is
      drained. */
  lemma SameBurstReachesReader(s: Rx, message: seq<Byte>, phase: nat, actions: seq<Action<Byte>>)
    requires !s.insync && IdleHistory(s.register)
    requires forall m :: 0 <= m < |message| ==> Mixed(message[m])
    requires Runs(BUFFER_SIZE, EMPTY_RING, actions)
    requires Handed(actions) == s.Bytes(Wave(NominalCells(Transmit(Preamble(16) + message), phase)))
    ensures var t := Final(BUFFER_SIZE, EMPTY_RING, actions);
            && t.got <= Preamble(14) + message
            && (t.producer.Away? && LooksEmpty(t.ring) ==> t.got == Preamble(14) + message)
  {
    SameBurstDelivered(s, message, phase);
    BytesReachReader(actions);
  }
}
