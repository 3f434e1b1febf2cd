/** The 128-byte ring of databuffer.c between the receive thread and the Java side. */
module DataBuffer {
  import opened Words
  import opened RingProtocol

  const BUFFER_SIZE := 128
  const NO_BYTE: Byte := 0xED

  class ByteBuffer {
    const buffer: array<Byte>
    var wrptr: nat
    var rdptr: nat

    ghost predicate Valid()
      reads this
    {
      buffer.Length == BUFFER_SIZE && wrptr < BUFFER_SIZE && rdptr < BUFFER_SIZE
    }

    ghost function Model(): Ring<Byte>
      reads this, buffer
    {
      Ring(buffer[..], wrptr, rdptr)
    }

    // databuffer_init
    constructor ()
      ensures Valid() && fresh(buffer)
      ensures Model() == Ring(seq(128, _ => 0xED), 0, 0)
    {
      wrptr, rdptr := 0, 0;
      var b := new Byte[BUFFER_SIZE];
      buffer := b;
      new;
      var i := 0;
      while i < BUFFER_SIZE
        invariant 0 <= i <= BUFFER_SIZE && wrptr == rdptr == 0
        invariant forall k :: 0 <= k < i ==> buffer[k] == NO_BYTE
      {
        buffer[i] := NO_BYTE;
        i := i + 1;
      }
      assert buffer[..] == seq(BUFFER_SIZE, _ => NO_BYTE);
    }

    // databuffer_put, the part inside the mutex.
    method Put(byterx: Byte)
      requires Valid()
      modifies this`wrptr, buffer
      ensures Valid() && Model() == PutAll(BUFFER_SIZE, old(Model()), [byterx])
    {
      buffer[wrptr] := byterx;
      wrptr := (wrptr + 1) % BUFFER_SIZE;
      assert buffer[..] == Stored(BUFFER_SIZE, old(buffer[..]), old(wrptr), [byterx], 1) by {
        assert Stored(BUFFER_SIZE, old(buffer[..]), old(wrptr), [byterx], 0) == old(buffer[..]);
      }
    }

    // The tail of databuffer_get, after the mutex is released.
    method Take() returns (retval: Byte)
      requires Valid()
      modifies this`rdptr
      ensures Valid()
      ensures retval == old(buffer[rdptr]) && Model() == Taken(BUFFER_SIZE, old(Model()))
    {
      retval := buffer[rdptr];
      rdptr := (rdptr + 1) % BUFFER_SIZE;
    }
  }

  // The ring as databuffer_init leaves it, with both threads outside.
  const EMPTY_RING: System<Byte> := Initial(BUFFER_SIZE, seq(BUFFER_SIZE, _ => NO_BYTE))

  /** Every byte reaches the reader once and in order, over every interleaving. */
  lemma BytesReachReader(actions: seq<Action<Byte>>)
    requires Runs(BUFFER_SIZE, EMPTY_RING, actions)
    ensures var t := Final(BUFFER_SIZE, EMPTY_RING, actions);
            && t.got <= Handed(actions)
            && (t.producer.Away? && LooksEmpty(t.ring) ==> t.got == Handed(actions))
  {
    RunIsFifo(BUFFER_SIZE, EMPTY_RING.ring.buffer, actions);
    LooksEmptyIff(BUFFER_SIZE, Final(BUFFER_SIZE, EMPTY_RING, actions));
  }
}
