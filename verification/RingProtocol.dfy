/** The producer/consumer rings of FSKdsp.c and databuffer.c. Both use one mutex, one condition
    variable and a wait guarded by `if`, and both read the slot and advance rdptr after the mutex is
    released. Every statement that touches shared state is one atomic step here. */
module RingProtocol {
  import opened Words

  datatype Ring<T> = Ring(buffer: seq<T>, wrptr: nat, rdptr: nat)

  // The emptiness test both threads' code uses.
  predicate LooksEmpty<T>(r: Ring<T>) {
    r.rdptr == r.wrptr
  }

  // Items written past wrptr, wrptr itself untouched.
  function Stored<T>(size: nat, buffer: seq<T>, wrptr: nat, batch: seq<T>, done: nat): (b: seq<T>)
    requires size > 0 && |buffer| == size && done <= |batch|
    ensures |b| == size
  {
    if done == 0 then buffer
    else Stored(size, buffer, wrptr, batch, done - 1)[(wrptr + done - 1) % size := batch[done - 1]]
  }

  lemma StoredNone<T>(size: nat, buffer: seq<T>, wrptr: nat, batch: seq<T>)
    requires size > 0 && |buffer| == size
    ensures Stored(size, buffer, wrptr, batch, 0) == buffer
  {
  }

  lemma StoredNext<T>(size: nat, buffer: seq<T>, wrptr: nat, batch: seq<T>, done: nat)
    requires size > 0 && |buffer| == size && done < |batch|
    ensures Stored(size, buffer, wrptr, batch, done + 1)
         == Stored(size, buffer, wrptr, batch, done)[(wrptr + done) % size := batch[done]]
  {
  }

  // What is stored less than a full turn ago is still there.
  lemma {:induction false} StoredAt<T>(size: nat, buffer: seq<T>, wrptr: nat, batch: seq<T>, done: nat, k: nat)
    requires size > 0 && |buffer| == size && k < done <= |batch| && done <= size
    ensures Stored(size, buffer, wrptr, batch, done)[(wrptr + k) % size] == batch[k]
    decreases done
  {
    if k < done - 1 {
      StoredAt(size, buffer, wrptr, batch, done - 1, k);
      SlotsDiffer(wrptr + k, wrptr + done - 1, size);
    }
  }

  // The ring after one whole pass through the producer's critical section.
  function PutAll<T>(size: nat, r: Ring<T>, batch: seq<T>): Ring<T>
    requires size > 0 && |r.buffer| == size
  {
    Ring(Stored(size, r.buffer, r.wrptr, batch, |batch|), (r.wrptr + |batch|) % size, r.rdptr)
  }

  // The ring after one delivery.
  function Taken<T>(size: nat, r: Ring<T>): Ring<T>
    requires size > 0
  {
    r.(rdptr := (r.rdptr + 1) % size)
  }

  datatype Producer<T> =
    | Away                                   // outside the critical section
    | Storing(batch: seq<T>, done: nat)      // mutex held, writing slots past wrptr
    | Published                              // wrptr advanced, signal still to come
    | Signalled                              // about to unlock

  datatype Consumer<T> =
    | Idle                                   // about to lock
    | Testing                                // mutex held, about to compare the pointers
    | Blocked                                // in pthread_cond_wait, mutex released
    | Woken                                  // signalled, must take the mutex again
    | Releasing                              // mutex held, about to unlock
    | Reading                                // about to read the slot at rdptr, no mutex
    | Advancing(value: T)                    // slot read, rdptr still to be advanced

  /** `put` is everything ever published and `got` everything ever delivered. */
  datatype System<T> = System(
    ring: Ring<T>, producer: Producer<T>, consumer: Consumer<T>, put: seq<T>, got: seq<T>)

  datatype Action<T> =
    | Lock(items: seq<T>) | Store | Publish | Signal | Unlock
    | Enter | Test | Reacquire | Release | Read | Advance
    | Spurious

  predicate ProducerHolds<T>(s: System<T>) {
    !s.producer.Away?
  }

  predicate ConsumerHolds<T>(s: System<T>) {
    s.consumer.Testing? || s.consumer.Releasing?
  }

  predicate Enabled<T>(s: System<T>, a: Action<T>) {
    match a
    case Lock(_) => s.producer.Away? && !ConsumerHolds(s)
    case Store => s.producer.Storing? && s.producer.done < |s.producer.batch|
    case Publish => s.producer.Storing? && s.producer.done == |s.producer.batch|
    case Signal => s.producer.Published?
    case Unlock => s.producer.Signalled?
    case Enter => s.consumer.Idle? && !ProducerHolds(s)
    case Test => s.consumer.Testing?
    case Reacquire => s.consumer.Woken? && !ProducerHolds(s)
    case Release => s.consumer.Releasing?
    case Read => s.consumer.Reading?
    case Advance => s.consumer.Advancing?
    case Spurious => s.consumer.Blocked?
  }

  function Do<T>(size: nat, s: System<T>, a: Action<T>): System<T>
    requires size > 0 && |s.ring.buffer| == size && s.ring.rdptr < size
    requires Enabled(s, a)
  {
    match a
    case Lock(items) => s.(producer := Storing(items, 0))
    case Store =>
      var slot, item := (s.ring.wrptr + s.producer.done) % size, s.producer.batch[s.producer.done];
      s.(ring := s.ring.(buffer := s.ring.buffer[slot := item]),
         producer := Storing(s.producer.batch, s.producer.done + 1))
    case Publish =>
      s.(ring := s.ring.(wrptr := (s.ring.wrptr + |s.producer.batch|) % size),
         producer := Published, put := s.put + s.producer.batch)
    case Signal => s.(producer := Signalled, consumer := if s.consumer.Blocked? then Woken else s.consumer)
    case Unlock => s.(producer := Away)
    case Enter => s.(consumer := Testing)
    case Test => s.(consumer := if LooksEmpty(s.ring) then Blocked else Releasing)
    case Reacquire => s.(consumer := Releasing)
    case Release => s.(consumer := Reading)
    case Read => s.(consumer := Advancing(s.ring.buffer[s.ring.rdptr]))
    case Advance =>
      s.(ring := Taken(size, s.ring), consumer := Idle, got := s.got + [s.consumer.value])
    case Spurious => s.(consumer := Woken)
  }

  function Unread<T>(s: System<T>): int {
    |s.put| - |s.got|
  }

  /** What the code needs of its surroundings: a batch is not empty and leaves at least one slot
      free when the producer takes the mutex, and pthread_cond_wait does not wake on its own while the
      producer is outside its critical section. */
  predicate Admissible<T>(size: nat, s: System<T>, a: Action<T>) {
    && (a.Lock? ==> a.items != [] && Unread(s) + |a.items| < size)
    && (a.Spurious? ==> !s.producer.Away?)
  }

  // ---------------------------------------------------------------- the invariant

  // The slots from count `from` on hold the given items.
  ghost predicate Holds<T>(size: nat, buffer: seq<T>, from: nat, items: seq<T>)
    requires size > 0 && |buffer| == size
  {
    forall k :: 0 <= k < |items| ==> buffer[(from + k) % size] == items[k]
  }

  function Queue<T>(s: System<T>): seq<T>
    requires |s.got| <= |s.put|
  {
    s.put[|s.got|..]
  }

  // Pointers are total counts, and the unread items lie in their slots.
  ghost predicate RingInv<T>(size: nat, s: System<T>) {
    && size > 0 && |s.ring.buffer| == size
    && |s.got| <= |s.put| && s.got == s.put[..|s.got|]
    && s.ring.wrptr == |s.put| % size
    && s.ring.rdptr == |s.got| % size
    && Unread(s) < size
    && Holds(size, s.ring.buffer, |s.got|, Queue(s))
  }

  // The part of a batch already stored lies behind the unread items.
  ghost predicate ProducerInv<T>(size: nat, s: System<T>)
    requires RingInv(size, s)
  {
    s.producer.Storing? ==>
      && s.producer.batch != [] && s.producer.done <= |s.producer.batch|
      && Unread(s) + |s.producer.batch| < size
      && Holds(size, s.ring.buffer, |s.put|, s.producer.batch[..s.producer.done])
  }

  // A consumer past the wait has something to read, or will have before it gets the mutex; one in the wait
  // has nothing, or is about to be told.
  ghost predicate ConsumerInv<T>(size: nat, s: System<T>)
    requires RingInv(size, s)
  {
    && !(ProducerHolds(s) && ConsumerHolds(s))
    && (s.consumer.Releasing? || s.consumer.Reading? || s.consumer.Advancing? ==> Unread(s) > 0)
    && (s.consumer.Woken? ==> Unread(s) > 0 || s.producer.Storing?)
    && (s.consumer.Advancing? ==> s.consumer.value == Queue(s)[0])
    && (s.consumer.Blocked? ==> !s.producer.Signalled? && (s.producer.Published? <==> Unread(s) > 0))
  }

  ghost predicate Inv<T>(size: nat, s: System<T>) {
    RingInv(size, s) && ProducerInv(size, s) && ConsumerInv(size, s)
  }

  // Before the first step: both threads outside, both pointers at 0, anything in the slots.
  function Initial<T>(size: nat, buffer: seq<T>): (s: System<T>)
    requires size > 0 && |buffer| == size
    ensures Inv(size, s)
  {
    System(Ring(buffer, 0, 0), Away, Idle, [], [])
  }

  lemma HoldsJoin<T>(size: nat, buffer: seq<T>, from: nat, a: seq<T>, b: seq<T>)
    requires size > 0 && |buffer| == size
    requires Holds(size, buffer, from, a) && Holds(size, buffer, from + |a|, b)
    ensures Holds(size, buffer, from, a + b)
  {
  }

  lemma HoldsTail<T>(size: nat, buffer: seq<T>, from: nat, items: seq<T>)
    requires size > 0 && |buffer| == size && items != []
    requires Holds(size, buffer, from, items)
    ensures Holds(size, buffer, from + 1, items[1..]) && buffer[from % size] == items[0]
  {
  }

  // A write less than a full turn ahead of the first item and past the last leaves the items alone.
  lemma HoldsPastWrite<T>(size: nat, buffer: seq<T>, from: nat, items: seq<T>, n: nat, x: T)
    requires size > 0 && |buffer| == size && from + |items| <= n < from + size
    requires Holds(size, buffer, from, items)
    ensures Holds(size, buffer[n % size := x], from, items)
  {
    forall k | 0 <= k < |items|
      ensures buffer[n % size := x][(from + k) % size] == items[k]
    {
      SlotsDiffer(from + k, n, size);
    }
  }

  // A store lands past the unread items and just past the part of the batch stored before.
  lemma StoreLands<T>(size: nat, s: System<T>)
    requires Inv(size, s) && Enabled(s, Store)
    ensures var buffer, done := Do(size, s, Store).ring.buffer, s.producer.done;
            && Holds(size, buffer, |s.got|, Queue(s))
            && Holds(size, buffer, |s.put|, s.producer.batch[..done] + [s.producer.batch[done]])
  {
    var p, done := |s.put|, s.producer.done;
    var x, part := s.producer.batch[done], s.producer.batch[..done];
    SlotAdvance(p, done, size);
    HoldsPastWrite(size, s.ring.buffer, |s.got|, Queue(s), p + done, x);
    HoldsPastWrite(size, s.ring.buffer, p, part, p + done, x);
    HoldsJoin(size, s.ring.buffer[(p + done) % size := x], p, part, [x]);
  }

  lemma InvStore<T>(size: nat, s: System<T>)
    requires Inv(size, s) && Enabled(s, Store)
    ensures Inv(size, Do(size, s, Store))
  {
    StoreLands(size, s);
    var done := s.producer.done;
    assert s.producer.batch[..done + 1] == s.producer.batch[..done] + [s.producer.batch[done]];
  }

  lemma InvPublish<T>(size: nat, s: System<T>)
    requires Inv(size, s) && Enabled(s, Publish)
    ensures Inv(size, Do(size, s, Publish))
  {
    var batch := s.producer.batch;
    assert batch[..|batch|] == batch;
    SlotAdvance(|s.put|, |batch|, size);
    HoldsJoin(size, s.ring.buffer, |s.got|, Queue(s), batch);
    assert (s.put + batch)[|s.got|..] == Queue(s) + batch;
  }

  lemma InvRead<T>(size: nat, s: System<T>)
    requires Inv(size, s) && Enabled(s, Read)
    ensures Inv(size, Do(size, s, Read))
  {
  }

  lemma InvAdvance<T>(size: nat, s: System<T>)
    requires Inv(size, s) && Enabled(s, Advance)
    ensures Inv(size, Do(size, s, Advance))
  {
    SlotAdvance(|s.got|, 1, size);
    HoldsTail(size, s.ring.buffer, |s.got|, Queue(s));
    assert s.put[|s.got| + 1..] == Queue(s)[1..];
  }

  lemma InvTest<T>(size: nat, s: System<T>)
    requires Inv(size, s) && Enabled(s, Test)
    ensures Inv(size, Do(size, s, Test))
  {
    LooksEmptyIff(size, s);
  }

  lemma InvStep<T>(size: nat, s: System<T>, a: Action<T>)
    requires Inv(size, s) && Enabled(s, a) && Admissible(size, s, a)
    ensures Inv(size, Do(size, s, a))
  {
    match a
    case Store => InvStore(size, s);
    case Publish => InvPublish(size, s);
    case Read => InvRead(size, s);
    case Advance => InvAdvance(size, s);
    case Test => InvTest(size, s);
    case _ =>
  }

  /** The emptiness test tells the truth only below `size` items: the pointers agree exactly when the
      number of unread items is a multiple of the ring size, so a full ring looks empty. */
  lemma LooksEmptyIff<T>(size: nat, s: System<T>)
    requires size > 0 && |s.got| <= |s.put|
    requires s.ring.wrptr == |s.put| % size && s.ring.rdptr == |s.got| % size
    ensures LooksEmpty(s.ring) <==> Unread(s) % size == 0
    ensures Unread(s) < size ==> (LooksEmpty(s.ring) <==> Unread(s) == 0)
  {
    var g, u := |s.got|, Unread(s);
    var q, r := u / size, u % size;
    assert u == q * size + r;
    SlotTurns(g + r, q, size);
    if r > 0 { SlotsDiffer(g, g + r, size); }
    if u < size { DivModUnique(u, size, 0, u); }
  }

  // ---------------------------------------------------------------- whole runs

  // The actions can be taken one after another, each within what the code needs.
  ghost predicate Runs<T>(size: nat, s: System<T>, actions: seq<Action<T>>)
    requires Inv(size, s)
    decreases |actions|
  {
    actions == [] ||
    (&& Enabled(s, actions[0]) && Admissible(size, s, actions[0])
     && (InvStep(size, s, actions[0]); Runs(size, Do(size, s, actions[0]), actions[1..])))
  }

  ghost function Final<T>(size: nat, s: System<T>, actions: seq<Action<T>>): (t: System<T>)
    requires Inv(size, s) && Runs(size, s, actions)
    ensures Inv(size, t)
    decreases |actions|
  {
    if actions == [] then s
    else (InvStep(size, s, actions[0]); Final(size, Do(size, s, actions[0]), actions[1..]))
  }

  // All items handed to the producer over a run, in order.
  function Handed<T>(actions: seq<Action<T>>): seq<T>
    decreases |actions|
  {
    if actions == [] then []
    else (if actions[0].Lock? then actions[0].items else []) + Handed(actions[1..])
  }

  function Pending<T>(s: System<T>): seq<T> {
    if s.producer.Storing? then s.producer.batch else []
  }

  // Everything put so far, and what is on its way.
  function Committed<T>(s: System<T>): seq<T> {
    s.put + Pending(s)
  }

  lemma CommittedStep<T>(size: nat, s: System<T>, a: Action<T>)
    requires Inv(size, s) && Enabled(s, a)
    ensures Committed(Do(size, s, a)) == Committed(s) + (if a.Lock? then a.items else [])
  {
  }

  // What has been or is being put, plus what the run hands over, is what the run ends with.
  lemma {:induction false} HandedIsPut<T>(size: nat, s: System<T>, actions: seq<Action<T>>)
    requires Inv(size, s) && Runs(size, s, actions)
    ensures Committed(Final(size, s, actions)) == Committed(s) + Handed(actions)
    decreases |actions|
  {
    if actions != [] {
      var a := actions[0];
      InvStep(size, s, a);
      CommittedStep(size, s, a);
      var u := Do(size, s, a);
      HandedIsPut(size, u, actions[1..]);
      Reassociate(Committed(s), if a.Lock? then a.items else [], Handed(actions[1..]));
    }
  }

  lemma Reassociate<T>(a: seq<T>, b: seq<T>, c: seq<T>)
    ensures (a + b) + c == a + (b + c)
  {
  }

  /** FIFO over every interleaving: whatever was delivered is, in order and without loss or
      repetition, the beginning of what was handed in; and both pointers are total counts. */
  lemma RunIsFifo<T>(size: nat, buffer: seq<T>, actions: seq<Action<T>>)
    requires size > 0 && |buffer| == size
    requires Runs(size, Initial(size, buffer), actions)
    ensures var t := Final(size, Initial(size, buffer), actions);
            && t.got <= t.put <= Handed(actions)
            && t.put + Pending(t) == Handed(actions)
            && t.ring.wrptr == |t.put| % size && t.ring.rdptr == |t.got| % size
  {
    HandedIsPut(size, Initial(size, buffer), actions);
    var t := Final(size, Initial(size, buffer), actions);
    assert Committed(t) == Handed(actions);
    assert t.put == Handed(actions)[..|t.put|];
    assert t.got == t.put[..|t.got|];
  }

  // ---------------------------------------------------------------- what each thread may do

  /** Only the mutex makes a thread wait: outside it the consumer reads and advances, and whoever holds it
      goes on, whatever the other does; and a free mutex can be taken. */
  lemma StepsPossible<T>(s: System<T>, items: seq<T>)
    ensures s.consumer.Reading? ==> Enabled(s, Read)
    ensures s.consumer.Advancing? ==> Enabled(s, Advance)
    ensures s.consumer.Testing? ==> Enabled(s, Test)
    ensures s.consumer.Releasing? ==> Enabled(s, Release)
    ensures s.producer.Storing? && s.producer.done < |s.producer.batch| ==> Enabled(s, Store)
    ensures s.producer.Storing? && s.producer.done == |s.producer.batch| ==> Enabled(s, Publish)
    ensures s.producer.Published? ==> Enabled(s, Signal)
    ensures s.producer.Signalled? ==> Enabled(s, Unlock)
    ensures s.producer.Away? && s.consumer.Idle? ==> Enabled(s, Enter)
    ensures s.producer.Away? && s.consumer.Woken? ==> Enabled(s, Reacquire)
    ensures s.producer.Away? && !s.consumer.Testing? && !s.consumer.Releasing? ==> Enabled(s, Lock(items))
    ensures s.consumer.Blocked? ==> Enabled(s, Spurious)
  {
  }

  // ---------------------------------------------------------------- refinement to a queue

  /** Every step refines a queue: Publish appends the whole batch at once, Advance removes the head
      and delivers it, and no other step changes the queue. */
  lemma StepRefinesQueue<T>(size: nat, s: System<T>, a: Action<T>)
    requires Inv(size, s) && Enabled(s, a) && Admissible(size, s, a)
    ensures Inv(size, Do(size, s, a))
    ensures var t := Do(size, s, a);
            match a
            case Publish => Queue(t) == Queue(s) + s.producer.batch && t.got == s.got
            case Advance => Queue(s) != [] && Queue(t) == Queue(s)[1..] && t.got == s.got + [Queue(s)[0]]
            case _ => Queue(t) == Queue(s) && t.got == s.got
  {
    InvStep(size, s, a);
  }

  /** The producer never writes a slot that still holds an unread item, so in particular not the one
      a consumer is reading outside the mutex. */
  lemma StoreMissesUnread<T>(size: nat, s: System<T>, k: nat)
    requires Inv(size, s) && Enabled(s, Store) && |s.got| <= k < |s.put|
    ensures Do(size, s, Store).ring.buffer[k % size] == s.ring.buffer[k % size] == s.put[k]
    ensures k == |s.got| ==> s.ring.rdptr == k % size
  {
    SlotAdvance(|s.put|, s.producer.done, size);
    SlotsDiffer(k, |s.put| + s.producer.done, size);
    assert s.ring.buffer[(|s.got| + (k - |s.got|)) % size] == Queue(s)[k - |s.got|];
  }

  // ---------------------------------------------------------------- wakeups

  /** No lost wakeup: a consumer that is blocked and not yet signalled means the ring is empty,
      unless the producer stands between publishing and signalling. */
  lemma NoLostWakeup<T>(size: nat, buffer: seq<T>, actions: seq<Action<T>>)
    requires size > 0 && |buffer| == size
    requires Runs(size, Initial(size, buffer), actions)
    ensures var t := Final(size, Initial(size, buffer), actions);
            t.consumer.Blocked? ==>
              && (Queue(t) == [] || (t.producer.Published? && Do(size, t, Signal).consumer.Woken?))
              && (Queue(t) == [] <==> LooksEmpty(t.ring))
  {
    var t := Final(size, Initial(size, buffer), actions);
    LooksEmptyIff(size, t);
  }

  // Steps the two threads still have to take from where they stand.
  function Rank<T>(s: System<T>): int {
    (match s.producer
     case Away => 0
     case Storing(batch, done) => |batch| - done + 3
     case Published => 2
     case Signalled => 1)
    +
    (match s.consumer
     case Idle => 5
     case Testing => 4
     case Blocked => 5
     case Woken => 4
     case Releasing => 3
     case Reading => 2
     case Advancing(_) => 1)
  }

  // The same with the room left in the ring: a new batch costs its steps but takes up room.
  function Measure<T>(size: nat, s: System<T>): int {
    Rank(s) + 5 * (size - (|Committed(s)| - |s.got|))
  }

  // The step some thread can take now.
  function Helpful<T>(s: System<T>): Action<T> {
    match s.producer
    case Storing(batch, done) => if done < |batch| then Store else Publish
    case Published => Signal
    case Signalled => Unlock
    case Away =>
      match s.consumer
      case Idle => Enter
      case Testing => Test
      case Blocked => Spurious
      case Woken => Reacquire
      case Releasing => Release
      case Reading => Read
      case Advancing(_) => Advance
  }

  /** Progress: while an item is unread some thread can move, and every move but the delivery itself, the
      start of a new batch included, brings the next delivery closer. */
  lemma UnreadIsDelivered<T>(size: nat, s: System<T>, a: Action<T>)
    requires Inv(size, s) && Unread(s) > 0
    ensures Enabled(s, Helpful(s)) && Admissible(size, s, Helpful(s)) && !Helpful(s).Lock?
    ensures 1 <= Measure(size, s) <= 5 * size + 2
    ensures Enabled(s, a) && Admissible(size, s, a) && !a.Advance? ==> Measure(size, Do(size, s, a)) < Measure(size, s)
  {
    LooksEmptyIff(size, s);
    if Enabled(s, a) { CommittedStep(size, s, a); }
  }

  /** Delivery is near in every interleaving, whatever batches the producer starts meanwhile: while an item
      is unread, a run that delivers nothing takes fewer steps than Measure, so at most 5 * size + 1. */
  lemma {:induction false} DeliveryIsNear<T>(size: nat, s: System<T>, actions: seq<Action<T>>)
    requires Inv(size, s) && Runs(size, s, actions) && Unread(s) > 0
    requires forall i :: 0 <= i < |actions| ==> !actions[i].Advance?
    ensures |actions| < Measure(size, s) <= 5 * size + 2
    decreases |actions|
  {
    UnreadIsDelivered(size, s, if actions == [] then Enter else actions[0]);
    if actions != [] {
      var a := actions[0];
      InvStep(size, s, a);
      UnreadKept(size, s, a);
      DeliveryIsNear(size, Do(size, s, a), actions[1..]);
    }
  }

  lemma UnreadKept<T>(size: nat, s: System<T>, a: Action<T>)
    requires Inv(size, s) && Enabled(s, a) && !a.Advance?
    ensures Unread(Do(size, s, a)) >= Unread(s)
  {
  }

  // ---------------------------------------------------------------- what the hypotheses are for

  // The producer's steps for one batch, from the lock to the signal.
  function PutUpToSignal<T>(size: nat, s: System<T>, batch: seq<T>, done: nat): (t: System<T>)
    requires size > 0 && |s.ring.buffer| == size && s.ring.rdptr < size
    requires s.producer == Storing(batch, done) && done <= |batch|
    ensures t.put == s.put + batch && t.got == s.got && t.producer == Signalled
    ensures t.consumer == if s.consumer.Blocked? then Woken else s.consumer
    ensures |t.ring.buffer| == size && t.ring.rdptr == s.ring.rdptr
    decreases |batch| - done
  {
    if done < |batch| then PutUpToSignal(size, Do(size, s, Store), batch, done + 1)
    else Do(size, Do(size, s, Publish), Signal)
  }

  // From any point of the critical section on, the rest of it completes PutAll of the ring it began with.
  lemma {:induction false} PutIsPutAll<T>(size: nat, s: System<T>, begun: seq<T>, batch: seq<T>, done: nat)
    requires size > 0 && |s.ring.buffer| == size && s.ring.rdptr < size
    requires s.producer == Storing(batch, done) && done <= |batch|
    requires |begun| == size && s.ring.buffer == Stored(size, begun, s.ring.wrptr, batch, done)
    ensures PutUpToSignal(size, s, batch, done).ring == PutAll(size, s.ring.(buffer := begun), batch)
    decreases |batch| - done
  {
    if done < |batch| {
      var t := Do(size, s, Store);
      assert t.ring.buffer == Stored(size, begun, t.ring.wrptr, batch, done + 1);
      PutIsPutAll(size, t, begun, batch, done + 1);
    }
  }

  /** Step by step or as a whole, the critical section leaves the same ring. */
  lemma CriticalSection<T>(size: nat, s: System<T>, batch: seq<T>)
    requires size > 0 && |s.ring.buffer| == size && s.ring.rdptr < size
    requires Enabled(s, Lock(batch))
    ensures PutUpToSignal(size, Do(size, s, Lock(batch)), batch, 0).ring == PutAll(size, s.ring, batch)
  {
    PutIsPutAll(size, Do(size, s, Lock(batch)), s.ring.buffer, batch, 0);
  }

  // ---------------------------------------------------------------- overrun

  // The slots hold the unread items, and the emptiness test tells the truth about them.
  ghost predicate Truthful<T>(size: nat, s: System<T>)
    requires size > 0 && |s.ring.buffer| == size && |s.got| <= |s.put|
  {
    Holds(size, s.ring.buffer, |s.got|, Queue(s)) && (LooksEmpty(s.ring) <==> Queue(s) == [])
  }

  // The state after a batch, up to the signal.
  function AfterPut<T>(size: nat, s: System<T>, batch: seq<T>): (t: System<T>)
    requires size > 0 && |s.ring.buffer| == size && s.ring.rdptr < size && Enabled(s, Lock(batch))
    ensures t.put == s.put + batch && t.got == s.got && |t.ring.buffer| == size
    ensures t.ring == PutAll(size, s.ring, batch)
  {
    CriticalSection(size, s, batch);
    PutUpToSignal(size, Do(size, s, Lock(batch)), batch, 0)
  }

  lemma {:induction false} PutKeepsInv<T>(size: nat, s: System<T>, batch: seq<T>, done: nat)
    requires Inv(size, s) && s.producer == Storing(batch, done)
    ensures Inv(size, PutUpToSignal(size, s, batch, done))
    decreases |batch| - done
  {
    if done < |batch| {
      InvStore(size, s);
      PutKeepsInv(size, Do(size, s, Store), batch, done + 1);
    } else {
      InvPublish(size, s);
      InvStep(size, Do(size, s, Publish), Signal);
    }
  }

  lemma BatchThatFits<T>(size: nat, s: System<T>, batch: seq<T>)
    requires Inv(size, s) && Enabled(s, Lock(batch)) && batch != [] && Unread(s) + |batch| < size
    ensures Truthful(size, AfterPut(size, s, batch))
  {
    var t := AfterPut(size, s, batch);
    InvStep(size, s, Lock(batch));
    PutKeepsInv(size, Do(size, s, Lock(batch)), batch, 0);
    LooksEmptyIff(size, t);
  }

  // A batch that fills the ring makes it look empty.
  lemma BatchThatFills<T>(size: nat, s: System<T>, batch: seq<T>)
    requires Inv(size, s) && Enabled(s, Lock(batch)) && batch != [] && Unread(s) + |batch| == size
    ensures !Truthful(size, AfterPut(size, s, batch))
  {
    var t := AfterPut(size, s, batch);
    SlotAdvance(|s.put|, |batch|, size);
    LooksEmptyIff(size, t);
    DivModUnique(size, size, 1, 0);
  }

  // The slot of the j-th item of the batch ends up with x when all items from the j-th on are x.
  lemma {:induction false} SlotOverwritten<T>(
      size: nat, buffer: seq<T>, wrptr: nat, batch: seq<T>, done: nat, j: nat, x: T)
    requires size > 0 && |buffer| == size && j < done <= |batch|
    requires forall i :: j <= i < |batch| ==> batch[i] == x
    ensures Stored(size, buffer, wrptr, batch, done)[(wrptr + j) % size] == x
    decreases done
  {
    if done - 1 > j {
      SlotOverwritten(size, buffer, wrptr, batch, done - 1, j, x);
    }
  }

  // A batch beyond the room left, whose items from the one that meets the head on are x, spoils the head.
  lemma HeadOverwritten<T>(size: nat, s: System<T>, batch: seq<T>, x: T)
    requires Inv(size, s) && Enabled(s, Lock(batch)) && Unread(s) + |batch| > size
    requires forall i :: size - Unread(s) <= i < |batch| ==> batch[i] == x
    requires (Queue(s) + batch)[0] != x
    ensures !Truthful(size, AfterPut(size, s, batch))
  {
    var t, j := AfterPut(size, s, batch), size - Unread(s);
    assert Queue(t) == Queue(s) + batch;
    SlotOverwritten(size, s.ring.buffer, s.ring.wrptr, batch, |batch|, j, x);
    SlotAdvance(|s.put|, j, size);
    SlotTurns(|s.got|, 1, size);
    assert t.ring.buffer[(|t.got| + 0) % size] == x;
  }

  // A batch of n items that spoils the head, when the ring has no room for n.
  function SpoilingBatch<T(==)>(s: System<T>, n: nat, a: T, b: T): (batch: seq<T>)
    requires n > 0 && |s.got| <= |s.put|
    ensures |batch| == n
  {
    if Unread(s) == 0 then [a] + seq(n - 1, _ => b)
    else seq(n, _ => if Queue(s)[0] == a then b else a)
  }

  /** Capacity is exact: from any state in which the producer may take the mutex, every batch of n items is
      kept, and empty told from non-empty, if and only if it leaves a slot free. Otherwise, as a slow reader
      makes it, a full ring looks empty and an overfull one has lost its oldest item. */
  lemma BatchKeptIff<T(!new)>(size: nat, s: System<T>, n: nat, a: T, b: T)
    requires Inv(size, s) && s.producer.Away? && !ConsumerHolds(s) && n > 0 && a != b
    ensures (forall batch: seq<T> :: |batch| == n ==> Truthful(size, AfterPut(size, s, batch)))
       <==> Unread(s) + n < size
  {
    if Unread(s) + n < size {
      forall batch: seq<T> | |batch| == n
        ensures Truthful(size, AfterPut(size, s, batch))
      {
        BatchThatFits(size, s, batch);
      }
    } else {
      var batch := SpoilingBatch(s, n, a, b);
      if Unread(s) + n == size {
        BatchThatFills(size, s, batch);
      } else {
        HeadOverwritten(size, s, batch, if Unread(s) > 0 && Queue(s)[0] != a then a else b);
      }
    }
  }

  // ---------------------------------------------------------------- signals

  /** The signal is honest only for a batch that is not empty: a blocked consumer woken by it finds
      an item exactly when the producer wrote one. */
  lemma WokenFindsDataIff<T>(size: nat, s: System<T>, batch: seq<T>)
    requires Inv(size, s) && s.consumer.Blocked? && s.producer.Away?
    ensures var t := PutUpToSignal(size, Do(size, s, Lock(batch)), batch, 0);
            t.consumer.Woken? && (Unread(t) > 0 <==> batch != [])
  {
  }

  // ---------------------------------------------------------------- spurious wakeups

  // All that a step needs of a state, good or bad.
  predicate Shaped<T>(size: nat, s: System<T>) {
    size > 0 && |s.ring.buffer| == size && s.ring.rdptr < size
  }

  // The admissible continuations of any state, and where they lead.
  predicate Continues<T(==)>(size: nat, s: System<T>, actions: seq<Action<T>>)
    requires Shaped(size, s)
    decreases |actions|
  {
    actions == [] ||
    (&& Enabled(s, actions[0]) && Admissible(size, s, actions[0])
     && Continues(size, Do(size, s, actions[0]), actions[1..]))
  }

  function Reached<T(==)>(size: nat, s: System<T>, actions: seq<Action<T>>): System<T>
    requires Shaped(size, s) && Continues(size, s, actions)
    decreases |actions|
  {
    if actions == [] then s else Reached(size, Do(size, s, actions[0]), actions[1..])
  }

  lemma {:induction false} GoodStaysGood<T>(size: nat, s: System<T>, actions: seq<Action<T>>)
    requires Inv(size, s) && Continues(size, s, actions)
    ensures Inv(size, Reached(size, s, actions))
    decreases |actions|
  {
    if actions != [] {
      InvStep(size, s, actions[0]);
      GoodStaysGood(size, Do(size, s, actions[0]), actions[1..]);
    }
  }

  // What a consumer that woke on its own does while the producer stays away.
  function RunThrough<T>(): seq<Action<T>> {
    [Reacquire, Release, Read, Advance]
  }

  lemma WokenRunsThrough<T>(size: nat, s: System<T>)
    requires Shaped(size, s) && s.consumer.Woken? && s.producer.Away?
    ensures Continues(size, s, RunThrough())
    ensures var t := Reached(size, s, RunThrough());
            t.put == s.put && t.got == s.got + [s.ring.buffer[s.ring.rdptr]]
  {
    var s1 := Do(size, s, Reacquire);
    var s2 := Do(size, s1, Release);
    var s3 := Do(size, s2, Read);
    var a: seq<Action<T>> := RunThrough();
    assert a[1..] == [Release, Read, Advance] && a[1..][1..] == [Read, Advance];
    assert a[1..][1..][1..] == [Advance] && a[1..][1..][1..][1..] == [];
    var s4 := Do(size, s3, Advance);
    assert Continues(size, s4, []) && Reached(size, s4, []) == s4;
    assert Continues(size, s3, a[1..][1..][1..]) && Reached(size, s3, a[1..][1..][1..]) == s4;
    assert Continues(size, s2, a[1..][1..]) && Reached(size, s2, a[1..][1..]) == s4;
    assert Continues(size, s1, a[1..]) && Reached(size, s1, a[1..]) == s4;
  }

  /** Because the wait is guarded by `if`, one spurious wakeup on an empty ring with the producer away
      delivers once more than was put: whatever the slot at rdptr happens to hold. */
  lemma SpuriousWakeupReadsStale<T>(size: nat, s: System<T>)
    requires Inv(size, s) && s.consumer.Blocked? && s.producer.Away?
    ensures var t := Do(size, s, Spurious);
            && Continues(size, t, RunThrough())
            && Reached(size, t, RunThrough()).got == s.got + [s.ring.buffer[s.ring.rdptr]]
            && Reached(size, t, RunThrough()).put == s.put == s.got
  {
    WokenRunsThrough(size, Do(size, s, Spurious));
  }

  /** Exactly which spurious wakeups do harm: after one, every continuation delivers only what was put, in
      order, if and only if the producer is inside its critical section. There the consumer cannot take the
      mutex before the batch is published. */
  lemma SpuriousWakeupHarmlessIff<T(!new)>(size: nat, s: System<T>)
    requires Inv(size, s) && s.consumer.Blocked?
    ensures (forall actions :: Continues(size, Do(size, s, Spurious), actions) ==>
               var t := Reached(size, Do(size, s, Spurious), actions); t.got <= t.put)
       <==> !s.producer.Away?
  {
    var woken := Do(size, s, Spurious);
    if s.producer.Away? {
      SpuriousWakeupReadsStale(size, s);
      assert Continues(size, woken, RunThrough());
    } else {
      InvStep(size, s, Spurious);
      forall actions | Continues(size, woken, actions)
        ensures var t := Reached(size, woken, actions); t.got <= t.put
      {
        GoodStaysGood(size, woken, actions);
      }
    }
  }
}
