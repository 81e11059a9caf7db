/** The keyboard queue: a ring buffer filled by the keyboard interrupt and emptied by `kgetc`.

    The interrupt handler runs to completion, but it may run between any two steps of `kgetc`. So `kgetc` is a
    machine with a program counter, and a run is any interleaving of its steps with key presses. That
    `buffer_count--` is one step is an assumption; `SplitReleaseIsSafeIff` says when it could be dropped. */
module KeyQueue {
  import opened Words

  const BUFFER_SIZE: nat := 2000

  /** The statement of `kgetc` that is next. */
  datatype Pc =
    | Wait     // while (buffer_count == 0) {}
    | Take     // slot = buffer_read++
    | Load     // result = key_buffer[slot]
    | Reset    // buffer_read %= BUFFER_SIZE
    | Release  // buffer_count--
    | Return   // return result

  type Ring = b: seq<Byte> | |b| == 2000 witness EmptyRing()

  function EmptyRing(): (b: seq<Byte>)
    ensures |b| == 2000
  {
    seq(2000, _ => 0)
  }

  datatype Queue = Queue(buffer: Ring, read: nat, write: nat, count: nat, pc: Pc, slot: nat, result: Byte)

  /** Nothing queued; what the slots hold does not matter. */
  function Empty(b: Ring): Queue { Queue(b, 0, 0, 0, Wait, 0, 0) }

  function Slot(b: Ring, i: nat): Byte { if i < BUFFER_SIZE then b[i] else 0 }

  /** Is there room for another key? */
  predicate Accepts(q: Queue) { q.count != BUFFER_SIZE }

  /** `add_to_buffer`. */
  function Add(q: Queue, key: Byte): Queue {
    if Accepts(q) then
      q.(buffer := if q.write < BUFFER_SIZE then q.buffer[q.write := key] else q.buffer,
         write := (q.write + 1) % BUFFER_SIZE, count := q.count + 1)
    else q
  }

  /** One statement of `kgetc`. */
  function Tick(q: Queue): Queue {
    match q.pc
    case Wait => if q.count == 0 then q else q.(pc := Take)
    case Take => q.(slot := q.read, read := q.read + 1, pc := Load)
    case Load => q.(result := Slot(q.buffer, q.slot), pc := Reset)
    case Reset => q.(read := q.read % BUFFER_SIZE, pc := Release)
    case Release => q.(count := if q.count > 0 then q.count - 1 else 0, pc := Return)
    case Return => q.(pc := Wait)
  }

  datatype Event = Press(key: Byte) | Step

  /** The queue and its history. */
  datatype Trace = Trace(queue: Queue, accepted: seq<Byte>, delivered: seq<Byte>, dropped: seq<Byte>)

  function StartWith(b: Ring): Trace { Trace(Empty(b), [], [], []) }

  const START: Trace := StartWith(EmptyRing())

  function After(t: Trace, e: Event): Trace {
    match e
    case Press(key) =>
      if Accepts(t.queue) then t.(queue := Add(t.queue, key), accepted := t.accepted + [key])
      else t.(queue := Add(t.queue, key), dropped := t.dropped + [key])
    case Step =>
      t.(queue := Tick(t.queue),
         delivered := if t.queue.pc.Return? then t.delivered + [t.queue.result] else t.delivered)
  }

  function Run(t: Trace, events: seq<Event>): Trace {
    if events == [] then t else After(Run(t, events[..|events| - 1]), events[|events| - 1])
  }

  // ---- what the queue holds ----

  function Norm(i: nat): nat { if i < BUFFER_SIZE then i else i - BUFFER_SIZE }

  /** Where the oldest key that `kgetc` has not loaded yet lies. */
  function First(q: Queue): nat {
    match q.pc
    case Load => q.slot
    case Reset => Norm(q.read)
    case _ => q.read
  }

  /** A key has been loaded whose slot is still counted. */
  predicate Holds(q: Queue) { q.pc.Reset? || q.pc.Release? }

  function Unread(q: Queue): nat { if Holds(q) && q.count > 0 then q.count - 1 else q.count }

  /** The n slots of the ring from `from` on. */
  function Slots(b: Ring, from: nat, n: nat): (keys: seq<Byte>)
    ensures |keys| == n && forall i: nat | i < n :: keys[i] == Slot(b, Norm(from + i))
    decreases n
  {
    if n == 0 then [] else Slots(b, from, n - 1) + [Slot(b, Norm(from + n - 1))]
  }

  /** The keys in the ring that have not been loaded yet, oldest first. */
  function Contents(q: Queue): seq<Byte> { Slots(q.buffer, First(q), Unread(q)) }

  /** The key that has been loaded but not returned yet. */
  function InFlight(q: Queue): seq<Byte> { if Holds(q) || q.pc.Return? then [q.result] else [] }

  predicate RingOk(q: Queue) {
    && q.count <= BUFFER_SIZE && q.write < BUFFER_SIZE
    && First(q) < BUFFER_SIZE && q.write == Norm(First(q) + Unread(q))
    && (q.pc.Take? || q.pc.Load? || Holds(q) ==> q.count > 0)
    && (q.pc.Load? ==> q.read == q.slot + 1)
    && (q.pc.Reset? ==> q.read <= BUFFER_SIZE)
  }

  /** Every accepted key is delivered, in flight or queued, once and in order. */
  predicate TraceOk(t: Trace) {
    RingOk(t.queue) && t.accepted == t.delivered + InFlight(t.queue) + Contents(t.queue)
  }

  lemma SlotsPush(b: Ring, from: nat, n: nat, key: Byte)
    requires n < BUFFER_SIZE && from < BUFFER_SIZE
    ensures Slots(b[Norm(from + n) := key], from, n + 1) == Slots(b, from, n) + [key]
  {
    var old', new' := Slots(b, from, n) + [key], Slots(b[Norm(from + n) := key], from, n + 1);
    forall i: nat | i <= n ensures new'[i] == old'[i] {
    }
  }

  lemma Remainder(i: nat)
    requires i <= BUFFER_SIZE
    ensures i % BUFFER_SIZE == Norm(i)
  {
  }

  lemma NextSlot(i: nat)
    requires i < 2 * BUFFER_SIZE - 1
    ensures Norm(Norm(i) + 1) == Norm(i + 1) < BUFFER_SIZE
  {
  }

  /** A press appends its key behind everything queued, or changes nothing. */
  lemma AddAppends(q: Queue, key: Byte)
    requires RingOk(q)
    ensures RingOk(Add(q, key)) && InFlight(Add(q, key)) == InFlight(q)
    ensures Contents(Add(q, key)) == if Accepts(q) then Contents(q) + [key] else Contents(q)
  {
    hide Slots, Norm;
    Remainder(q.write + 1);
    if Accepts(q) {
      NextSlot(First(q) + Unread(q));
      SlotsPush(q.buffer, First(q), Unread(q), key);
    }
  }

  lemma SlotsPop(b: Ring, from: nat, n: nat)
    requires 0 < n <= BUFFER_SIZE && from < BUFFER_SIZE
    ensures [Slot(b, from)] + Slots(b, Norm(from + 1), n - 1) == Slots(b, from, n)
  {
    var keys, rest := Slots(b, from, n), Slots(b, Norm(from + 1), n - 1);
    forall i: nat | i < n ensures keys[i] == ([Slot(b, from)] + rest)[i] {
      if i > 0 {
        assert Norm(Norm(from + 1) + (i - 1)) == Norm(from + i);
      }
    }
  }

  /** A step of `kgetc` moves the oldest key into flight when it loads it, and otherwise changes nothing. */
  lemma TickMoves(q: Queue)
    requires RingOk(q)
    ensures RingOk(Tick(q))
    ensures !q.pc.Return? && !q.pc.Load? ==> InFlight(Tick(q)) + Contents(Tick(q)) == InFlight(q) + Contents(q)
    ensures q.pc.Load? ==> InFlight(q) == [] && InFlight(Tick(q)) + Contents(Tick(q)) == Contents(q)
    ensures q.pc.Return? ==> InFlight(q) == [q.result] && InFlight(Tick(q)) == [] && Contents(Tick(q)) == Contents(q)
  {
    hide Slots;
    if q.pc.Reset? {
      Remainder(q.read);
    }
    if q.pc.Load? {
      SlotsPop(q.buffer, q.slot, q.count);
    }
  }

  lemma Regroup(a: seq<Byte>, b: seq<Byte>, c: seq<Byte>, x: seq<Byte>)
    ensures a + b + (c + x) == (a + b + c) + x && a + (b + c) == a + b + c
  {
  }

  lemma AfterKeepsOk(t: Trace, e: Event)
    requires TraceOk(t)
    ensures TraceOk(After(t, e))
  {
    hide RingOk, Contents, InFlight, Tick, Add, Accepts;
    var q := t.queue;
    match e
    case Press(key) =>
      AddAppends(q, key);
      Regroup(t.delivered, InFlight(q), Contents(q), [key]);
    case Step =>
      TickMoves(q);
      Regroup(t.delivered, InFlight(q), Contents(q), []);
      Regroup(t.delivered, InFlight(Tick(q)), Contents(Tick(q)), []);
  }

  /** At every point of every interleaving the accepted keys are the delivered ones followed by the one in flight
      and the queued ones: none is lost, duplicated, reordered, or overwritten before it is read. */
  lemma {:induction false} NoKeyIsLost(events: seq<Event>)
    ensures TraceOk(Run(START, events))
  {
    if events == [] {
      StartIsOk(EmptyRing());
    } else {
      NoKeyIsLost(events[..|events| - 1]);
      AfterKeepsOk(Run(START, events[..|events| - 1]), events[|events| - 1]);
    }
  }

  /** A press is dropped exactly when 2000 accepted keys occupy slots: all the unread ones, and the one in flight
      until its slot is released. */
  lemma DroppedOnlyWhenFull(events: seq<Event>, key: Byte)
    ensures
      var t := Run(START, events);
      var occupied := |t.accepted| - |t.delivered| - if t.queue.pc.Return? then 1 else 0;
      && occupied <= 2000
      && After(t, Press(key)).dropped == (if occupied == 2000 then t.dropped + [key] else t.dropped)
      && After(t, Press(key)).accepted == (if occupied == 2000 then t.accepted else t.accepted + [key])
  {
    NoKeyIsLost(events);
  }

  lemma StartIsOk(b: Ring)
    ensures TraceOk(StartWith(b))
  {
  }

  function Presses(events: seq<Event>): seq<Byte> {
    if events == [] then []
    else
      var rest := Presses(events[..|events| - 1]);
      match events[|events| - 1]
      case Press(key) => rest + [key]
      case Step => rest
  }

  /** With no key dropped, the program reads exactly what was typed. */
  lemma {:induction false} NothingDroppedNothingMissing(events: seq<Event>)
    ensures
      var t := Run(START, events);
      && |t.accepted| + |t.dropped| == |Presses(events)|
      && (t.dropped == [] ==> Presses(events) == t.delivered + InFlight(t.queue) + Contents(t.queue))
      && (t.dropped == [] <==> t.accepted == Presses(events))
  {
    NoKeyIsLost(events);
    AcceptedArePresses(events);
  }

  lemma {:induction false} AcceptedArePresses(events: seq<Event>)
    ensures var t := Run(START, events);
      |t.accepted| + |t.dropped| == |Presses(events)| && (t.dropped == [] ==> t.accepted == Presses(events))
  {
    if events != [] {
      AcceptedArePresses(events[..|events| - 1]);
    }
  }

  // ---- progress ----

  function Ticks(q: Queue, n: nat): Queue
    decreases n
  {
    if n == 0 then q else Ticks(Tick(q), n - 1)
  }

  /** Left alone, six steps of `kgetc` return the oldest queued key and leave the others. */
  lemma SixStepsDeliver(q: Queue)
    requires RingOk(q) && q.pc.Wait? && q.count > 0
    ensures Contents(q) != []
    ensures Ticks(q, 5).pc.Return? && Ticks(q, 5).result == Contents(q)[0]
    ensures var q' := Ticks(q, 6); RingOk(q') && q'.pc.Wait? && Contents(q') == Contents(q)[1..]
  {
    hide Slots, Ticks;
    SlotsPop(q.buffer, q.read, q.count);
    ThreeTicks(q);
    ThreeTicks(Ticks(q, 3));
    Remainder(q.read + 1);
    var first, rest := Slot(q.buffer, q.read), Slots(q.buffer, Norm(q.read + 1), q.count - 1);
    assert Ticks(q, 3) == q.(slot := q.read, read := q.read + 1, result := first, pc := Reset);
    var q6 := q.(slot := q.read, read := Norm(q.read + 1), count := q.count - 1, result := first);
    assert Ticks(q, 5) == q6.(pc := Return) && Ticks(q, 6) == q6;
    assert Contents(q) == [first] + rest && Contents(q6) == rest;
    assert ([first] + rest)[1..] == rest;
    TickMoves(q6.(pc := Return));
  }

  lemma ThreeTicks(q: Queue)
    ensures Ticks(q, 3) == Tick(Tick(Tick(q))) && Ticks(q, 5) == Ticks(Ticks(q, 3), 2) &&
        Ticks(q, 6) == Ticks(Ticks(q, 3), 3)
    ensures Ticks(q, 2) == Tick(Tick(q))
  {
    hide Tick;
    var q1 := Tick(q); var q2 := Tick(q1); var q3 := Tick(q2);
    assert Ticks(q2, 1) == Ticks(q3, 0);
    assert Ticks(q, 6) == Ticks(q1, 5) == Ticks(q2, 4) == Ticks(q3, 3);
    assert Ticks(q, 5) == Ticks(q1, 4) == Ticks(q2, 3) == Ticks(q3, 2);
  }

  // ---- the assumption about buffer_count-- ----

  function Presented(q: Queue, keys: seq<Byte>): Queue {
    if keys == [] then q else Add(Presented(q, keys[..|keys| - 1]), keys[|keys| - 1])
  }

  /** `buffer_count--` as a load and a later store, with `keys` pressed in between. */
  function SplitRelease(q: Queue, keys: seq<Byte>): Queue
    requires q.count > 0
  {
    Presented(q, keys).(count := q.count - 1, pc := Return)
  }

  lemma {:induction false} PresentedAccepts(q: Queue, keys: seq<Byte>)
    requires RingOk(q)
    ensures var q' := Presented(q, keys);
      && RingOk(q') && q'.pc == q.pc && q.count <= q'.count && InFlight(q') == InFlight(q) && First(q') == First(q)
      && |Contents(q')| == |Contents(q)| + (q'.count - q.count)
      && (keys != [] && Accepts(q) ==> q'.count > q.count)
  {
    if keys != [] {
      PresentedAccepts(q, keys[..|keys| - 1]);
      AddAppends(Presented(q, keys[..|keys| - 1]), keys[|keys| - 1]);
    }
  }

  lemma SlotsPrefix(b: Ring, from: nat, n: nat, m: nat)
    requires m <= n
    ensures Slots(b, from, n)[..m] == Slots(b, from, m)
  {
  }

  /** If the decrement were a load and a store, the keys accepted in between would be in the ring but no longer
      counted: the last so many of its contents cannot be read until other presses bring the count back up. */
  lemma SplitReleaseHidesKeys(q: Queue, keys: seq<Byte>)
    requires RingOk(q) && q.pc.Release?
    ensures var queued, hidden := Contents(Presented(q, keys)), Presented(q, keys).count - q.count;
      && 0 <= hidden <= |queued|
      && Contents(SplitRelease(q, keys)) == queued[..|queued| - hidden]
      && InFlight(SplitRelease(q, keys)) == InFlight(Presented(q, keys))
  {
    hide Slots, Presented;
    PresentedAccepts(q, keys);
    var q' := Presented(q, keys);
    SlotsPrefix(q'.buffer, First(q'), Unread(q'), q.count - 1);
  }

  /** The stored count is right exactly when no key is accepted in between. */
  lemma SplitReleaseIsSafeIff(q: Queue, keys: seq<Byte>)
    requires RingOk(q) && q.pc.Release?
    ensures RingOk(SplitRelease(q, keys)) <==> keys == [] || !Accepts(q)
  {
    PresentedAccepts(q, keys);
    if keys != [] && !Accepts(q) {
      FullStaysFull(q, keys);
    }
  }

  lemma {:induction false} FullStaysFull(q: Queue, keys: seq<Byte>)
    requires !Accepts(q)
    ensures Presented(q, keys) == q
  {
    if keys != [] {
      FullStaysFull(q, keys[..|keys| - 1]);
    }
  }
}
