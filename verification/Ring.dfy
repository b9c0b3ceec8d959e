/**
  The ring buffer between the network thread and the disk thread (client/ring.c)
  under every interleaving of one producer and one consumer.

  Each mutex section is one step. The wait inside ring_reserve releases the
  mutex, so reserving is two steps: computing `next`, and taking the slot once
  space is ready. Filling the reserved slot happens outside the mutex.
*/
module Ring {

  datatype Buffer<T> = Buffer(
    slots: seq<T>,
    baseData: nat,
    countData: nat,
    countReserved: nat,
    dataReady: bool,
    spaceReady: bool,
    aborted: bool)           // one of the error() exits was taken

  /** Where the producer is; `KnownSpace`: ring_full has just returned false. */
  datatype Producer<T> = Ready | KnownSpace | Waiting(next: nat) | Holding(slot: nat) | Filled(slot: nat, item: T)

  /** Where the consumer is: between ring_peek and ring_pop it uses the slot. */
  datatype Consumer = Resting | Using(slot: nat)

  /** `sent` and `got` record what was confirmed and what was popped. */
  datatype State<T> = State(ring: Buffer<T>, producer: Producer<T>, consumer: Consumer, sent: seq<T>, got: seq<T>)

  datatype Step<T> = CheckFull | Enter | Take | Fill(item: T) | Confirm | Cancel | Peek | Pop

  // ----- the mutex sections -----------------------------------------------------------

  function Next<T>(r: Buffer<T>): nat
    requires |r.slots| >= 1
  {
    (r.baseData + r.countData + r.countReserved) % |r.slots|
  }

  function Reserve<T>(r: Buffer<T>, next: nat): Buffer<T>
    requires |r.slots| >= 1
  {
    r.(countReserved := r.countReserved + 1,
       aborted := r.aborted || r.countReserved + 1 > 1,
       spaceReady := if (next + 1) % |r.slots| == r.baseData then false else r.spaceReady)
  }

  function ConfirmSlot<T>(r: Buffer<T>): Buffer<T> {
    if r.countReserved == 0 then r.(aborted := true)
    else r.(countData := r.countData + 1, countReserved := r.countReserved - 1, dataReady := true)
  }

  function CancelSlot<T>(r: Buffer<T>): Buffer<T> {
    if r.countReserved == 0 then r.(aborted := true)
    else r.(countReserved := r.countReserved - 1, spaceReady := true)
  }

  function PopSlot<T>(r: Buffer<T>): Buffer<T>
    requires |r.slots| >= 1 && r.countData >= 1
  {
    r.(baseData := (r.baseData + 1) % |r.slots|,
       countData := r.countData - 1,
       dataReady := if r.countData - 1 == 0 then false else r.dataReady,
       spaceReady := true)
  }

  // ----- the two threads ------------------------------------------------------------------

  ghost predicate Enabled<T>(s: State<T>, a: Step<T>) {
    match a
    case CheckFull => s.producer.Ready?
    case Enter => s.producer.Ready? || s.producer.KnownSpace?
    case Take => s.producer.Waiting? && s.ring.spaceReady
    case Fill(_) => s.producer.Holding? && s.producer.slot < |s.ring.slots|
    case Confirm => s.producer.Filled?
    case Cancel => s.producer.Holding? || s.producer.Filled?
    case Peek => s.consumer.Resting? && s.ring.dataReady
    case Pop => s.consumer.Using? && s.ring.dataReady && s.ring.countData >= 1 && s.consumer.slot < |s.ring.slots|
  }

  function Apply<T>(s: State<T>, a: Step<T>): State<T>
    requires |s.ring.slots| >= 1 && Enabled(s, a)
  {
    match a
    case CheckFull => if s.ring.spaceReady then s.(producer := KnownSpace) else s
    case Enter => s.(producer := Waiting(Next(s.ring)))
    case Take => s.(ring := Reserve(s.ring, s.producer.next), producer := Holding(s.producer.next))
    case Fill(item) =>
      s.(ring := s.ring.(slots := s.ring.slots[s.producer.slot := item]), producer := Filled(s.producer.slot, item))
    case Confirm => s.(ring := ConfirmSlot(s.ring), producer := Ready, sent := s.sent + [s.producer.item])
    case Cancel => s.(ring := CancelSlot(s.ring), producer := Ready)
    case Peek => s.(consumer := Using(s.ring.baseData))
    case Pop => s.(ring := PopSlot(s.ring), consumer := Resting, got := s.got + [s.ring.slots[s.consumer.slot]])
  }

  function Start<T>(slots: seq<T>): State<T> {
    State(Buffer(slots, 0, 0, 0, false, true, false), Ready, Resting, [], [])
  }

  // ----- arithmetic of slots -----------------------------------------------------------------

  /** The slot i places behind the base. */
  function Slot(base: nat, i: nat, n: nat): nat {
    if base + i < n then base + i else base + i - n
  }

  lemma SlotIsMod(base: nat, i: nat, n: nat)
    requires base < n && i <= n
    ensures (base + i) % n == Slot(base, i, n) < n
  {
    ModOnce(base + i, n);
  }

  lemma ModOnce(x: nat, n: nat)
    requires x < 2 * n
    ensures x % n == if x < n then x else x - n
  {
  }

  /** What the ring holds, oldest first. */
  function Contents<T>(r: Buffer<T>): seq<T>
    requires r.baseData < |r.slots| && r.countData <= |r.slots|
  {
    seq(r.countData, i requires 0 <= i < r.countData => r.slots[Slot(r.baseData, i, |r.slots|)])
  }

  // ----- the invariant ---------------------------------------------------------------------------

  ghost predicate RingInv<T>(r: Buffer<T>) {
    && r.baseData < |r.slots|
    && r.countData + r.countReserved <= |r.slots|
    && (r.dataReady <==> r.countData > 0)
    && (r.spaceReady <==> r.countData + r.countReserved < |r.slots|)
    && !r.aborted
  }

  ghost predicate ProducerInv<T>(r: Buffer<T>, producer: Producer<T>)
    requires RingInv(r)
  {
    match producer
    case Ready => r.countReserved == 0
    case KnownSpace => r.countReserved == 0 && r.spaceReady
    case Waiting(next) => r.countReserved == 0 && next == Slot(r.baseData, r.countData, |r.slots|)
    case Holding(slot) => r.countReserved == 1 && slot == Slot(r.baseData, r.countData, |r.slots|)
    case Filled(slot, item) =>
      r.countReserved == 1 && slot == Slot(r.baseData, r.countData, |r.slots|) && r.slots[slot] == item
  }

  ghost predicate ConsumerInv<T>(r: Buffer<T>, consumer: Consumer) {
    consumer.Using? ==> r.countData > 0 && consumer.slot == r.baseData
  }

  ghost predicate Inv<T>(s: State<T>) {
    && RingInv(s.ring)
    && ProducerInv(s.ring, s.producer)
    && ConsumerInv(s.ring, s.consumer)
    && s.sent == s.got + Contents(s.ring)
  }

  /** The reserved slot never holds unpopped data. */
  lemma ReservedSlotIsFree<T>(r: Buffer<T>, i: nat)
    requires RingInv(r) && r.countReserved >= 1 && i < r.countData
    ensures Slot(r.baseData, i, |r.slots|) != Slot(r.baseData, r.countData, |r.slots|)
  {
  }

  lemma StartInv<T>(slots: seq<T>)
    requires |slots| >= 1
    ensures Inv(Start(slots))
  {
  }

  /** Taking the slot computed before the wait closes the ring exactly when it is now full. */
  lemma TakeInv<T>(s: State<T>)
    requires Inv(s) && Enabled(s, Take)
    ensures Inv(Apply(s, Take))
  {
    var n := |s.ring.slots|;
    var next := Slot(s.ring.baseData, s.ring.countData, n);
    SlotIsMod(next, 1, n);
    TakeContents(s.ring, next);
  }

  lemma TakeContents<T>(r: Buffer<T>, next: nat)
    requires RingInv(r)
    ensures Contents(Reserve(r, next)) == Contents(r)
  {
  }

  /** Filling the reserved slot leaves the queued data alone. */
  lemma FillContents<T>(r: Buffer<T>, item: T)
    requires RingInv(r) && r.countReserved == 1
    ensures var slot := Slot(r.baseData, r.countData, |r.slots|);
            Contents(r.(slots := r.slots[slot := item])) == Contents(r)
  {
    forall i: nat | i < r.countData
      ensures Slot(r.baseData, i, |r.slots|) != Slot(r.baseData, r.countData, |r.slots|)
    {
      ReservedSlotIsFree(r, i);
    }
  }

  lemma ConfirmContents<T>(r: Buffer<T>)
    requires RingInv(r) && r.countReserved == 1
    ensures Contents(ConfirmSlot(r)) == Contents(r) + [r.slots[Slot(r.baseData, r.countData, |r.slots|)]]
  {
  }

  /** A pop removes the head and keeps what the producer computes from the counts. */
  lemma PopContents<T>(r: Buffer<T>)
    requires RingInv(r) && r.countData >= 1
    ensures var r' := PopSlot(r);
            && RingInv(r')
            && Contents(r') == Contents(r)[1..] && Contents(r)[0] == r.slots[r.baseData]
            && Slot(r'.baseData, r'.countData, |r.slots|) == Slot(r.baseData, r.countData, |r.slots|)
  {
    SlotIsMod(r.baseData, 1, |r.slots|);
  }

  lemma PopInv<T>(s: State<T>)
    requires Inv(s) && Enabled(s, Pop)
    ensures Inv(Apply(s, Pop))
  {
    PopContents(s.ring);
    var c := Contents(s.ring);
    assert c == [c[0]] + c[1..];
  }

  lemma EnterInv<T>(s: State<T>)
    requires Inv(s) && Enabled(s, Enter)
    ensures Inv(Apply(s, Enter))
  {
    SlotIsMod(s.ring.baseData, s.ring.countData, |s.ring.slots|);
  }

  lemma StepInv<T>(s: State<T>, a: Step<T>)
    requires Inv(s) && Enabled(s, a)
    ensures Inv(Apply(s, a))
  {
    match a
    case Enter => EnterInv(s);
    case Take => TakeInv(s);
    case Fill(item) => FillContents(s.ring, item);
    case Confirm => ConfirmContents(s.ring);
    case Pop => PopInv(s);
    case Cancel => assert Contents(CancelSlot(s.ring)) == Contents(s.ring);
    case CheckFull =>
    case Peek =>
  }

  // ----- refinement of a bounded queue ------------------------------------------------------------

  /** What a step is to a queue of capacity n: nothing, an append within capacity, or a removal of the head. */
  ghost predicate QueueStep<T>(n: nat, q: seq<T>, a: Step<T>, item: T, q': seq<T>) {
    match a
    case Confirm => |q| < n && q' == q + [item]
    case Pop => |q| > 0 && q' == q[1..]
    case _ => q' == q
  }

  /**
    Every step of either thread is a step of a bounded first-in-first-out queue;
    what the consumer reads from its slot is the queue's head; and the flags say
    whether the queue has data and space.
  */
  lemma StepRefinesQueue<T>(s: State<T>, a: Step<T>)
    requires Inv(s) && Enabled(s, a)
    ensures var s' := Apply(s, a);
            && Inv(s')
            && QueueStep(|s.ring.slots|, Contents(s.ring), a,
                         if s.producer.Filled? then s.producer.item else s.ring.slots[0],
                         Contents(s'.ring))
            && (s'.consumer.Using? ==> s'.ring.slots[s'.consumer.slot] == Contents(s'.ring)[0])
            && (s'.ring.dataReady <==> Contents(s'.ring) != [])
            && (!s'.ring.spaceReady <==> |Contents(s'.ring)| + s'.ring.countReserved == |s'.ring.slots|)
  {
    StepInv(s, a);
    match a
    case Take => TakeContents(s.ring, s.producer.next);
    case Fill(item) => FillContents(s.ring, item);
    case Confirm => ConfirmContents(s.ring);
    case Pop => PopContents(s.ring);
    case Cancel => assert Contents(CancelSlot(s.ring)) == Contents(s.ring);
    case _ =>
  }

  ghost predicate Reaches<T>(s: State<T>, steps: seq<Step<T>>, t: State<T>)
    decreases |steps|
  {
    if steps == [] then s == t
    else |s.ring.slots| >= 1 && Enabled(s, steps[0]) && Reaches(Apply(s, steps[0]), steps[1..], t)
  }

  lemma {:induction false} RunInv<T>(s: State<T>, steps: seq<Step<T>>, t: State<T>)
    requires Inv(s) && Reaches(s, steps, t)
    ensures Inv(t) && |t.ring.slots| == |s.ring.slots|
    decreases |steps|
  {
    if steps != [] {
      StepInv(s, steps[0]);
      RunInv(Apply(s, steps[0]), steps[1..], t);
    }
  }

  /** In every interleaving the popped items are a prefix of the confirmed ones and no error exit is taken. */
  lemma DeliveredInOrder<T>(slots: seq<T>, steps: seq<Step<T>>, t: State<T>)
    requires |slots| >= 1 && Reaches(Start(slots), steps, t)
    ensures t.got <= t.sent && |t.sent| - |t.got| <= |slots|
    ensures !t.ring.aborted
  {
    StartInv(slots);
    RunInv(Start(slots), steps, t);
  }

  /** The error exits: a second reservation, and a confirmation or a cancel without one. */
  lemma ErrorExits<T>(r: Buffer<T>, next: nat)
    requires |r.slots| >= 1 && !r.aborted
    ensures Reserve(r, next).aborted <==> r.countReserved > 0
    ensures ConfirmSlot(r).aborted <==> r.countReserved == 0
    ensures CancelSlot(r).aborted <==> r.countReserved == 0
  {
  }

  /** With space, a producer that is ready brings an item through the four steps to the end of the queue. */
  lemma ItemGoesIn<T>(s: State<T>, item: T)
    requires Inv(s) && s.producer.Ready? && s.ring.spaceReady
    ensures Enabled(s, Enter)
    ensures var s1 := Apply(s, Enter);
            && Enabled(s1, Take)
            && var s2 := Apply(s1, Take);
               && Enabled(s2, Fill(item))
               && var s3 := Apply(s2, Fill(item));
                  && Enabled(s3, Confirm)
                  && var s4 := Apply(s3, Confirm);
                     && Inv(s4) && s4.producer.Ready? && s4.sent == s.sent + [item]
                     && Contents(s4.ring) == Contents(s.ring) + [item]
  {
    StepInv(s, Enter);
    var s1 := Apply(s, Enter);
    StepRefinesQueue(s1, Take);
    var s2 := Apply(s1, Take);
    StepRefinesQueue(s2, Fill(item));
    var s3 := Apply(s2, Fill(item));
    StepRefinesQueue(s3, Confirm);
  }

  ghost predicate ConsumerStep<T>(a: Step<T>) {
    a.Peek? || a.Pop?
  }

  /** After ring_full said no, whatever the consumer does, the producer's reservation does not wait. */
  lemma {:induction false} NotFullMeansNoWait<T>(s: State<T>, steps: seq<Step<T>>, t: State<T>)
    requires Inv(s) && s.producer.KnownSpace? && Reaches(s, steps, t)
    requires forall a :: a in steps ==> ConsumerStep(a)
    ensures Inv(t) && Enabled(t, Enter) && Enabled(Apply(t, Enter), Take)
    decreases |steps|
  {
    if steps != [] {
      assert ConsumerStep(steps[0]);
      StepInv(s, steps[0]);
      assert forall a :: a in steps[1..] ==> a in steps;
      NotFullMeansNoWait(Apply(s, steps[0]), steps[1..], t);
    }
  }

  // ----- the shared object ---------------------------------------------------------------------------

  /** The C structure; each method is one mutex section, or the copy into the reserved slot. */
  class RingBuffer<T(0)> {
    const datagrams: array<T>
    var baseData: nat
    var countData: nat
    var countReserved: nat
    var dataReady: bool
    var spaceReady: bool

    ghost function View(): Buffer<T>
      reads this, datagrams
    {
      Buffer(datagrams[..], baseData, countData, countReserved, dataReady, spaceReady, false)
    }

    ghost predicate Valid()
      reads this, datagrams
    {
      RingInv(View())
    }

    constructor (n: nat)
      requires n >= 1
      ensures Valid() && fresh(datagrams) && datagrams.Length == n
      ensures View() == Start(datagrams[..]).ring
    {
      datagrams := new T[n];
      baseData, countData, countReserved := 0, 0, 0;
      dataReady, spaceReady := false, true;
    }

    /** ring_full */
    method Full() returns (full: bool)
      requires Valid()
      ensures full <==> countData + countReserved == datagrams.Length
    {
      full := !spaceReady;
    }

    /** ring_reserve up to the wait. */
    method ComputeNext() returns (next: nat)
      requires Valid()
      ensures next == Next(View())
    {
      next := (baseData + countData + countReserved) % datagrams.Length;
    }

    /** ring_reserve behind the wait. */
    method TakeSlot(next: nat)
      requires Valid() && spaceReady && countReserved == 0
      requires next == Slot(baseData, countData, datagrams.Length)
      modifies this
      ensures Valid() && View() == Reserve(old(View()), next)
    {
      SlotIsMod(next, 1, datagrams.Length);
      countReserved := countReserved + 1;
      if (next + 1) % datagrams.Length == baseData {
        spaceReady := false;
      }
    }

    /** memcpy into the reserved slot: what is queued stays as it is. */
    method FillSlot(slot: nat, item: T)
      requires Valid() && countReserved == 1 && slot == Slot(baseData, countData, datagrams.Length)
      modifies datagrams
      ensures Valid() && datagrams[slot] == item
      ensures Contents(View()) == old(Contents(View()))
    {
      FillContents(View(), item);
      ghost var before := datagrams[..];
      datagrams[slot] := item;
      assert datagrams[..] == before[slot := item];
    }

    /** ring_confirm */
    method ConfirmReserved()
      requires Valid() && countReserved == 1
      modifies this
      ensures Valid() && View() == ConfirmSlot(old(View()))
      ensures Contents(View()) ==
              old(Contents(View())) + [datagrams[Slot(baseData, old(countData), datagrams.Length)]]
    {
      countData := countData + 1;
      countReserved := countReserved - 1;
      dataReady := true;
    }

    /** ring_cancel */
    method CancelReserved()
      requires Valid() && countReserved == 1
      modifies this
      ensures Valid() && View() == CancelSlot(old(View()))
      ensures Contents(View()) == old(Contents(View()))
    {
      countReserved := countReserved - 1;
      spaceReady := true;
    }

    /** ring_peek behind its wait. */
    method PeekHead() returns (slot: nat)
      requires Valid() && dataReady
      ensures slot < datagrams.Length && datagrams[slot] == Contents(View())[0]
    {
      slot := baseData;
    }

    /** ring_pop behind its wait. */
    method PopHead()
      requires Valid() && dataReady
      modifies this
      ensures Valid() && View() == PopSlot(old(View()))
      ensures Contents(View()) == old(Contents(View()))[1..]
    {
      SlotIsMod(baseData, 1, datagrams.Length);
      baseData := (baseData + 1) % datagrams.Length;
      countData := countData - 1;
      if countData == 0 {
        dataReady := false;
      }
      spaceReady := true;
    }
  }
}
