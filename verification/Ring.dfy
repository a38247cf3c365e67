/**
 A single-producer, single-consumer ring shared with the kernel, as the libbpf ring calls present it:
 an array of slots and free-running 32-bit indices.  Each side also has a private index: what the
 producer has reserved, what the consumer has peeked at.  The producer may rely on an outdated view of
 the consumer index.
 */
module RingBuffer {
  import opened Multiples

  const WRAP: nat := 0x1_0000_0000

  /** What a 32-bit index register holds: x mod 2^32. */
  function Wrap(x: nat): nat {
    if x < WRAP then x else Wrap(x - WRAP)
  }

  /** The slot of a position: `x & (d - 1)` for a power of two d, that is x mod d. */
  function Slot(x: nat, d: nat): (slot: nat)
    requires 0 < d
    ensures slot < d
  {
    if x < d then x else Slot(x - d, d)
  }

  lemma {:induction false} WrapIsMod(x: nat)
    ensures Wrap(x) == x % 0x1_0000_0000
  {
    if x >= WRAP {
      WrapIsMod(x - WRAP);
    }
  }

  lemma {:induction false} SlotIsMod(x: nat, d: nat)
    requires 0 < d
    ensures Slot(x, d) == x % d
  {
    if x >= d {
      SlotIsMod(x - d, d);
      RemainderStep(x, d);
    }
  }

  lemma WrapAdd(x: nat, k: nat)
    ensures Wrap(Wrap(x) + k) == Wrap(x + k)
  {
    WrapIsMod(x);
    WrapIsMod(x + k);
    WrapIsMod(Wrap(x) + k);
  }

  /** The distance between two free-running indices, computed on 32 bits. */
  lemma WrapSub(x: nat, y: nat)
    requires y <= x < y + WRAP
    ensures Wrap(y) < WRAP && Wrap(Wrap(x) + WRAP - Wrap(y)) == x - y
  {
    WrapIsMod(x);
    WrapIsMod(y);
    WrapIsMod(Wrap(x) + WRAP - Wrap(y));
  }

  /** The producer's count of free slots, computed on 32 bits. */
  lemma FreeSlots(known: nat, size: nat, to: nat)
    requires to <= known + size < to + WRAP
    ensures Wrap(to) < WRAP
    ensures Wrap(Wrap(Wrap(known) + size) + WRAP - Wrap(to)) == known + size - to
  {
    WrapAdd(known, size);
    WrapSub(known + size, to);
  }

  /** Adding multiples of the ring size does not change the slot. */
  lemma {:induction false} SlotShift(x: nat, k: nat, d: nat)
    requires 0 < d
    ensures Slot(x + Times(k, d), d) == Slot(x, d)
  {
    if k > 0 {
      SlotShift(x, k - 1, d);
    }
  }

  /** A ring whose size divides 2^32 sees no seam when the 32-bit index wraps. */
  lemma {:induction false} WrapIsSeamless(x: nat, k: nat, d: nat)
    requires 0 < d && WRAP == Times(k, d)
    ensures Slot(Wrap(x), d) == Slot(x, d)
  {
    if x >= WRAP {
      WrapIsSeamless(x - WRAP, k, d);
      SlotShift(x - WRAP, k, d);
    }
  }

  /** Positions less than a ring apart lie in distinct slots. */
  lemma {:induction false} DistinctSlots(x: nat, y: nat, d: nat)
    requires 0 < d && x < y < x + d
    ensures Slot(x, d) != Slot(y, d)
  {
    if x >= d {
      DistinctSlots(x - d, y - d, d);
    }
  }

  lemma OtherSlots(from: nat, at: nat, d: nat)
    requires 0 < d && from <= at < from + d
    ensures forall i :: from <= i < at ==> Slot(i, d) != Slot(at, d)
  {
    forall i | from <= i < at
      ensures Slot(i, d) != Slot(at, d)
    {
      DistinctSlots(i, at, d);
    }
  }

  class Ring<T(0)> {
    const size: nat
    const laps: nat   // 2^32 / size: the size divides the index range
    const slots: array<T>

    // Indices as stored: 32 bits, free running.
    var producer: nat       // published up to here
    var consumer: nat       // released up to here
    var reservedTo: nat     // producer side: reserved up to here
    var peekedTo: nat       // consumer side: handed out up to here
    var knownConsumer: nat  // producer side: the consumer index when last looked at
    var knownProducer: nat  // consumer side: the producer index when last looked at

    // What the indices mean: positions in the unbounded log of everything ever published.
    ghost var log: seq<T>
    ghost var taken: nat    // entries released by the consumer
    ghost var seen: nat     // entries the producer knows to be released
    ghost var noticed: nat  // entries the consumer knows to be published
    ghost var lent: nat     // entries peeked at, not yet released
    ghost var booked: nat   // slots reserved, not yet submitted
    ghost var staged: seq<T>  // values already stored in the first reserved slots

    ghost predicate Valid()
      reads this, slots
    {
      && 0 < size < WRAP && WRAP == Times(laps, size) && slots.Length == size
      && seen <= taken && taken + lent <= noticed <= |log|
      && |staged| <= booked && |log| + booked <= seen + size
      && producer == Wrap(|log|)
      && consumer == Wrap(taken)
      && reservedTo == Wrap(|log| + booked)
      && peekedTo == Wrap(taken + lent)
      && knownConsumer == Wrap(seen)
      && knownProducer == Wrap(noticed)
      && (forall i :: taken <= i < |log| ==> slots[Slot(i, size)] == log[i])
      && (forall i :: |log| <= i < |log| + |staged| ==> slots[Slot(i, size)] == staged[i - |log|])
    }

    /** Published and not yet released, oldest first. */
    ghost function Entries(): seq<T>
      reads this
      requires taken <= |log|
    {
      log[taken..]
    }

    constructor (n: nat, k: nat, initial: T)
      requires 0 < n < WRAP && WRAP == Times(k, n)
      ensures Valid() && fresh(slots)
      ensures size == n && log == [] && taken == 0 && seen == 0 && lent == 0 && booked == 0 && staged == []
      ensures noticed == 0
    {
      size, laps := n, k;
      slots := new T[n](_ => initial);
      producer, consumer, reservedTo, peekedTo, knownConsumer, knownProducer := 0, 0, 0, 0, 0, 0;
      log, taken, seen, noticed, lent, booked, staged := [], 0, 0, 0, 0, 0, [];
    }

    method Occupied() returns (n: nat)
      requires Valid()
      ensures n == |log| - taken
    {
      hide Wrap, Times;
      WrapSub(|log|, taken);
      n := Wrap(producer + WRAP - consumer);
    }

    // ---- producer side

    /**
     Free slots the producer can rely on.  The count is not limited by what the caller asks for; the view
     of the consumer is renewed exactly when it does not cover that.
     */
    method NbFree(nb: nat) returns (free: nat)
      requires Valid()
      modifies `knownConsumer, `seen
      ensures Valid()
      ensures free == size - (|log| + booked - seen)
      ensures seen == if nb <= size - (|log| + booked - old(seen)) then old(seen) else taken
    {
      hide Wrap, Times;
      FreeSlots(seen, size, |log| + booked);
      free := Wrap(Wrap(knownConsumer + size) + WRAP - reservedTo);
      if free < nb {
        knownConsumer := consumer;
        seen := taken;
        FreeSlots(seen, size, |log| + booked);
        free := Wrap(Wrap(knownConsumer + size) + WRAP - reservedTo);
      }
    }

    /** All or nothing. */
    method Reserve(nb: nat) returns (got: nat, idx: nat)
      requires Valid() && booked == 0
      modifies `knownConsumer, `seen, `reservedTo, `booked
      ensures Valid()
      ensures seen == if nb <= size - (|log| - old(seen)) then old(seen) else taken
      ensures got == if nb <= size - (|log| - seen) then nb else 0
      ensures booked == got && idx == Wrap(|log|)
    {
      hide Wrap, Times;
      var free := NbFree(nb);
      idx := reservedTo;
      if free < nb {
        got := 0;
      } else {
        got := nb;
        WrapAdd(|log|, nb);
        reservedTo := Wrap(reservedTo + nb);
        booked := nb;
      }
    }

    /** Store a value in the next reserved slot. */
    method Store(idx: nat, v: T)
      requires Valid() && |staged| < booked
      requires idx == Wrap(|log| + |staged|)
      modifies `staged, slots
      ensures Valid()
      ensures staged == old(staged) + [v]
    {
      hide Wrap, Times;
      ghost var at := |log| + |staged|;
      WrapIsSeamless(at, laps, size);
      OtherSlots(taken, at, size);
      slots[Slot(idx, size)] := v;
      staged := staged + [v];
    }

    /** Publish everything reserved. */
    method Submit(nb: nat)
      requires Valid() && nb == booked == |staged|
      modifies `producer, `log, `booked, `staged
      ensures Valid()
      ensures log == old(log + staged) && booked == 0 && staged == []
    {
      hide Wrap, Times;
      WrapAdd(|log|, nb);
      producer := Wrap(producer + nb);
      log := log + staged;
      booked := 0;
      staged := [];
    }

    // ---- consumer side

    /**
     The entries known to be available, but no more than nb of them.  The view of the producer is renewed
     exactly when no entry is known to be available.
     */
    method Peek(nb: nat) returns (got: nat, idx: nat)
      requires Valid() && lent == 0
      modifies `knownProducer, `noticed, `peekedTo, `lent
      ensures Valid()
      ensures noticed == if old(noticed) == taken then |log| else old(noticed)
      ensures got == if noticed - taken <= nb then noticed - taken else nb
      ensures lent == got && idx == Wrap(taken)
    {
      hide Wrap, Times;
      WrapSub(noticed, taken);
      var available := Wrap(knownProducer + WRAP - peekedTo);
      if available == 0 {
        knownProducer := producer;
        noticed := |log|;
        WrapSub(noticed, taken);
        available := Wrap(knownProducer + WRAP - peekedTo);
      }
      got := if available <= nb then available else nb;
      idx := peekedTo;
      WrapAdd(taken, got);
      peekedTo := Wrap(peekedTo + got);
      lent := got;
    }

    method Load(idx: nat, ghost i: nat) returns (v: T)
      requires Valid() && i < lent && idx == Wrap(taken + i)
      ensures v == log[taken + i]
    {
      hide Wrap, Times;
      WrapIsSeamless(taken + i, laps, size);
      v := slots[Slot(idx, size)];
    }

    /** Give the peeked slots back to the producer. */
    method Release(nb: nat)
      requires Valid() && nb == lent
      modifies `consumer, `taken, `lent
      ensures Valid()
      ensures taken == old(taken) + nb && lent == 0
    {
      hide Wrap, Times;
      WrapAdd(taken, nb);
      consumer := Wrap(consumer + nb);
      taken := taken + nb;
      lent := 0;
    }

    // ---- the kernel, which reserves and submits, or peeks and releases, one entry at a time

    method ConsumeOne() returns (v: T)
      requires Valid() && lent == 0 && taken < |log|
      modifies `consumer, `peekedTo, `taken, `lent, `knownProducer, `noticed
      ensures Valid()
      ensures v == log[old(taken)] && taken == old(taken) + 1 && lent == 0
    {
      hide Wrap, Times;
      knownProducer := producer;
      noticed := |log|;
      var idx := peekedTo;
      WrapAdd(taken, 1);
      peekedTo := Wrap(peekedTo + 1);
      lent := 1;
      v := Load(idx, 0);
      Release(1);
    }

    method ProduceOne(v: T)
      requires Valid() && booked == 0 && |log| - taken < size
      modifies this`producer, this`reservedTo, this`knownConsumer, this`log, this`seen, this`booked, this`staged, slots
      ensures Valid()
      ensures log == old(log) + [v] && booked == 0 && staged == []
    {
      hide Wrap, Times;
      knownConsumer := consumer;
      seen := taken;
      var idx := reservedTo;
      WrapAdd(|log|, 1);
      reservedTo := Wrap(reservedTo + 1);
      booked := 1;
      Store(idx, v);
      Submit(1);
    }
  }
}
