/**
 The AF_XDP socket of `xdp-xsk-user.c`: the frame pool, the two rings and the receive loop, run next to
 a kernel that may consume fill entries and deliver packets before any call of the program.
 */
module XskSocket {
  import opened Multiples
  import opened FrameProtocol
  import opened ProgramOrder
  import opened FrameShortage
  import opened RingBuffer

  class Socket {
    const w: Params
    const fq: Ring<Addr>  // umem->fq
    const rx: Ring<Addr>  // the addr fields of the RX descriptors
    const umem_frame_addr: array<Addr>
    var umem_frame_free: nat

    var held: set<nat>        // frames in kernel hands
    ghost var freed: nat            // entries of the peeked batch already back in the pool
    ghost var trace: seq<Action>    // everything that happened so far
    ghost var pc: Pc                // where the program is
    ghost var peeks: nat            // rounds of the receive loop so far

    /** The frames are set out in address order; both rings are empty. */
    constructor (params: Params, fillLaps: nat, rxLaps: nat)
      requires params.Ok() && Times(fillLaps, params.p) == WRAP == Times(rxLaps, params.r)
      requires params.p < WRAP && params.r < WRAP
      ensures w == params && Valid() && pc == Unfilled && peeks == 0 && fresh(fq) && fresh(rx)
    {
      w := params;
      fq := new Ring(params.p, fillLaps, 0);
      rx := new Ring(params.r, rxLaps, 0);
      umem_frame_addr := new Addr[params.n];
      umem_frame_free := 0;
      held, freed, trace, pc, peeks := {}, 0, [], Unfilled, 0;
      new;
      hide Ring.Valid, Times, Wrap, Valid, Params.Ok, Initial;
      LayOut();
      StartsValid();
    }

    lemma StartsValid()
      requires w.Ok() && fq.size == w.p && rx.size == w.r && umem_frame_addr.Length == w.n == umem_frame_free
      requires fq != rx && fq.slots != rx.slots && fq.slots != umem_frame_addr && rx.slots != umem_frame_addr
      requires fq.Valid() && fq.log == [] && fq.taken == fq.lent == fq.booked == 0 && fq.staged == []
      requires rx.Valid() && rx.log == [] && rx.taken == rx.lent == rx.booked == 0 && rx.staged == []
      requires umem_frame_addr[..] == FirstFrames(w, w.n) && held == {} && freed == 0 && trace == []
      requires fq.seen == 0 && pc == Unfilled && peeks == 0
      ensures Valid()
    {
      hide Ring.Valid, Params.Ok, FirstFrames;
      assert umem_frame_addr[..umem_frame_free] == umem_frame_addr[..];
      assert Abs() == Initial(w);
    }

    // Partition the UMEM into an array of frames.
    method LayOut()
      requires w.Ok() && umem_frame_addr.Length == w.n
      modifies umem_frame_addr, `umem_frame_free
      ensures umem_frame_free == w.n && umem_frame_addr[..] == FirstFrames(w, w.n)
      ensures forall i :: 0 <= i < w.n ==> umem_frame_addr[i] == i * w.f
    {
      var i := 0;
      while i < w.n
        invariant 0 <= i <= w.n
        invariant umem_frame_addr[..i] == FirstFrames(w, i)
      {
        AddressIsProduct(w, i, 0);
        umem_frame_addr[i] := i * w.f;
        assert umem_frame_addr[..i + 1] == umem_frame_addr[..i] + [Address(w, i, 0)];
        i := i + 1;
      }
      umem_frame_free := w.n;
      assert umem_frame_addr[..] == umem_frame_addr[..w.n];
      forall i | 0 <= i < w.n
        ensures umem_frame_addr[i] == i * w.f
      {
        FirstFramesAt(w, w.n, i);
        assert umem_frame_addr[i] == umem_frame_addr[..][i];
      }
    }

    // ---- footprint and abstraction

    ghost predicate Shape()
      reads this, fq, rx, fq.slots, rx.slots
    {
      && w.Ok() && fq.size == w.p && rx.size == w.r
      && umem_frame_addr.Length == w.n
      && fq != rx && fq.slots != rx.slots && fq.slots != umem_frame_addr && rx.slots != umem_frame_addr
      && fq.Valid() && rx.Valid()
      && fq.lent == 0 && rx.booked == 0 && rx.staged == []
      && umem_frame_free <= w.n
    }

    ghost function Abs(): State
      reads this, fq, rx, umem_frame_addr
      requires umem_frame_free <= umem_frame_addr.Length && fq.taken <= |fq.log| && rx.taken <= |rx.log|
    {
      State(umem_frame_addr[..umem_frame_free], fq.staged, fq.booked, fq.Entries(), held, rx.Entries(), rx.lent, freed)
    }

    /** The socket is in a state that the recorded events, in program order, lead to from the initial one. */
    ghost predicate Valid()
      reads this, fq, rx, fq.slots, rx.slots, umem_frame_addr
    {
      Shape() && AtPc() && ProgramRun(w, trace, Abs(), pc) && peeks == Peeks(trace)
    }

    /**
     What is under way at each point of the program.  Once the ring was populated, the producer knows of no
     free slot but those just counted.
     */
    ghost predicate AtPc()
      reads this, fq, rx
    {
      && fq.booked == |fq.staged| + (if pc.Storing? then pc.left else 0)
      && (!pc.Storing? ==> fq.staged == [])
      && rx.lent == freed + pc.Packets()
      && (!pc.Recycling? ==> freed == 0)
      && (if pc.Unfilled? then fq.log == [] && fq.seen == 0
          else |fq.log| + fq.booked + (if pc.Sampled? then pc.k else 0) == fq.seen + fq.size)
    }

    /** Slots above the stack top are cleared. */
    ghost predicate Cleared()
      reads `umem_frame_free, umem_frame_addr
    {
      forall i :: umem_frame_free <= i < umem_frame_addr.Length ==> umem_frame_addr[i] == INVALID_UMEM_FRAME
    }

    /** A step of the program other than a peek, which brings it to `next`. */
    ghost method Record(a: Action, was: State, next: Pc)
      requires w.Ok() && ProgramRun(w, trace, was, pc) && peeks == Peeks(trace) && !a.Peek?
      requires Enabled(w, was, a) && Follows(w, was, pc, a, next)
      modifies `trace, `pc
      ensures trace == old(trace) + [a] && pc == next && peeks == Peeks(trace)
      ensures ProgramRun(w, trace, Step(w, was, a), pc)
    {
      hide ProgramRun, Peeks, Step, Enabled, Follows, Times, Params.Ok;
      Next(w, trace, was, pc, a, next);
      PeeksPush(trace, a);
      trace, pc := trace + [a], next;
    }

    ghost method RecordPeek(k: nat, was: State, next: Pc)
      requires w.Ok() && ProgramRun(w, trace, was, pc) && peeks == Peeks(trace)
      requires Enabled(w, was, Peek(k)) && Follows(w, was, pc, Peek(k), next)
      modifies `trace, `pc, `peeks
      ensures trace == old(trace) + [Peek(k)] && pc == next && peeks == Peeks(trace) == old(peeks) + 1
      ensures ProgramRun(w, trace, Step(w, was, Peek(k)), pc)
    {
      hide ProgramRun, Peeks, Step, Enabled, Follows, Times, Params.Ok;
      Next(w, trace, was, pc, Peek(k), next);
      PeeksPush(trace, Peek(k));
      trace, pc, peeks := trace + [Peek(k)], next, peeks + 1;
    }

    /** A step of the kernel, wherever the program is. */
    ghost method RecordKernel(a: Action, was: State)
      requires w.Ok() && ProgramRun(w, trace, was, pc) && peeks == Peeks(trace) && (a.Take? || a.Deliver?)
      requires Enabled(w, was, a)
      modifies `trace
      ensures trace == old(trace) + [a] && peeks == Peeks(trace)
      ensures ProgramRun(w, trace, Step(w, was, a), pc)
    {
      hide ProgramRun, Peeks, Step, Enabled, Times, Params.Ok, FreeCount;
      Next(w, trace, was, pc, a, pc);
      PeeksPush(trace, a);
      trace := trace + [a];
    }

    // ---- the kernel

    /** Nothing but kernel steps happened: the program's own indices, slots and pool are as they were. */
    twostate predicate KernelOnly()
      reads this, fq, rx
    {
      && old(trace) <= trace
      && old(fq.taken) <= fq.taken
      && old(rx.log) <= rx.log
    }

    method KernelTakes()
      requires Valid() && fq.taken < |fq.log|
      modifies fq`consumer, fq`peekedTo, fq`taken, fq`lent, fq`knownProducer, fq`noticed, `held, `trace
      ensures Valid() && KernelOnly()
    {
      hide ProgramRun, Peeks, Times, Ring.Valid, Wrap, Slot, FrameOf;
      RingBounds();
      ghost var was := Abs();
      var a := fq.ConsumeOne();
      assert was.fill[0] == a;
      FrameOfIsQuotient(w, a);
      if a / w.f < w.n {
        held := held + {a / w.f};
      }
      RecordKernel(Take, was);
      assert Abs() == Step(w, was, Take);
    }

    method KernelDelivers(frame: nat, off: nat)
      requires Valid() && frame in held && frame < w.n && off < w.f && |rx.log| - rx.taken < w.r
      modifies rx`producer, rx`reservedTo, rx`knownConsumer, rx`log, rx`seen, rx`booked, rx`staged, rx.slots,
               `held, `trace
      ensures Valid() && KernelOnly()
    {
      hide ProgramRun, Peeks, Times, Ring.Valid, Wrap, Slot;
      RingBounds();
      ghost var was := Abs();
      AddressIsProduct(w, frame, off);
      rx.ProduceOne(frame * w.f + off);
      held := held - {frame};
      RecordKernel(Deliver(frame, off), was);
      assert Abs() == Step(w, was, Deliver(frame, off));
    }

    /** Any number of kernel steps, in any order. */
    method Interfere()
      requires Valid()
      modifies fq`consumer, fq`peekedTo, fq`taken, fq`lent, fq`knownProducer, fq`noticed,
               rx`producer, rx`reservedTo, rx`knownConsumer, rx`log, rx`seen, rx`booked, rx`staged, rx.slots,
               `held, `trace
      ensures Valid() && KernelOnly()
    {
      hide ProgramRun, Peeks, Times, Step, Enabled, AtPc, Wrap, Abs;
      var steps: nat := *;
      while steps > 0
        invariant Valid() && KernelOnly()
      {
        if * {
          var n := fq.Occupied();
          if n > 0 {
            KernelTakes();
          }
        } else {
          var frame: nat, off: nat := *, *;
          var n := rx.Occupied();
          if frame in held && frame < w.n && off < w.f && n < w.r {
            KernelDelivers(frame, off);
          }
        }
        steps := steps - 1;
      }
    }

    // ---- the frame allocator

    method AllocFrame() returns (frame: Addr)
      requires umem_frame_free <= umem_frame_addr.Length
      modifies umem_frame_addr, `umem_frame_free
      ensures old(umem_frame_free) == 0 ==> umem_frame_free == 0 && frame == 0xFFFF_FFFF_FFFF_FFFF
      ensures old(umem_frame_free) > 0 ==>
        && umem_frame_free == old(umem_frame_free) - 1
        && frame == old(umem_frame_addr[umem_frame_free - 1])
        && umem_frame_addr[umem_frame_free] == 0xFFFF_FFFF_FFFF_FFFF
      ensures frame == Popped(old(umem_frame_addr[..umem_frame_free]))
      ensures umem_frame_free <= umem_frame_addr.Length
      ensures umem_frame_addr[..umem_frame_free] == Rest(old(umem_frame_addr[..umem_frame_free]))
      ensures old(Cleared()) ==> Cleared()
    {
      if umem_frame_free == 0 {
        return INVALID_UMEM_FRAME;
      }
      umem_frame_free := umem_frame_free - 1;
      frame := umem_frame_addr[umem_frame_free];
      umem_frame_addr[umem_frame_free] := INVALID_UMEM_FRAME;
    }

    // The requires is the source's assert.
    method FreeFrame(frame: Addr)
      requires umem_frame_free < umem_frame_addr.Length
      modifies umem_frame_addr, `umem_frame_free
      ensures umem_frame_free <= umem_frame_addr.Length
      ensures umem_frame_free == old(umem_frame_free) + 1 && umem_frame_addr[umem_frame_free - 1] == frame
      ensures umem_frame_addr[..umem_frame_free] == old(umem_frame_addr[..umem_frame_free]) + [frame]
      ensures old(Cleared()) ==> Cleared()
    {
      umem_frame_addr[umem_frame_free] := frame;
      umem_frame_free := umem_frame_free + 1;
    }

    ghost function Pool(): seq<Addr>
      reads `umem_frame_free, umem_frame_addr
    {
      if umem_frame_free <= umem_frame_addr.Length then umem_frame_addr[..umem_frame_free] else []
    }

    // ---- filling the fill ring

    /** Pop a frame and store it in the next reserved slot; the kernel sees neither before Submit. */
    method StageFrame(idx: nat) returns (next: nat)
      requires Valid() && pc.Storing? && pc.left > 0 && idx == Wrap(|fq.log| + |fq.staged|)
      modifies fq`staged, fq.slots, umem_frame_addr, `umem_frame_free, `trace, `pc
      ensures Valid() && old(trace) <= trace && pc == Storing(old(pc.left) - 1, old(pc.count))
      ensures fq.staged == old(fq.staged) + [Popped(old(Pool()))]
      ensures Pool() == Rest(old(Pool()))
      ensures next == Wrap(|fq.log| + |fq.staged|)
      ensures old(Cleared()) ==> Cleared()
    {
      hide ProgramRun, Peeks, Times, Wrap, Ring.Valid;
      RingBounds();
      ghost var was := Abs();
      WrapAdd(|fq.log| + |fq.staged|, 1);
      var frame := AllocFrame();
      fq.Store(idx, frame);
      next := Wrap(idx + 1);
      Record(Stage, was, Storing(pc.left - 1, pc.count));
      assert Abs() == Step(w, was, Stage);
    }

    /** Store a popped frame in each reserved slot, then submit. */
    method FillAndSubmit(nreserved: nat, first: nat)
      requires Valid() && pc.Storing? && pc.left == nreserved && fq.staged == [] && first == Wrap(|fq.log|)
      modifies fq, fq.slots,
               rx`producer, rx`reservedTo, rx`knownConsumer, rx`log, rx`seen, rx`booked, rx`staged, rx.slots,
               umem_frame_addr, `umem_frame_free, `held, `trace, `pc
      ensures Valid() && KernelOnly() && pc == if old(pc.count) == 0 then Ready else Recycling(old(pc.count))
      ensures fq.log == old(fq.log) + Batch(old(Pool()), nreserved)
      ensures Pool() == Left(old(Pool()), nreserved)
      ensures old(Cleared()) ==> Cleared()
    {
      hide ProgramRun, Peeks, Times, Wrap, Step, Enabled, Follows, Batch, Left, Params.Ok, Popped, Rest;
      hide Ring.Valid, Cleared, Pool, Abs, Initial, AtPc;
      BatchStart(Pool());
      var idx := first;
      var i := 0;
      while i < nreserved
        invariant 0 <= i <= nreserved && pc == Storing(nreserved - i, old(pc.count))
        invariant Valid() && KernelOnly() && fq.log == old(fq.log)
        invariant fq.staged == Batch(old(Pool()), i) && Pool() == Left(old(Pool()), i)
        invariant idx == Wrap(|fq.log| + i)
        invariant old(Cleared()) ==> Cleared()
      {
        Interfere();
        BatchNext(old(Pool()), i);
        idx := StageFrame(idx);
        i := i + 1;
      }
      Interfere();
      SubmitAll(nreserved);
    }

    method SubmitAll(nreserved: nat)
      requires Valid() && pc.Storing? && pc.left == 0 && |fq.staged| == nreserved
      modifies fq`producer, fq`log, fq`booked, fq`staged, `trace, `pc
      ensures Valid() && old(trace) <= trace
      ensures pc == if old(pc.count) == 0 then Ready else Recycling(old(pc.count))
      ensures fq.log == old(fq.log + fq.staged)
    {
      hide ProgramRun, Peeks, Times, Wrap;
      ghost var was := Abs();
      fq.Submit(nreserved);
      Record(FrameProtocol.Submit, was, if pc.count == 0 then Ready else Recycling(pc.count));
      assert Abs() == Step(w, was, FrameProtocol.Submit);
    }

    /** The count that xsk_prod_nb_free gives for the pool size: exact, or zero for an empty pool. */
    method SampleFreeSlots() returns (free: nat)
      requires Valid() && pc.Peeked?
      modifies fq`knownConsumer, fq`seen, `trace, `pc
      ensures Valid() && trace == old(trace) + [Sample(free)] && pc == Sampled(free, old(pc.count))
      ensures free == FreeCount(w, old(Abs()))
    {
      hide ProgramRun, Peeks, Wrap, Times;
      ghost var was := Abs();
      free := fq.NbFree(umem_frame_free);
      Record(FrameProtocol.Sample(free), was, Sampled(free, pc.count));
      assert Abs() == was;
    }

    /** The reservation succeeds at once: all of the ring is free at first, and what was counted later on. */
    method ReserveSlots(nb: nat) returns (got: nat, idx: nat)
      requires Valid() && nb > 0 && if pc.Unfilled? then nb == w.p else pc.Sampled? && nb == pc.k
      modifies fq`knownConsumer, fq`seen, fq`reservedTo, fq`booked, `trace, `pc
      ensures Valid() && old(trace) <= trace && got == nb && idx == Wrap(|fq.log|)
      ensures pc == Storing(nb, old(pc.Packets())) && fq.staged == []
    {
      hide ProgramRun, Peeks, Times, Wrap, Ring.Valid, Params.Ok, FreeCount, FirstFrames, Slot;
      RingBounds();
      ghost var was := Abs();
      got, idx := fq.Reserve(nb);
      Record(FrameProtocol.Reserve(got), was, Storing(nb, pc.Packets()));
      assert Abs() == Step(w, was, FrameProtocol.Reserve(got));
    }

    /**
     Replenish the fill ring.  k frames, popped top down, are published in that order.  k is the exact
     number of free slots at the moment of counting, or zero for an empty pool; the retry loop
     succeeds at once.  The size of the pool does not limit k: with a pool that is not empty, the frames
     published are all real exactly when no more frames were out at that moment than a full ring leaves
     room for.
     */
    method ReplenishFillRing() returns (ghost k: nat, ghost at: nat, ghost sampled: State)
      requires Valid() && pc.Peeked? && pc.count > 0
      modifies fq, fq.slots,
               rx`producer, rx`reservedTo, rx`knownConsumer, rx`log, rx`seen, rx`booked, rx`staged, rx.slots,
               umem_frame_addr, `umem_frame_free, `held, `trace, `pc
      ensures Valid() && KernelOnly()
      ensures pc == if k == 0 then Sampled(0, old(pc.count)) else Recycling(old(pc.count))
      ensures fq.log == old(fq.log) + Batch(old(Pool()), k)
      ensures Pool() == Left(old(Pool()), k)
      ensures |old(trace)| <= at < |trace| && trace[at] == Sample(k)
      ensures ProgramRun(w, trace[..at], sampled, old(pc)) && sampled.pool == old(Pool())
      ensures k == FreeCount(w, sampled)
      ensures k == if old(umem_frame_free) == 0 then 0 else w.p - |sampled.fill|
      ensures |fq.log| == |old(fq.log)| + k
      ensures TopDown(fq.log[|old(fq.log)|..], old(umem_frame_addr[..umem_frame_free]))
      ensures umem_frame_free == if k <= old(umem_frame_free) then old(umem_frame_free) - k else 0
      ensures AllReal(w, Batch(old(Pool()), k)) <==> k <= |old(Pool())|
      ensures AllReal(w, Batch(old(Pool()), k)) <==> Covered(w, sampled)
      ensures old(Cleared()) ==> Cleared()
    {
      hide ProgramRun, Peeks, Times, Wrap, Step, Enabled, Follows, Batch, Left, Inv, AllReal, FreeCount, Covered;
      hide Params.Ok, Ring.Valid, Cleared, Pool, Abs, Initial, AtPc, TopDown;
      BatchStart(Pool());
      Interfere();
      at := |trace|;
      sampled := Snapshot();
      ghost var before := trace;
      assert before[..at] == before;
      var nframes := SampleFreeSlots();
      k := nframes;
      FreeCountIs(sampled);
      PoolIs();
      ghost var until := trace;
      if nframes > 0 {
        var nreserved, idx := 0, 0;
        while nreserved < 1
          invariant Valid() && KernelOnly() && fq.log == old(fq.log) && (nreserved > 0 ==> fq.staged == [])
          invariant until <= trace
          invariant nreserved == 0 || nreserved == nframes
          invariant pc == if nreserved == 0 then Sampled(nframes, old(pc.count)) else Storing(nframes, old(pc.count))
          invariant nreserved > 0 ==> idx == Wrap(|fq.log|)
          invariant Pool() == old(Pool()) && (old(Cleared()) ==> Cleared())
          decreases nreserved == 0
        {
          Interfere();
          nreserved, idx := ReserveSlots(nframes);
        }
        FillAndSubmit(nreserved, idx);
      }
      assert trace[..at] == until[..at] == before;
      PoolIs();
      LeftSize(old(Pool()), k);
      BatchTopDown(old(Pool()), k);
      assert fq.log[|old(fq.log)|..] == Batch(old(Pool()), k);
    }

    lemma FreeCountIs(s: State)
      requires w.Ok()
      ensures FreeCount(w, s) == if s.pool == [] then 0 else w.p - |s.fill|
    {
    }

    lemma PoolIs()
      requires Valid()
      ensures umem_frame_free <= umem_frame_addr.Length
      ensures Pool() == umem_frame_addr[..umem_frame_free] && |Pool()| == umem_frame_free
    {
      hide ProgramRun, Peeks, Ring.Valid;
    }

    lemma Snapshot() returns (s: State)
      requires Valid() && pc.Peeked?
      ensures ProgramRun(w, trace, s, pc) && s == Abs() && s.pool == Pool()
      ensures forall k: nat :: AllReal(w, Batch(s.pool, k)) <==> k <= |s.pool|
      ensures FreeCount(w, s) <= |s.pool| <==> Covered(w, s)
    {
      hide ProgramRun, Batch, Outstanding;
      s := Abs();
      ProgramRunIsRun(w, trace, s, pc);
      RunKeepsInv(w, trace, s);
      forall k: nat
        ensures AllReal(w, Batch(s.pool, k)) <==> k <= |s.pool|
      {
        BatchRealIff(w, s.pool, k);
      }
      FullReserveExceedsPoolIff(w, s);
    }

    // ---- receiving

    method PeekBatch() returns (rcvd: nat, idx: nat)
      requires Valid() && pc.Ready?
      modifies rx`knownProducer, rx`noticed, rx`peekedTo, rx`lent, `trace, `pc, `peeks
      ensures Valid() && old(trace) <= trace && peeks == old(peeks) + 1
      ensures pc == if rcvd == 0 then Ready else Peeked(rcvd)
      ensures rx.noticed == if old(rx.noticed) == rx.taken then |rx.log| else old(rx.noticed)
      ensures rcvd == if rx.noticed - rx.taken <= 16 then rx.noticed - rx.taken else 16
      ensures rx.taken <= old(rx.noticed) && rx.taken + rcvd <= rx.noticed <= |rx.log| && idx == Wrap(rx.taken)
    {
      hide ProgramRun, Peeks, Times, Wrap;
      ghost var was := Abs();
      rcvd, idx := rx.Peek(RX_BATCH_SIZE);
      RecordPeek(rcvd, was, if rcvd == 0 then Ready else Peeked(rcvd));
      assert Abs() == Step(w, was, FrameProtocol.Peek(rcvd));
    }

    lemma RingBounds()
      requires Valid()
      ensures fq.seen <= fq.taken <= |fq.log| && rx.taken + rx.lent <= |rx.log|
    {
      hide ProgramRun, Peeks, Times, Wrap, Slot;
    }

    lemma RoomForFree()
      requires Valid() && freed < rx.lent
      ensures umem_frame_free < w.n
    {
      hide ProgramRun, Peeks;
      ProgramRunIsRun(w, trace, Abs(), pc);
      PoolNeverFull(w, trace, Abs());
    }

    /** Return the frame of one processed packet to the pool; the source's assertion cannot fail. */
    method RecyclePacket(idx: nat) returns (next: nat)
      requires Valid() && pc.Packets() > 0 && (pc.Recycling? || (pc.Sampled? && pc.k == 0))
      requires idx == Wrap(rx.taken + freed)
      modifies umem_frame_addr, `umem_frame_free, `freed, `trace, `pc
      ensures Valid() && old(trace) <= trace && pc == Recycling(old(pc.Packets()) - 1)
      ensures freed == old(freed) + 1 && next == Wrap(rx.taken + freed)
      ensures rx.taken + old(freed) < |rx.log|
      ensures Pool() == old(Pool()) + [rx.log[rx.taken + old(freed)]]
      ensures old(Cleared()) ==> Cleared()
    {
      hide ProgramRun, Peeks, Times, Wrap, Ring.Valid;
      RingBounds();
      ghost var was := Abs();
      var addr := rx.Load(idx, freed);
      WrapAdd(rx.taken + freed, 1);
      next := Wrap(idx + 1);
      RoomForFree();
      FreeFrame(addr);
      freed := freed + 1;
      Record(Free, was, Recycling(pc.Packets() - 1));
      assert Abs() == Step(w, was, Free);
    }

    method ReleaseBatch(nb: nat)
      requires Valid() && pc == Recycling(0) && rx.lent == nb
      modifies rx`consumer, rx`taken, rx`lent, `freed, `trace, `pc
      ensures Valid() && old(trace) <= trace && pc == Ready
      ensures rx.taken == old(rx.taken) + nb
    {
      hide ProgramRun, Peeks, Times, Wrap;
      ghost var was := Abs();
      rx.Release(nb);
      freed := 0;
      Record(FrameProtocol.Release, was, Ready);
      assert Abs() == Step(w, was, FrameProtocol.Release);
    }

    /** Return the frames of a whole batch, oldest packet first. */
    method RecycleBatch(rcvd: nat, first: nat)
      requires Valid() && rx.taken + rcvd <= |rx.log| && first == Wrap(rx.taken)
      requires rcvd > 0 && (pc == Recycling(rcvd) || pc == Sampled(0, rcvd)) && freed == 0 && rx.lent == rcvd
      modifies fq`consumer, fq`peekedTo, fq`taken, fq`lent, fq`knownProducer, fq`noticed, rx, rx.slots,
               umem_frame_addr, `umem_frame_free, `held, `freed, `trace, `pc
      ensures Valid() && pc == Ready && KernelOnly()
      ensures rx.taken == old(rx.taken) + rcvd && rx.noticed == old(rx.noticed)
      ensures Pool() == old(Pool() + rx.log[rx.taken..rx.taken + rcvd])
      ensures old(Cleared()) ==> Cleared()
    {
      hide ProgramRun, Peeks, Times, Wrap, Step, Enabled, Follows, Ring.Valid, Cleared, Pool, Abs, Initial, Params.Ok;
      hide AtPc;
      var idx := first;
      ghost var batch := rx.log[rx.taken..rx.taken + rcvd];
      var i := 0;
      while i < rcvd
        invariant 0 <= i <= rcvd == rx.lent && freed == i
        invariant pc == if i == 0 then old(pc) else Recycling(rcvd - i)
        invariant Valid() && KernelOnly() && rx.taken == old(rx.taken) && rx.noticed == old(rx.noticed)
        invariant idx == Wrap(rx.taken + i)
        invariant Pool() == old(Pool()) + batch[..i]
        invariant old(Cleared()) ==> Cleared()
      {
        Interfere();
        idx := RecyclePacket(idx);
        assert rx.log[rx.taken + i] == batch[i];
        i := i + 1;
      }
      Interfere();
      ReleaseBatch(rcvd);
    }

    /**
     One round of the receive loop.  At most RX_BATCH_SIZE packets are taken off the RX ring, in order, and
     at least one if one is waiting; after the fill ring was replenished from the pool, their frames go
     to the top of the pool.
     */
    method ProcessPkts() returns (rcvd: nat, ghost r: Round)
      requires Valid() && pc.Ready?
      modifies fq, fq.slots, rx, rx.slots, umem_frame_addr, `umem_frame_free, `held, `freed, `trace, `pc, `peeks
      ensures Valid() && pc.Ready? && KernelOnly() && peeks == old(peeks) + 1
      ensures RoundOk(w, r) && r.pool == old(Pool()) && rcvd == |r.taken|
      ensures r.taken != [] ==> Counted(w, trace, r.sampled)
      ensures rx.taken == old(rx.taken) + rcvd <= |rx.log| && r.taken == rx.log[old(rx.taken)..rx.taken]
      ensures rcvd == if rx.noticed - old(rx.taken) <= 16 then rx.noticed - old(rx.taken) else 16
      ensures if old(rx.noticed) > old(rx.taken) then rx.noticed == old(rx.noticed) else rx.noticed >= |old(rx.log)|
      ensures old(rx.taken < |rx.log|) ==> rcvd > 0
      ensures fq.log == old(fq.log) + Batch(r.pool, r.k)
      ensures Pool() == Left(r.pool, r.k) + r.taken
      ensures OnTop(old(umem_frame_free), r.k, rx.log[old(rx.taken)..rx.taken])
      ensures old(Cleared()) ==> Cleared()
    {
      hide ProgramRun, Peeks, Times, Wrap, Step, Enabled, Follows, Batch, Left, Ring.Valid;
      hide Cleared, Pool, Abs, Initial, Params.Ok, AllReal, FreeCount, Covered, Inv, Counted;
      hide OnTop, AtPc;
      RingBounds();
      BatchStart(Pool());
      PoolIs();
      r := Round(Pool(), [], 0, Initial(w));
      Interfere();
      var idx;
      rcvd, idx := PeekBatch();
      if rcvd == 0 {
        RealEmpty(w);
        PoolIs();
        assert Left(r.pool, 0) + [] == r.pool;
        OnTopOf(old(umem_frame_free), 0, r.pool, []);
        return;
      }
      ghost var k, sampled := ServeBatch(rcvd, idx);
      r := Round(r.pool, rx.log[old(rx.taken)..rx.taken], k, sampled);
      PoolIs();
      OnTopOf(old(umem_frame_free), k, r.pool, r.taken);
    }

    /** Replenish the fill ring, then return the frames of the batch. */
    method ServeBatch(rcvd: nat, idx: nat) returns (ghost k: nat, ghost sampled: State)
      requires Valid() && pc == Peeked(rcvd) && rcvd > 0 && rx.taken + rcvd <= |rx.log| && idx == Wrap(rx.taken)
      modifies fq, fq.slots, rx, rx.slots, umem_frame_addr, `umem_frame_free, `held, `freed, `trace, `pc
      ensures Valid() && pc.Ready? && KernelOnly() && rx.noticed == old(rx.noticed)
      ensures Counted(w, trace, sampled) && sampled.pool == old(Pool()) && k == FreeCount(w, sampled)
      ensures AllReal(w, Batch(old(Pool()), k)) <==> Covered(w, sampled)
      ensures rx.taken == old(rx.taken) + rcvd <= |rx.log|
      ensures fq.log == old(fq.log) + Batch(old(Pool()), k)
      ensures Pool() == Left(old(Pool()), k) + rx.log[old(rx.taken)..rx.taken]
      ensures old(Cleared()) ==> Cleared()
    {
      hide ProgramRun, Peeks, Times, Wrap, Step, Enabled, Follows, Batch, Left, Ring.Valid;
      hide Cleared, Pool, Abs, Initial, Params.Ok, AllReal, FreeCount, Covered, Inv, TopDown;
      RingBounds();
      ghost var at;
      k, at, sampled := ReplenishFillRing();
      ghost var until := trace[..at];
      RecycleBatch(rcvd, idx);
      assert trace[..at] == until;
      assert CountedAt(w, trace, sampled, at, Peeked(rcvd));
    }

    /** The pool holds these addresses on top of what k allocations left of `before` frames. */
    ghost predicate OnTop(before: nat, k: nat, taken: seq<Addr>)
      reads `umem_frame_free, umem_frame_addr
    {
      && umem_frame_free == (if k <= before then before - k else 0) + |taken|
      && umem_frame_free <= umem_frame_addr.Length
      && umem_frame_addr[umem_frame_free - |taken|..umem_frame_free] == taken
    }

    lemma OnTopOf(before: nat, k: nat, pool: seq<Addr>, taken: seq<Addr>)
      requires umem_frame_free <= umem_frame_addr.Length && |pool| == before
      requires umem_frame_addr[..umem_frame_free] == Left(pool, k) + taken
      ensures OnTop(before, k, taken)
    {
      LeftSize(pool, k);
      var now := umem_frame_addr[..umem_frame_free];
      assert now[|now| - |taken|..] == taken;
    }

    /**
     The receive loop, for any number of wake-ups, one round each.  What the rounds published and took is
     all that the fill ring got and the RX ring gave, and the pool follows from round to round.
     Everything published is real exactly when each count was covered.
     */
    method ReceiveAndProcessPkts(wakeups: nat) returns (total: nat, ghost rounds: seq<Round>)
      requires Valid() && pc.Ready? && Cleared()
      modifies fq, fq.slots, rx, rx.slots, umem_frame_addr, `umem_frame_free, `held, `freed, `trace, `pc, `peeks
      ensures Valid() && pc.Ready? && Cleared() && KernelOnly()
      ensures peeks == old(peeks) + wakeups == old(peeks) + |rounds|
      ensures Account(w, trace, old(Pool()), rounds, Pool())
      ensures fq.log == old(fq.log) + Published(rounds)
      ensures rx.taken == old(rx.taken) + total <= |rx.log| && rx.log[old(rx.taken)..rx.taken] == Taken(rounds)
      ensures AllReal(w, Published(rounds)) <==> AllCovered(w, rounds)
    {
      hide ProgramRun, Peeks, Times, Wrap, Step, Enabled, Follows, Batch, Left, Ring.Valid;
      hide Cleared, Pool, Abs, Initial, Params.Ok, AllReal, FreeCount, Covered, Inv, Counted, AtPc, RoundOk;
      hide AllCovered, OnTop;
      hide Account, Published, Taken;
      total, rounds := 0, [];
      var i := 0;
      RingBounds();
      NoRounds(w, trace, Pool());
      while i < wakeups
        invariant i <= wakeups && Valid() && pc.Ready? && Cleared() && KernelOnly()
        invariant peeks == old(peeks) + i && |rounds| == i
        invariant Account(w, trace, old(Pool()), rounds, Pool())
        invariant fq.log == old(fq.log) + Published(rounds)
        invariant rx.taken == old(rx.taken) + total <= |rx.log| && rx.log[old(rx.taken)..rx.taken] == Taken(rounds)
      {
        ghost var was, at := rx.log, rx.taken;
        var rcvd;
        ghost var r;
        rcvd, r := WakeUp(old(Pool()), rounds);
        PublishedNext(rounds, r);
        SliceGrows(was, rx.log, old(rx.taken), at, rx.taken);
        rounds := rounds + [r];
        total := total + rcvd;
        i := i + 1;
      }
      AccountReal(w, trace, old(Pool()), rounds, Pool());
    }

    /** One wake-up of the loop, with the account carried on. */
    method WakeUp(ghost first: seq<Addr>, ghost rounds: seq<Round>) returns (rcvd: nat, ghost r: Round)
      requires Valid() && pc.Ready? && Cleared() && Account(w, trace, first, rounds, Pool())
      modifies fq, fq.slots, rx, rx.slots, umem_frame_addr, `umem_frame_free, `held, `freed, `trace, `pc, `peeks
      ensures Valid() && pc.Ready? && Cleared() && KernelOnly()
      ensures peeks == old(peeks) + 1 && Account(w, trace, first, rounds + [r], Pool())
      ensures old(rx.taken < |rx.log|) ==> rcvd > 0
      ensures fq.log == old(fq.log) + Batch(r.pool, r.k)
      ensures rcvd == |r.taken| && rx.taken == old(rx.taken) + rcvd <= |rx.log|
      ensures r.taken == rx.log[old(rx.taken)..rx.taken]
    {
      hide ProgramRun, Peeks, Times, Wrap, Step, Enabled, Follows, Batch, Left, Ring.Valid, AtPc;
      hide Cleared, Pool, Abs, Initial, Params.Ok, AllReal, FreeCount, Covered, Inv, RoundOk, Account, Counted;
      hide OnTop;
      ghost var before, pool := trace, Pool();
      Interfere();
      rcvd, r := ProcessPkts();
      AccountStays(w, before, trace, first, rounds, pool);
      NextRound(w, trace, first, rounds, r, Pool());
    }

    /** With a fill ring of one slot, no call sequence ever offers the kernel an invalid frame. */
    lemma OneSlotStaysReal()
      requires Valid() && w.p == 1
      ensures AllReal(w, fq.Entries())
    {
      hide ProgramRun, Peeks, Affordable, Wrap, Times;
      OneSlotIsAffordable(w, trace, Abs(), pc);
      AffordableNeverInvalid(w, trace, Abs());
    }

    lemma StartsInitial()
      requires Valid() && pc.Unfilled?
      ensures Pool() == FirstFrames(w, w.n) && umem_frame_free == w.n == umem_frame_addr.Length
      ensures fq.log == [] && w.p > 0
    {
      hide ProgramRun, Peeks, FirstFrames, Wrap, Times;
      StartsUnfilled(w, trace, Abs());
    }

    /**
     The first filling of the ring: all-or-nothing, so it takes the top p frames of the pool, and nothing
     invalid exactly when the ring is not larger than the population.
     */
    method PopulateFillRing() returns (ok: bool)
      requires Valid() && pc.Unfilled?
      modifies fq, fq.slots,
               rx`producer, rx`reservedTo, rx`knownConsumer, rx`log, rx`seen, rx`booked, rx`staged, rx.slots,
               umem_frame_addr, `umem_frame_free, `held, `trace, `pc
      ensures Valid() && ok && pc.Ready? && Cleared()
      ensures fq.log == Batch(FirstFrames(w, w.n), w.p) && Pool() == Left(FirstFrames(w, w.n), w.p)
      ensures FirstFilled(w, fq.log, umem_frame_addr[..umem_frame_free])
    {
      hide ProgramRun, Peeks, Times, Wrap, Step, Enabled, Follows, Batch, Left, Ring.Valid, FirstFrames;
      hide AtPc, Abs, Params.Ok, Initial, FirstFilled;
      StartsInitial();
      var nreserved, idx := ReserveSlots(w.p);
      if nreserved < 1 {
        return false;
      }
      FillAndSubmit(nreserved, idx);
      ok := true;
      PoolIs();
      FirstFill(w, fq.log, Pool());
    }
  }

  /** Frame n - 1 first and downwards, invalid beyond the last; the rest stays as it was laid out. */
  ghost predicate FirstFilled(w: Params, log: seq<Addr>, pool: seq<Addr>) {
    && |log| == w.p && |pool| == (if w.p <= w.n then w.n - w.p else 0)
    && (forall i :: 0 <= i < w.p ==> log[i] == if i < w.n then (w.n - 1 - i) * w.f else 0xFFFF_FFFF_FFFF_FFFF)
    && (forall i :: 0 <= i < |pool| ==> pool[i] == i * w.f)
  }

  lemma FirstFill(w: Params, log: seq<Addr>, pool: seq<Addr>)
    requires w.Ok() && log == Batch(FirstFrames(w, w.n), w.p) && pool == Left(FirstFrames(w, w.n), w.p)
    ensures FirstFilled(w, log, pool)
  {
    hide FirstFrames, Left, Batch, Params.Ok;
    var frames := FirstFrames(w, w.n);
    LeftSize(frames, w.p);
    BatchTopDown(frames, w.p);
    forall i | 0 <= i < w.p
      ensures log[i] == if i < w.n then (w.n - 1 - i) * w.f else 0xFFFF_FFFF_FFFF_FFFF
    {
      if i < w.n {
        FirstFramesAt(w, w.n, w.n - 1 - i);
      }
    }
    forall i | 0 <= i < |pool|
      ensures pool[i] == i * w.f
    {
      LeftAt(frames, w.p, i);
      FirstFramesAt(w, w.n, i);
    }
  }

  // ---- rounds of the receive loop

  /**
   One round: the pool at its start, the addresses of the packets taken, how many frames were published, and
   the state in which the free slots were counted.
   */
  datatype Round = Round(pool: seq<Addr>, taken: seq<Addr>, k: nat, sampled: State)

  /** No packet, no count; otherwise as many frames are published as were counted, whatever the pool holds. */
  ghost predicate RoundOk(w: Params, r: Round)
    requires w.Ok()
  {
    && |r.taken| <= RX_BATCH_SIZE
    && (if r.taken == [] then r.k == 0
        else r.sampled.pool == r.pool && r.k == FreeCount(w, r.sampled)
             && (AllReal(w, Batch(r.pool, r.k)) <==> Covered(w, r.sampled)))
  }

  /**
   Few enough frames are out to leave room for a full fill ring, counting its invalid entries as room; or
   the pool is empty, and nothing will be asked for.
   */
  ghost predicate Covered(w: Params, s: State)
    requires w.Ok()
  {
    s.pool == [] || Outstanding(s) <= w.n - w.p + Invalids(w, s.fill)
  }

  /** The state in which the program counted the free slots at some moment of the run. */
  ghost predicate Counted(w: Params, trace: seq<Action>, s: State)
    requires w.Ok()
  {
    exists at: nat, c: Pc :: CountedAt(w, trace, s, at, c)
  }

  ghost predicate CountedAt(w: Params, trace: seq<Action>, s: State, at: nat, c: Pc)
    requires w.Ok()
  {
    at < |trace| && trace[at].Sample? && c.Peeked? && ProgramRun(w, trace[..at], s, c)
  }

  lemma StaysCounted(w: Params, trace: seq<Action>, longer: seq<Action>, s: State)
    requires w.Ok() && Counted(w, trace, s) && trace <= longer
    ensures Counted(w, longer, s)
  {
    hide ProgramRun;
    var at: nat, c: Pc :| CountedAt(w, trace, s, at, c);
    assert longer[..at] == trace[..at];
    assert CountedAt(w, longer, s, at, c);
  }

  /** Rounds that lead from the pool `first` to the pool `last`, each from the pool that the one before left. */
  ghost predicate Account(w: Params, trace: seq<Action>, first: seq<Addr>, rounds: seq<Round>, last: seq<Addr>)
    requires w.Ok()
  {
    if rounds == [] then last == first
    else
      var r := rounds[|rounds| - 1];
      && Account(w, trace, first, rounds[..|rounds| - 1], r.pool)
      && RoundOk(w, r) && (r.taken != [] ==> Counted(w, trace, r.sampled))
      && last == Left(r.pool, r.k) + r.taken
  }

  lemma {:induction false} AccountStays(w: Params, trace: seq<Action>, longer: seq<Action>,
                                        first: seq<Addr>, rounds: seq<Round>, last: seq<Addr>)
    requires w.Ok() && Account(w, trace, first, rounds, last) && trace <= longer
    ensures Account(w, longer, first, rounds, last)
  {
    hide RoundOk, Counted, Left;
    if rounds != [] {
      var r := rounds[|rounds| - 1];
      AccountStays(w, trace, longer, first, rounds[..|rounds| - 1], r.pool);
      if r.taken != [] {
        StaysCounted(w, trace, longer, r.sampled);
      }
    }
  }

  lemma NextRound(w: Params, trace: seq<Action>, first: seq<Addr>, rounds: seq<Round>, r: Round, last: seq<Addr>)
    requires w.Ok() && Account(w, trace, first, rounds, r.pool)
    requires RoundOk(w, r) && (r.taken != [] ==> Counted(w, trace, r.sampled))
    requires last == Left(r.pool, r.k) + r.taken
    ensures Account(w, trace, first, rounds + [r], last)
  {
    hide RoundOk, Counted, Left;
    assert (rounds + [r])[..|rounds|] == rounds;
  }

  ghost function Published(rounds: seq<Round>): seq<Addr> {
    if rounds == [] then []
    else
      var last := rounds[|rounds| - 1];
      Published(rounds[..|rounds| - 1]) + Batch(last.pool, last.k)
  }

  ghost function Taken(rounds: seq<Round>): seq<Addr> {
    if rounds == [] then [] else Taken(rounds[..|rounds| - 1]) + rounds[|rounds| - 1].taken
  }

  lemma NoRounds(w: Params, trace: seq<Action>, pool: seq<Addr>)
    requires w.Ok()
    ensures Account(w, trace, pool, [], pool) && Published([]) == [] && Taken([]) == []
  {
  }

  lemma SliceGrows(was: seq<Addr>, now: seq<Addr>, a: nat, b: nat, c: nat)
    requires was <= now && a <= b <= |was| && b <= c <= |now|
    ensures now[a..c] == was[a..b] + now[b..c]
  {
  }

  lemma PublishedNext(rounds: seq<Round>, r: Round)
    ensures Published(rounds + [r]) == Published(rounds) + Batch(r.pool, r.k)
    ensures Taken(rounds + [r]) == Taken(rounds) + r.taken
  {
    hide Batch;
    assert (rounds + [r])[..|rounds|] == rounds;
  }

  /** All that the rounds published is real exactly when every count was covered. */
  lemma {:induction false} AccountReal(w: Params, trace: seq<Action>, first: seq<Addr>, rounds: seq<Round>,
                                       last: seq<Addr>)
    requires w.Ok() && Account(w, trace, first, rounds, last)
    ensures AllReal(w, Published(rounds)) <==> AllCovered(w, rounds)
  {
    hide AllReal, Covered, FreeCount, Batch, Counted, Left;
    RealEmpty(w);
    if rounds != [] {
      var init, r := rounds[..|rounds| - 1], rounds[|rounds| - 1];
      AccountReal(w, trace, first, init, r.pool);
      RealConcat(w, Published(init), Batch(r.pool, r.k));
      BatchStart(r.pool);
      CoveredNext(w, init, r);
      assert rounds == init + [r];
    }
  }

  ghost predicate AllCovered(w: Params, rounds: seq<Round>)
    requires w.Ok()
  {
    forall i :: 0 <= i < |rounds| && rounds[i].taken != [] ==> Covered(w, rounds[i].sampled)
  }

  lemma CoveredNext(w: Params, rounds: seq<Round>, r: Round)
    requires w.Ok()
    ensures AllCovered(w, rounds + [r]) <==> AllCovered(w, rounds) && (r.taken != [] ==> Covered(w, r.sampled))
  {
    hide Covered;
    assert (rounds + [r])[|rounds|] == r;
    assert forall i :: 0 <= i < |rounds| ==> (rounds + [r])[i] == rounds[i];
  }
}
