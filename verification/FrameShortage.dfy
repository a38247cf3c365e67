/**
 The limit of `replenish_fill_ring`: with any population, frame size and RX ring, and a fill ring of two
 slots or more, the program itself, taking its steps in its own order, comes to publish invalid frames.
 Every round in which the kernel keeps all but one of the frames it took lowers the pool by p - 1.
 */
module FrameShortage {
  import opened Multiples
  import opened FrameProtocol
  import opened ProgramOrder

  // ---- whole loops of the program

  /** Store what the pool yields in each of the reserved slots. */
  lemma {:induction false} StoreAll(w: Params, trace: seq<Action>, s: State, c: Pc)
    returns (longer: seq<Action>, t: State)
    requires w.Ok() && ProgramRun(w, trace, s, c) && c.Storing? && s.reserved == |s.staged| + c.left
    ensures ProgramRun(w, longer, t, Storing(0, c.count))
    ensures t == s.(pool := Left(s.pool, c.left), staged := s.staged + Batch(s.pool, c.left))
    decreases c.left
  {
    hide ProgramRun, Params.Ok;
    if c.left == 0 {
      longer, t := trace, s;
      BatchStart(s.pool);
      assert s.staged + [] == s.staged;
    } else {
      var d, u := Storing(c.left - 1, c.count), Step(w, s, Stage);
      Next(w, trace, s, c, Stage, d);
      longer, t := StoreAll(w, trace + [Stage], u, d);
      assert u.staged + Batch(Rest(s.pool), d.left) == s.staged + Batch(s.pool, c.left);
    }
  }

  /** Reserve, store and submit a batch of k. */
  lemma Publish(w: Params, trace: seq<Action>, s: State, c: Pc, k: nat, count: nat)
    returns (longer: seq<Action>, t: State)
    requires w.Ok() && ProgramRun(w, trace, s, c)
    requires Enabled(w, s, Reserve(k)) && Follows(w, s, c, Reserve(k), Storing(k, count))
    ensures ProgramRun(w, longer, t, if count == 0 then Ready else Recycling(count))
    ensures t == s.(pool := Left(s.pool, k), fill := s.fill + Batch(s.pool, k))
  {
    hide ProgramRun, Params.Ok, Batch, Left;
    Next(w, trace, s, c, Reserve(k), Storing(k, count));
    longer, t := StoreAll(w, trace + [Reserve(k)], Step(w, s, Reserve(k)), Storing(k, count));
    Next(w, longer, t, Storing(0, count), Submit, if count == 0 then Ready else Recycling(count));
    longer, t := longer + [Submit], Step(w, t, Submit);
    assert [] + Batch(s.pool, k) == Batch(s.pool, k);
  }

  /** The kernel takes every entry of the fill ring. */
  lemma {:induction false} TakeAll(w: Params, trace: seq<Action>, s: State, c: Pc)
    returns (longer: seq<Action>, t: State)
    requires w.Ok() && ProgramRun(w, trace, s, c)
    ensures ProgramRun(w, longer, t, c)
    ensures t == s.(fill := [], held := t.held) && s.held <= t.held
    ensures s.fill != [] ==> Tag(w, s.fill[0]) <= t.held
    decreases |s.fill|
  {
    hide ProgramRun, Params.Ok, Tag;
    if s.fill == [] {
      longer, t := trace, s;
    } else {
      Next(w, trace, s, c, Take, c);
      longer, t := TakeAll(w, trace + [Take], Step(w, s, Take), c);
    }
  }

  /** The kernel delivers a packet in a frame it holds, and the program peeks at it. */
  lemma Packet(w: Params, trace: seq<Action>, s: State, frame: nat) returns (longer: seq<Action>, t: State)
    requires w.Ok() && ProgramRun(w, trace, s, Ready) && Settled(s) && frame in s.held && frame < w.n
    ensures ProgramRun(w, longer, t, Peeked(1))
    ensures t == s.(held := s.held - {frame}, rx := [Address(w, frame, 0)], peeked := 1)
  {
    hide ProgramRun;
    Next(w, trace, s, Ready, Deliver(frame, 0), Ready);
    var u := Step(w, s, Deliver(frame, 0));
    Next(w, trace + [Deliver(frame, 0)], u, Ready, Peek(1), Peeked(1));
    longer, t := trace + [Deliver(frame, 0)] + [Peek(1)], Step(w, u, Peek(1));
  }

  /** Nothing under way, and the kernel has taken everything offered. */
  ghost predicate Settled(s: State) {
    s.reserved == 0 && s.staged == [] && s.fill == [] && s.rx == [] && s.peeked == 0 && s.freed == 0
  }

  /** The one packet of the batch goes back to the pool; the program is at the top of its loop. */
  lemma Recycle(w: Params, trace: seq<Action>, s: State, c: Pc) returns (longer: seq<Action>, t: State)
    requires w.Ok() && ProgramRun(w, trace, s, c) && |s.rx| == s.peeked == 1 && s.freed == 0
    requires Follows(w, s, c, Free, Recycling(0))
    ensures ProgramRun(w, longer, t, Ready)
    ensures t == s.(pool := s.pool + s.rx, rx := [], peeked := 0, freed := 0)
  {
    hide ProgramRun, Params.Ok;
    Next(w, trace, s, c, Free, Recycling(0));
    var u := Step(w, s, Free);
    Next(w, trace + [Free], u, Recycling(0), Release, Ready);
    longer, t := trace + [Free] + [Release], Step(w, u, Release);
    assert s.rx == [s.rx[0]];
  }

  // ---- the shortage

  /** Packet by packet the pool shrinks until it cannot cover a whole ring. */
  lemma {:induction false} Drain(w: Params, trace: seq<Action>, s: State, frame: nat)
    returns (longer: seq<Action>, t: State, d: Pc)
    requires w.Ok() && 2 <= w.p <= w.n
    requires ProgramRun(w, trace, s, Ready) && Settled(s) && frame in s.held && frame < w.n
    ensures ProgramRun(w, longer, t, d) && INVALID_UMEM_FRAME in t.fill
    decreases if s.pool == [] then w.n + 2 else |s.pool|
  {
    hide ProgramRun, Run, Batch, Left, Tag, Address;
    var q := |s.pool|;
    longer, t := Packet(w, trace, s, frame);
    if q == 0 {
      var rest := AnotherHeld(w, longer, t, Peeked(1), frame);
      Next(w, longer, t, Peeked(1), Sample(0), Sampled(0, 1));
      longer, t := Recycle(w, longer + [Sample(0)], t, Sampled(0, 1));
      longer, t, d := Drain(w, longer, t, rest);
    } else {
      var pool := s.pool;
      Next(w, longer, t, Peeked(1), Sample(w.p), Sampled(w.p, 1));
      longer, t := Publish(w, longer + [Sample(w.p)], t, Sampled(w.p, 1), w.p, 1);
      d := Recycling(1);
      if q < w.p {
        assert t.fill[q] == INVALID_UMEM_FRAME;
      } else {
        longer, t := Recycle(w, longer, t, d);
        var first := TopIsReal(w, trace, s, Ready);
        assert t.fill[0] == s.pool[q - 1];
        longer, t := TakeAll(w, longer, t, Ready);
        LeftSize(s.pool, w.p);
        longer, t, d := Drain(w, longer, t, first);
      }
    }
  }

  /** With an empty pool and one frame on the RX ring, the kernel holds all the others. */
  lemma AnotherHeld(w: Params, trace: seq<Action>, s: State, c: Pc, frame: nat) returns (rest: nat)
    requires w.Ok() && 2 <= w.n && ProgramRun(w, trace, s, c)
    requires s.pool == s.staged == s.fill == [] && |s.rx| == 1 && s.freed == 0
    ensures rest in s.held && rest < w.n
  {
    hide ProgramRun, Run;
    ProgramRunIsRun(w, trace, s, c);
    RunKeepsInv(w, trace, s);
    FrameCount(w, s);
    InvalidsNone(w, s.staged);
    InvalidsNone(w, s.fill);
    assert |s.held| == w.n - 1;
    rest :| rest in s.held;
  }

  lemma TopIsReal(w: Params, trace: seq<Action>, s: State, c: Pc) returns (frame: nat)
    requires w.Ok() && ProgramRun(w, trace, s, c) && s.pool != []
    ensures Tag(w, s.pool[|s.pool| - 1]) == {frame} && frame < w.n
  {
    hide ProgramRun, Run;
    ProgramRunIsRun(w, trace, s, c);
    RunKeepsInv(w, trace, s);
    frame := FrameOf(w, s.pool[|s.pool| - 1]);
  }

  lemma InvalidIsReachable(w: Params) returns (trace: seq<Action>, s: State, c: Pc)
    requires w.Ok() && 2 <= w.p
    ensures ProgramRun(w, trace, s, c) && INVALID_UMEM_FRAME in s.fill
  {
    hide Run, Batch, Left, Tag, Address, FirstFrames;
    var pool := Initial(w).pool;
    assert ProgramRun(w, [], Initial(w), Unfilled);
    var first := TopIsReal(w, [], Initial(w), Unfilled);
    hide ProgramRun;
    trace, s := Publish(w, [], Initial(w), Unfilled, w.p, 0);
    c := Ready;
    if w.n < w.p {
      assert s.fill[w.n] == INVALID_UMEM_FRAME;
    } else {
      assert s.fill[0] == pool[w.n - 1];
      trace, s := TakeAll(w, trace, s, Ready);
      trace, s, c := Drain(w, trace, s, first);
    }
  }

  // ---- the other half: a fill ring of one slot is never overcharged

  /** Between the count and the reservation only the kernel acts, so the pool still covers the count. */
  lemma OneSlotStep(w: Params, m: State, b: Pc, a: Action, c: Pc)
    requires w.Ok() && w.p == 1 && Enabled(w, m, a) && Follows(w, m, b, a, c)
    requires b.Unfilled? ==> |m.pool| == w.n
    requires b.Sampled? ==> b.k <= |m.pool|
    ensures a.Reserve? ==> a.k <= |m.pool|
    ensures c.Sampled? ==> c.k <= |Step(w, m, a).pool|
  {
    hide Times, Address;
  }

  lemma {:induction false} OneSlotIsAffordable(w: Params, trace: seq<Action>, s: State, c: Pc)
    requires w.Ok() && w.p == 1 && ProgramRun(w, trace, s, c)
    ensures Affordable(w, Initial(w), trace, s)
    ensures c.Sampled? ==> c.k <= |s.pool|
    decreases |trace|
  {
    hide Follows, Step, Enabled, Params.Ok;
    if trace != [] {
      var last := |trace| - 1;
      var m: State, b: Pc :|
        && ProgramRun(w, trace[..last], m, b)
        && Enabled(w, m, trace[last]) && s == Step(w, m, trace[last])
        && Follows(w, m, b, trace[last], c);
      OneSlotIsAffordable(w, trace[..last], m, b);
      if b.Unfilled? {
        StartsUnfilled(w, trace[..last], m);
      }
      OneSlotStep(w, m, b, trace[last], c);
    }
  }

  /** Some run of the program publishes an invalid frame exactly when the fill ring has more than one slot. */
  lemma ShortageIff(w: Params)
    requires w.Ok()
    ensures (exists trace, s, c :: ProgramRun(w, trace, s, c) && INVALID_UMEM_FRAME in s.fill) <==> 2 <= w.p
  {
    hide ProgramRun, Affordable, FrameOf;
    if 2 <= w.p {
      var trace, s, c := InvalidIsReachable(w);
    } else {
      InvalidIsNotReal(w);
      forall trace, s, c | ProgramRun(w, trace, s, c)
        ensures INVALID_UMEM_FRAME !in s.fill
      {
        OneSlotIsAffordable(w, trace, s, c);
        AffordableNeverInvalid(w, trace, s);
      }
    }
  }
}
