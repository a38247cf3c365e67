/**
 The steps of the program in program order.  The kernel may act between any two of them, also between
 counting the free slots of the fill ring and reserving that many.
 */
module ProgramOrder {
  import opened Multiples
  import opened FrameProtocol

  const RX_BATCH_SIZE: nat := 16

  datatype Pc =
    | Unfilled                         // before the fill ring is populated
    | Ready                            // about to peek
    | Peeked(count: nat)               // about to count the free slots
    | Sampled(k: nat, count: nat)      // about to reserve as many, unless there is none
    | Storing(left: nat, count: nat)   // in the loop that fills the reserved slots
    | Recycling(left: nat)             // in the loop that frees the packets of the batch
  {
    /** Packets of the batch not yet freed. */
    function Packets(): nat {
      match this
      case Unfilled => 0
      case Ready => 0
      case Peeked(count) => count
      case Sampled(_, count) => count
      case Storing(_, count) => count
      case Recycling(left) => left
    }
  }

  /**
   The free-slot count with the pool size as the request.  Every batch reserves all the slots the
   producer knew to be free, so it knows of none at the next call and looks again unless it asks for none.
   */
  ghost function FreeCount(w: Params, s: State): int {
    if s.pool == [] then 0 else w.p - |s.fill|
  }

  ghost predicate Follows(w: Params, s: State, c: Pc, a: Action, d: Pc)
    requires w.Ok()
  {
    match a
    case Take => d == c
    case Deliver(_, _) => d == c
    case Sample(k) => c.Peeked? && k == FreeCount(w, s) && d == Sampled(k, c.count)
    case Reserve(k) =>
      || (c.Unfilled? && k == w.p && d == Storing(k, 0))
      || (c.Sampled? && 0 < k == c.k && d == Storing(k, c.count))
    case Stage => c.Storing? && c.left > 0 && d == Storing(c.left - 1, c.count)
    case Submit => c.Storing? && c.left == 0 && d == if c.count == 0 then Ready else Recycling(c.count)
    case Peek(k) =>
      && c.Ready? && k <= RX_BATCH_SIZE && (k == 0 ==> s.rx == [])
      && d == if k == 0 then Ready else Peeked(k)
    case Free =>
      || (c.Recycling? && c.left > 0 && d == Recycling(c.left - 1))
      || (c.Sampled? && c.k == 0 && c.count > 0 && d == Recycling(c.count - 1))
    case Release => c.Recycling? && c.left == 0 && d == Ready
  }

  /** A run from the initial state in program order, which has brought the program to `d`. */
  ghost predicate ProgramRun(w: Params, trace: seq<Action>, t: State, d: Pc)
    requires w.Ok()
    decreases |trace|
  {
    if trace == [] then t == Initial(w) && d == Unfilled
    else
      var last := |trace| - 1;
      exists m: State, c: Pc ::
        && ProgramRun(w, trace[..last], m, c)
        && Enabled(w, m, trace[last]) && t == Step(w, m, trace[last])
        && Follows(w, m, c, trace[last], d)
  }

  lemma {:induction false} ProgramRunIsRun(w: Params, trace: seq<Action>, t: State, d: Pc)
    requires w.Ok() && ProgramRun(w, trace, t, d)
    ensures Run(w, Initial(w), trace, t)
    decreases |trace|
  {
    hide Follows, Step, Enabled, Params.Ok, Initial;
    if trace != [] {
      var last := |trace| - 1;
      var m: State, c: Pc :|
        && ProgramRun(w, trace[..last], m, c)
        && Enabled(w, m, trace[last]) && t == Step(w, m, trace[last])
        && Follows(w, m, c, trace[last], d);
      ProgramRunIsRun(w, trace[..last], m, c);
    }
  }

  lemma Next(w: Params, trace: seq<Action>, s: State, c: Pc, a: Action, d: Pc)
    requires w.Ok() && ProgramRun(w, trace, s, c) && Enabled(w, s, a) && Follows(w, s, c, a, d)
    ensures ProgramRun(w, trace + [a], Step(w, s, a), d)
  {
    hide Follows, Step, Enabled, Params.Ok, Initial;
    assert (trace + [a])[..|trace|] == trace;
  }

  /** Before the ring is populated the kernel has nothing to work on. */
  lemma NothingToWorkOn(w: Params, a: Action, c: Pc)
    requires w.Ok() && Enabled(w, Initial(w), a) && Follows(w, Initial(w), Unfilled, a, c)
    ensures c != Unfilled
  {
    hide Times, FirstFrames;
  }

  lemma ComesFromUnfilled(w: Params, s: State, c: Pc, a: Action)
    requires w.Ok() && Follows(w, s, c, a, Unfilled)
    ensures c == Unfilled
  {
    hide Times;
  }

  lemma {:induction false} StartsUnfilled(w: Params, trace: seq<Action>, s: State)
    requires w.Ok() && ProgramRun(w, trace, s, Unfilled)
    ensures s == Initial(w)
    decreases |trace|
  {
    hide Follows, Step, Enabled, Params.Ok, Initial;
    if trace != [] {
      var last := |trace| - 1;
      var m: State, c: Pc :|
        && ProgramRun(w, trace[..last], m, c)
        && Enabled(w, m, trace[last]) && s == Step(w, m, trace[last])
        && Follows(w, m, c, trace[last], Unfilled);
      ComesFromUnfilled(w, m, c, trace[last]);
      StartsUnfilled(w, trace[..last], m);
      NothingToWorkOn(w, trace[last], Unfilled);
    }
  }

  /** How often the program came to the top of its receive loop. */
  function Peeks(trace: seq<Action>): nat {
    if trace == [] then 0 else Peeks(trace[..|trace| - 1]) + if trace[|trace| - 1].Peek? then 1 else 0
  }

  lemma PeeksPush(trace: seq<Action>, a: Action)
    ensures Peeks(trace + [a]) == Peeks(trace) + if a.Peek? then 1 else 0
  {
    assert (trace + [a])[..|trace|] == trace;
  }
}
