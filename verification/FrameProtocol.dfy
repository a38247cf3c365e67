/**
 The life of the UMEM frames of `xdp-xsk-user.c`, as a transition system over values.

 A fixed population of `n` frames of `f` bytes is shared by a user-space stack allocator and a kernel
 that runs at the same time.  Frames travel pool -> fill ring -> kernel -> RX ring -> pool.  The two
 rings have `p` and `r` slots.  A frame is identified by `addr / f`: the kernel may hand back any
 address inside the frame, and the program returns that very address to its pool.
 */
module FrameProtocol {
  import opened Multiples

  type Addr = a: int | 0 <= a < 0x1_0000_0000_0000_0000

  const INVALID_UMEM_FRAME: Addr := 0xFFFF_FFFF_FFFF_FFFF

  /** Number of frames, frame size, slots of the fill ring, slots of the RX ring. */
  datatype Params = Params(n: nat, f: nat, p: nat, r: nat) {
    // `i * FRAME_SIZE` and `NUM_FRAMES * FRAME_SIZE` are computed in a C `int`.
    ghost predicate Ok() {
      0 < n && 0 < f && 0 < p && 0 < r && Times(n, f) < 0x8000_0000
    }
  }

  datatype State = State(
    pool: seq<Addr>,      // umem_frame_addr[0 .. umem_frame_free)
    staged: seq<Addr>,    // stored in reserved fill slots, not submitted yet
    reserved: nat,        // fill slots reserved by the batch under way
    fill: seq<Addr>,      // submitted, not consumed by the kernel yet
    held: set<nat>,       // frames in kernel hands
    rx: seq<Addr>,        // produced by the kernel, not released by the program yet
    peeked: nat,          // the first `peeked` RX entries are being processed
    freed: nat            // the first `freed` of those are back in the pool
  )

  datatype Action =
    | Sample(k: nat)                 // program: xsk_prod_nb_free
    | Reserve(k: nat)                // program: xsk_ring_prod__reserve
    | Stage                          // program: store the result of xsk_alloc_umem_frame in a fill slot
    | Submit                         // program: xsk_ring_prod__submit
    | Peek(k: nat)                   // program: xsk_ring_cons__peek
    | Free                           // program: xsk_free_umem_frame of the next processed packet
    | Release                        // program: xsk_ring_cons__release
    | Take                           // kernel: consume one fill entry
    | Deliver(frame: nat, off: nat)  // kernel: publish a held frame on the RX ring

  /** The result of `xsk_alloc_umem_frame` on a pool. */
  function Popped(pool: seq<Addr>): Addr {
    if pool == [] then INVALID_UMEM_FRAME else pool[|pool| - 1]
  }

  function Rest(pool: seq<Addr>): seq<Addr> {
    if pool == [] then [] else pool[..|pool| - 1]
  }

  /** The frame that contains an address, by counting whole frames below it. */
  ghost function FrameOf(w: Params, a: nat): nat
    requires w.Ok()
  {
    if a < w.f then 0 else FrameOf(w, a - w.f) + 1
  }

  /** ... which is the quotient of the address by the frame size. */
  lemma {:induction false} FrameOfIsQuotient(w: Params, a: nat)
    requires w.Ok()
    ensures FrameOf(w, a) == a / w.f
  {
    if a >= w.f {
      FrameOfIsQuotient(w, a - w.f);
      QuotientStep(a, w.f);
    }
  }

  ghost predicate Real(w: Params, a: Addr)
    requires w.Ok()
  {
    FrameOf(w, a) < w.n
  }

  /** The frame an address belongs to, if any: the kernel discards every other address. */
  ghost function Tag(w: Params, a: Addr): set<nat>
    requires w.Ok()
  {
    if Real(w, a) then {FrameOf(w, a)} else {}
  }

  ghost predicate Enabled(w: Params, s: State, a: Action)
    requires w.Ok()
  {
    match a
    case Sample(_) => true
    case Reserve(k) => s.reserved == 0 && s.staged == [] && k <= w.p - |s.fill|
    case Stage => |s.staged| < s.reserved
    case Submit => |s.staged| == s.reserved
    case Peek(k) => s.peeked == 0 && s.freed == 0 && k <= |s.rx|
    case Free => s.freed < s.peeked <= |s.rx|
    case Release => s.freed == s.peeked <= |s.rx|
    case Take => s.fill != []
    case Deliver(frame, off) => frame in s.held && frame < w.n && off < w.f && |s.rx| < w.r
  }

  /** The address at an offset inside a frame: `frame * f + off`. */
  ghost function Address(w: Params, frame: nat, off: nat): (a: Addr)
    requires w.Ok() && frame < w.n && off < w.f
  {
    TimesMonotone(frame + 1, w.n, w.f);
    Times(frame, w.f) + off
  }

  lemma AddressIsProduct(w: Params, frame: nat, off: nat)
    requires w.Ok() && frame < w.n && off < w.f
    ensures Address(w, frame, off) == frame * w.f + off
  {
    TimesIsProduct(frame, w.f);
  }

  lemma {:induction false} InFrame(w: Params, frame: nat, off: nat)
    requires w.Ok() && off < w.f
    ensures FrameOf(w, Times(frame, w.f) + off) == frame
  {
    if frame > 0 {
      InFrame(w, frame - 1, off);
    }
  }

  ghost function Step(w: Params, s: State, a: Action): State
    requires w.Ok() && Enabled(w, s, a)
  {
    match a
    case Sample(_) => s
    case Reserve(k) => s.(reserved := k)
    case Stage => s.(pool := Rest(s.pool), staged := s.staged + [Popped(s.pool)])
    case Submit => s.(fill := s.fill + s.staged, staged := [], reserved := 0)
    case Peek(k) => s.(peeked := k)
    case Free => s.(pool := s.pool + [s.rx[s.freed]], freed := s.freed + 1)
    case Release => s.(rx := s.rx[s.peeked..], peeked := 0, freed := 0)
    case Take => s.(fill := s.fill[1..], held := s.held + Tag(w, s.fill[0]))
    case Deliver(frame, off) =>
      s.(held := s.held - {frame}, rx := s.rx + [Address(w, frame, off)])
  }

  /** `trace` leads from `s` to `t`. */
  ghost predicate Run(w: Params, s: State, trace: seq<Action>, t: State)
    requires w.Ok()
    decreases |trace|
  {
    if trace == [] then s == t
    else
      var last := |trace| - 1;
      exists m: State :: Run(w, s, trace[..last], m) && Enabled(w, m, trace[last]) && t == Step(w, m, trace[last])
  }

  /** Every moment of a run is itself the end of a run. */
  lemma {:induction false} EveryMoment(w: Params, s: State, trace: seq<Action>, t: State, k: nat) returns (m: State)
    requires w.Ok() && Run(w, s, trace, t) && k <= |trace|
    ensures Run(w, s, trace[..k], m)
    decreases |trace|
  {
    if k == |trace| {
      assert trace[..k] == trace;
      m := t;
    } else {
      var last := |trace| - 1;
      var u: State :| Run(w, s, trace[..last], u) && Enabled(w, u, trace[last]) && t == Step(w, u, trace[last]);
      m := EveryMoment(w, s, trace[..last], u, k);
      assert trace[..last][..k] == trace[..k];
    }
  }

  /** The state before the fill ring is populated: frame i at address i * f, in order. */
  ghost function Initial(w: Params): State
    requires w.Ok()
  {
    State(FirstFrames(w, w.n), [], 0, [], {}, [], 0, 0)
  }

  ghost function FirstFrames(w: Params, k: nat): (s: seq<Addr>)
    requires w.Ok() && k <= w.n
    ensures |s| == k
  {
    if k == 0 then [] else FirstFrames(w, k - 1) + [Address(w, k - 1, 0)]
  }

  /** Frame i stands at index i, at address i * f. */
  lemma {:induction false} FirstFramesAt(w: Params, k: nat, i: nat)
    requires w.Ok() && i < k <= w.n
    ensures FirstFrames(w, k)[i] == i * w.f
  {
    hide Times;
    if i < k - 1 {
      FirstFramesAt(w, k - 1, i);
    } else {
      AddressIsProduct(w, i, 0);
    }
  }

  // ---------------------------------------------------------------------------------------------
  // Counting the places of one frame
  // ---------------------------------------------------------------------------------------------

  ghost function One(w: Params, a: Addr, frame: nat): nat
    requires w.Ok()
  {
    if FrameOf(w, a) == frame then 1 else 0
  }

  /** How many of the addresses belong to the frame. */
  ghost function Count(w: Params, s: seq<Addr>, frame: nat): nat
    requires w.Ok()
  {
    if s == [] then 0 else Count(w, s[..|s| - 1], frame) + One(w, s[|s| - 1], frame)
  }

  lemma CountEmpty(w: Params, frame: nat)
    requires w.Ok()
    ensures Count(w, [], frame) == 0
  {
  }

  lemma CountPush(w: Params, s: seq<Addr>, a: Addr, frame: nat)
    requires w.Ok()
    ensures Count(w, s + [a], frame) == Count(w, s, frame) + One(w, a, frame)
  {
    assert (s + [a])[..|s|] == s;
  }

  lemma {:induction false} CountConcat(w: Params, s: seq<Addr>, t: seq<Addr>, frame: nat)
    requires w.Ok()
    ensures Count(w, s + t, frame) == Count(w, s, frame) + Count(w, t, frame)
  {
    if t == [] {
      assert s + t == s;
    } else {
      var u, last := t[..|t| - 1], t[|t| - 1];
      assert s + t == (s + u) + [last];
      assert t == u + [last];
      CountConcat(w, s, u, frame);
      CountPush(w, s + u, last, frame);
      CountPush(w, u, last, frame);
    }
  }

  lemma CountHead(w: Params, s: seq<Addr>, frame: nat)
    requires w.Ok() && s != []
    ensures Count(w, s, frame) == One(w, s[0], frame) + Count(w, s[1..], frame)
  {
    assert s == [s[0]] + s[1..];
    CountConcat(w, [s[0]], s[1..], frame);
    CountPush(w, [], s[0], frame);
    assert [] + [s[0]] == [s[0]];
  }

  /** A positive count is a position; a count of at most one is at most one position. */
  lemma {:induction false} CountIsPositions(w: Params, s: seq<Addr>, frame: nat)
    requires w.Ok()
    ensures 0 < Count(w, s, frame) <==> exists i :: 0 <= i < |s| && FrameOf(w, s[i]) == frame
    ensures Count(w, s, frame) <= 1 ==>
      forall i, j :: 0 <= i < j < |s| && FrameOf(w, s[i]) == frame ==> FrameOf(w, s[j]) != frame
  {
    if s != [] {
      var u, a := s[..|s| - 1], s[|s| - 1];
      assert s == u + [a];
      CountPush(w, u, a, frame);
      CountIsPositions(w, u, frame);
      assert forall i :: 0 <= i < |u| ==> u[i] == s[i];
    }
  }

  // ---------------------------------------------------------------------------------------------
  // The ownership invariant
  // ---------------------------------------------------------------------------------------------

  ghost predicate AllReal(w: Params, s: seq<Addr>)
    requires w.Ok()
  {
    forall i :: 0 <= i < |s| ==> Real(w, s[i])
  }

  lemma RealEmpty(w: Params)
    requires w.Ok()
    ensures AllReal(w, [])
  {
  }

  lemma RealConcat(w: Params, s: seq<Addr>, t: seq<Addr>)
    requires w.Ok()
    ensures AllReal(w, s + t) <==> AllReal(w, s) && AllReal(w, t)
  {
    hide Params.Ok, Real;
    assert forall i :: 0 <= i < |s| ==> (s + t)[i] == s[i];
    assert forall i :: 0 <= i < |t| ==> (s + t)[|s| + i] == t[i];
  }

  ghost predicate Bounds(w: Params, s: State)
    requires w.Ok()
  {
    && |s.staged| <= s.reserved
    && |s.fill| + s.reserved <= w.p
    && |s.rx| <= w.r
    && s.freed <= s.peeked <= |s.rx|
    && (forall frame :: frame in s.held ==> frame < w.n)
  }

  /** How many places hold the frame: pool, reserved slots, fill ring, kernel, RX entries not yet freed. */
  ghost function Places(w: Params, s: State, frame: nat): nat
    requires w.Ok() && s.freed <= |s.rx|
  {
    Count(w, s.pool, frame) + Count(w, s.staged, frame) + Count(w, s.fill, frame)
    + (if frame in s.held then 1 else 0) + Count(w, s.rx[s.freed..], frame)
  }

  ghost predicate Inv(w: Params, s: State)
    requires w.Ok()
  {
    && Bounds(w, s)
    && AllReal(w, s.pool)
    && AllReal(w, s.rx)
    && forall frame: nat :: frame < w.n ==> Places(w, s, frame) == 1
  }

  lemma {:induction false} FirstFramesCount(w: Params, k: nat, frame: nat)
    requires w.Ok() && k <= w.n
    ensures Count(w, FirstFrames(w, k), frame) == if frame < k then 1 else 0
  {
    hide Times, Count, FrameOf;
    if k > 0 {
      FirstFramesCount(w, k - 1, frame);
      InFrame(w, k - 1, 0);
      CountPush(w, FirstFrames(w, k - 1), Address(w, k - 1, 0), frame);
    } else {
      CountEmpty(w, frame);
    }
  }

  lemma {:induction false} FirstFramesReal(w: Params, k: nat)
    requires w.Ok() && k <= w.n
    ensures AllReal(w, FirstFrames(w, k))
  {
    if k > 0 {
      FirstFramesReal(w, k - 1);
      InFrame(w, k - 1, 0);
    }
  }

  lemma InitialInv(w: Params)
    requires w.Ok()
    ensures Inv(w, Initial(w))
  {
    FirstFramesReal(w, w.n);
    forall frame: nat | frame < w.n
      ensures Places(w, Initial(w), frame) == 1
    {
      FirstFramesCount(w, w.n, frame);
    }
  }

  /** No address at or above n * f belongs to the UMEM; UINT64_MAX is one of them. */
  lemma {:induction false} BeyondIsNotReal(w: Params, frames: nat, a: nat)
    requires w.Ok() && Times(frames, w.f) <= a
    ensures frames <= FrameOf(w, a)
  {
    if frames > 0 {
      BeyondIsNotReal(w, frames - 1, a - w.f);
    }
  }

  lemma InvalidIsNotReal(w: Params)
    requires w.Ok()
    ensures !Real(w, INVALID_UMEM_FRAME)
  {
    BeyondIsNotReal(w, w.n, INVALID_UMEM_FRAME);
  }

  lemma StageKeepsPlaces(w: Params, s: State, frame: nat)
    requires w.Ok() && Enabled(w, s, Stage) && s.freed <= |s.rx| && frame < w.n
    ensures Places(w, Step(w, s, Stage), frame) == Places(w, s, frame)
  {
    InvalidIsNotReal(w);
    CountPush(w, s.staged, Popped(s.pool), frame);
  }

  lemma FreeKeepsPlaces(w: Params, s: State, frame: nat)
    requires w.Ok() && Enabled(w, s, Free)
    ensures Places(w, Step(w, s, Free), frame) == Places(w, s, frame)
  {
    hide FrameOf, Count, Params.Ok, Times;
    CountPush(w, s.pool, s.rx[s.freed], frame);
    CountHead(w, s.rx[s.freed..], frame);
    assert s.rx[s.freed..][1..] == s.rx[s.freed + 1..];
  }

  lemma TakeKeepsPlaces(w: Params, s: State, frame: nat)
    requires w.Ok() && Enabled(w, s, Take) && s.freed <= |s.rx| && frame < w.n && Places(w, s, frame) == 1
    ensures Places(w, Step(w, s, Take), frame) == 1
  {
    CountHead(w, s.fill, frame);
  }

  lemma DeliverKeepsPlaces(w: Params, s: State, a: Action, frame: nat)
    requires w.Ok() && a.Deliver? && Enabled(w, s, a) && s.freed <= |s.rx|
    ensures Places(w, Step(w, s, a), frame) == Places(w, s, frame)
  {
    var addr := Address(w, a.frame, a.off);
    InFrame(w, a.frame, a.off);
    assert (s.rx + [addr])[s.freed..] == s.rx[s.freed..] + [addr];
    CountPush(w, s.rx[s.freed..], addr, frame);
  }

  lemma StepKeepsPlaces(w: Params, s: State, a: Action, frame: nat)
    requires w.Ok() && Bounds(w, s) && Enabled(w, s, a) && frame < w.n && Places(w, s, frame) == 1
    ensures Step(w, s, a).freed <= |Step(w, s, a).rx| && Places(w, Step(w, s, a), frame) == 1
  {
    match a
    case Sample(_) =>
    case Reserve(_) =>
    case Stage => StageKeepsPlaces(w, s, frame);
    case Submit => CountConcat(w, s.fill, s.staged, frame);
    case Peek(_) =>
    case Free => FreeKeepsPlaces(w, s, frame);
    case Release => assert s.rx[s.peeked..][0..] == s.rx[s.freed..];
    case Take => TakeKeepsPlaces(w, s, frame);
    case Deliver(_, _) => DeliverKeepsPlaces(w, s, a, frame);
  }

  lemma StepKeepsReal(w: Params, s: State, a: Action)
    requires w.Ok() && Bounds(w, s) && AllReal(w, s.pool) && AllReal(w, s.rx) && Enabled(w, s, a)
    ensures Bounds(w, Step(w, s, a)) && AllReal(w, Step(w, s, a).pool) && AllReal(w, Step(w, s, a).rx)
  {
    if a.Deliver? {
      InFrame(w, a.frame, a.off);
    }
  }

  lemma StepKeepsInv(w: Params, s: State, a: Action)
    requires w.Ok() && Inv(w, s) && Enabled(w, s, a)
    ensures Inv(w, Step(w, s, a))
  {
    StepKeepsReal(w, s, a);
    forall frame: nat | frame < w.n
      ensures Places(w, Step(w, s, a), frame) == 1
    {
      StepKeepsPlaces(w, s, a, frame);
    }
  }

  /** Every state of every run, under any interleaving of program and kernel. */
  lemma {:induction false} RunKeepsInv(w: Params, trace: seq<Action>, s: State)
    requires w.Ok() && Run(w, Initial(w), trace, s)
    ensures Inv(w, s)
    decreases |trace|
  {
    if trace == [] {
      InitialInv(w);
    } else {
      var last := |trace| - 1;
      var m: State :|
        Run(w, Initial(w), trace[..last], m) && Enabled(w, m, trace[last]) && s == Step(w, m, trace[last]);
      RunKeepsInv(w, trace[..last], m);
      StepKeepsInv(w, m, trace[last]);
    }
  }

  // ---------------------------------------------------------------------------------------------
  // Exactly one owner, at exactly one position
  // ---------------------------------------------------------------------------------------------

  datatype Location = InPool(i: nat) | InStaged(i: nat) | InFill(i: nat) | InKernel | InRx(i: nat)

  ghost predicate HeldAt(w: Params, s: seq<Addr>, i: nat, frame: nat)
    requires w.Ok()
  {
    i < |s| && FrameOf(w, s[i]) == frame
  }

  ghost predicate At(w: Params, s: State, l: Location, frame: nat)
    requires w.Ok() && s.freed <= |s.rx|
  {
    match l
    case InPool(i) => HeldAt(w, s.pool, i, frame)
    case InStaged(i) => HeldAt(w, s.staged, i, frame)
    case InFill(i) => HeldAt(w, s.fill, i, frame)
    case InKernel => frame in s.held
    case InRx(i) => HeldAt(w, s.rx[s.freed..], i, frame)  // i-th entry not yet freed
  }

  lemma PositionUnique(w: Params, s: seq<Addr>, frame: nat)
    requires w.Ok()
    ensures Count(w, s, frame) == 0 ==> forall i :: !HeldAt(w, s, i, frame)
    ensures Count(w, s, frame) == 1 ==> exists i :: HeldAt(w, s, i, frame)
    ensures Count(w, s, frame) == 1 ==> forall i, j :: HeldAt(w, s, i, frame) && HeldAt(w, s, j, frame) ==> i == j
  {
    CountIsPositions(w, s, frame);
    if i :| 0 <= i < |s| && FrameOf(w, s[i]) == frame {
      assert HeldAt(w, s, i, frame);
    }
  }

  /** No frame is lost or duplicated in any reachable state. */
  lemma ExactlyOneOwner(w: Params, trace: seq<Action>, s: State, frame: nat)
    requires w.Ok() && Run(w, Initial(w), trace, s) && frame < w.n
    ensures s.freed <= |s.rx|
    ensures exists l :: At(w, s, l, frame)
    ensures forall l, k :: At(w, s, l, frame) && At(w, s, k, frame) ==> l == k
  {
    RunKeepsInv(w, trace, s);
    var rest := s.rx[s.freed..];
    PositionUnique(w, s.pool, frame);
    PositionUnique(w, s.staged, frame);
    PositionUnique(w, s.fill, frame);
    PositionUnique(w, rest, frame);
    assert Places(w, s, frame) == 1;
    if Count(w, s.pool, frame) == 1 {
      var i :| HeldAt(w, s.pool, i, frame);
      assert At(w, s, InPool(i), frame);
    } else if Count(w, s.staged, frame) == 1 {
      var i :| HeldAt(w, s.staged, i, frame);
      assert At(w, s, InStaged(i), frame);
    } else if Count(w, s.fill, frame) == 1 {
      var i :| HeldAt(w, s.fill, i, frame);
      assert At(w, s, InFill(i), frame);
    } else if frame in s.held {
      assert At(w, s, InKernel, frame);
    } else {
      var i :| HeldAt(w, rest, i, frame);
      assert At(w, s, InRx(i), frame);
    }
  }

  // ---------------------------------------------------------------------------------------------
  // Sums over all frames
  // ---------------------------------------------------------------------------------------------

  /** Addresses of `s` that belong to a frame below k. */
  ghost function Total(w: Params, s: seq<Addr>, k: nat): nat
    requires w.Ok()
  {
    if k == 0 then 0 else Total(w, s, k - 1) + Count(w, s, k - 1)
  }

  lemma {:induction false} TotalPush(w: Params, s: seq<Addr>, a: Addr, k: nat)
    requires w.Ok()
    ensures Total(w, s + [a], k) == Total(w, s, k) + if FrameOf(w, a) < k then 1 else 0
  {
    if k > 0 {
      TotalPush(w, s, a, k - 1);
      CountPush(w, s, a, k - 1);
    }
  }

  lemma {:induction false} TotalEmpty(w: Params, k: nat)
    requires w.Ok()
    ensures Total(w, [], k) == 0
  {
    if k > 0 {
      TotalEmpty(w, k - 1);
    }
  }

  lemma {:induction false} TotalSize(w: Params, s: seq<Addr>)
    requires w.Ok()
    ensures Total(w, s, w.n) <= |s|
    ensures Total(w, s, w.n) == |s| <==> AllReal(w, s)
  {
    if s == [] {
      TotalEmpty(w, w.n);
    } else {
      var u, a := s[..|s| - 1], s[|s| - 1];
      assert s == u + [a];
      TotalSize(w, u);
      TotalPush(w, u, a, w.n);
      assert AllReal(w, s) <==> AllReal(w, u) && Real(w, a) by {
        assert forall i :: 0 <= i < |u| ==> u[i] == s[i];
      }
    }
  }

  ghost function Below(held: set<nat>, k: nat): set<nat> {
    set frame | frame in held && frame < k
  }

  ghost function PlacesTotal(w: Params, s: State, k: nat): nat
    requires w.Ok() && s.freed <= |s.rx|
  {
    if k == 0 then 0 else PlacesTotal(w, s, k - 1) + Places(w, s, k - 1)
  }

  lemma {:induction false} PlacesTotalIsSum(w: Params, s: State, k: nat)
    requires w.Ok() && s.freed <= |s.rx|
    ensures PlacesTotal(w, s, k) ==
      Total(w, s.pool, k) + Total(w, s.staged, k) + Total(w, s.fill, k)
      + |Below(s.held, k)| + Total(w, s.rx[s.freed..], k)
  {
    if k > 0 {
      PlacesTotalIsSum(w, s, k - 1);
      if k - 1 in s.held {
        assert Below(s.held, k) == Below(s.held, k - 1) + {k - 1};
      } else {
        assert Below(s.held, k) == Below(s.held, k - 1);
      }
    } else {
      assert Below(s.held, 0) == {};
    }
  }

  lemma {:induction false} PlacesTotalIsCount(w: Params, s: State, k: nat)
    requires w.Ok() && Inv(w, s) && k <= w.n
    ensures PlacesTotal(w, s, k) == k
  {
    if k > 0 {
      PlacesTotalIsCount(w, s, k - 1);
    }
  }

  // ---------------------------------------------------------------------------------------------
  // The pool assertion, and what reaches the fill ring
  // ---------------------------------------------------------------------------------------------

  /** Frames out of the program's hands: in the kernel, or in RX slots not yet returned to the pool. */
  ghost function Outstanding(s: State): int {
    |s.held| + |s.rx| - s.freed
  }

  /** Addresses in `s` that belong to no frame of the UMEM. */
  ghost function Invalids(w: Params, s: seq<Addr>): nat
    requires w.Ok()
  {
    TotalSize(w, s);
    |s| - Total(w, s, w.n)
  }

  lemma InvalidsNone(w: Params, s: seq<Addr>)
    requires w.Ok()
    ensures Invalids(w, s) == 0 <==> AllReal(w, s)
  {
    TotalSize(w, s);
  }

  /** Conservation: every frame is counted once, and invalid entries of the fill ring are not frames. */
  lemma FrameCount(w: Params, s: State)
    requires w.Ok() && Inv(w, s)
    ensures |s.pool| + |s.staged| + |s.fill| + Outstanding(s) == w.n + Invalids(w, s.staged) + Invalids(w, s.fill)
  {
    PlacesTotalIsSum(w, s, w.n);
    PlacesTotalIsCount(w, s, w.n);
    assert Below(s.held, w.n) == s.held;
    TotalSize(w, s.pool);
    TotalSize(w, s.staged);
    TotalSize(w, s.fill);
    TotalSize(w, s.rx[s.freed..]);
  }

  /** The assertion in xsk_free_umem_frame never fails. */
  lemma PoolNeverFull(w: Params, trace: seq<Action>, s: State)
    requires w.Ok() && Run(w, Initial(w), trace, s) && Enabled(w, s, Free)
    ensures |s.pool| < w.n
  {
    RunKeepsInv(w, trace, s);
    FrameCount(w, s);
    TotalSize(w, s.staged);
    TotalSize(w, s.fill);
  }

  /**
   Reserving every free slot of the fill ring asks for more than the pool holds exactly when too many
   frames are out.  Invalid entries already in the ring leave that much more room.
   */
  lemma FullReserveExceedsPoolIff(w: Params, s: State)
    requires w.Ok() && Inv(w, s) && s.reserved == 0
    ensures w.p - |s.fill| > |s.pool| <==> Outstanding(s) > w.n - w.p + Invalids(w, s.fill)
  {
    FrameCount(w, s);
    assert Invalids(w, s.staged) == 0;
  }

  /** With room for what is out beside a full fill ring, the pool covers every free slot of the ring. */
  lemma RoomCoversRequest(w: Params, s: State)
    requires w.Ok() && Inv(w, s) && s.staged == [] && Outstanding(s) <= w.n - w.p
    ensures w.p - |s.fill| <= |s.pool|
  {
    FrameCount(w, s);
    InvalidsNone(w, s.staged);
  }

  /** What a batch of k allocations yields: the top of the pool downwards, then only invalid frames. */
  ghost function Batch(pool: seq<Addr>, k: nat): (b: seq<Addr>)
    ensures |b| == k
    ensures forall i :: 0 <= i < k ==> b[i] == if i < |pool| then pool[|pool| - 1 - i] else INVALID_UMEM_FRAME
  {
    if k == 0 then [] else
      var b := Batch(Rest(pool), k - 1);
      [Popped(pool)] + b
  }

  lemma {:induction false} BatchNext(pool: seq<Addr>, k: nat)
    ensures Batch(pool, k + 1) == Batch(pool, k) + [Popped(Left(pool, k))]
    ensures Left(pool, k + 1) == Rest(Left(pool, k))
  {
  }

  /** The pool after k allocations. */
  ghost function Left(pool: seq<Addr>, k: nat): seq<Addr> {
    if k <= |pool| then pool[..|pool| - k] else []
  }

  lemma LeftSize(pool: seq<Addr>, k: nat)
    ensures |Left(pool, k)| == if k <= |pool| then |pool| - k else 0
  {
  }

  lemma LeftAt(pool: seq<Addr>, k: nat, i: nat)
    requires i < |Left(pool, k)|
    ensures i < |pool| && Left(pool, k)[i] == pool[i]
  {
  }

  /** Taken off a stack from the top downwards, and UINT64_MAX when it is empty. */
  ghost predicate TopDown(taken: seq<Addr>, stack: seq<Addr>) {
    forall i :: 0 <= i < |taken| ==>
      taken[i] == if i < |stack| then stack[|stack| - 1 - i] else 0xFFFF_FFFF_FFFF_FFFF
  }

  lemma BatchTopDown(pool: seq<Addr>, k: nat)
    ensures TopDown(Batch(pool, k), pool)
  {
  }

  lemma BatchStart(pool: seq<Addr>)
    ensures Batch(pool, 0) == [] && Left(pool, 0) == pool
  {
    assert pool[..|pool|] == pool;
  }

  /** A batch contains an invalid frame exactly when it is larger than the pool. */
  lemma BatchRealIff(w: Params, pool: seq<Addr>, k: nat)
    requires w.Ok() && AllReal(w, pool)
    ensures AllReal(w, Batch(pool, k)) <==> k <= |pool|
  {
    InvalidIsNotReal(w);
    var b := Batch(pool, k);
    if k > |pool| {
      assert b[|pool|] == INVALID_UMEM_FRAME;
    }
  }

  /** Every Reserve of the run asked for no more frames than the pool held at that moment. */
  ghost predicate Affordable(w: Params, s: State, trace: seq<Action>, t: State)
    requires w.Ok()
    decreases |trace|
  {
    if trace == [] then s == t
    else
      var last := |trace| - 1;
      exists m: State ::
        && Affordable(w, s, trace[..last], m)
        && Enabled(w, m, trace[last])
        && t == Step(w, m, trace[last])
        && (trace[last].Reserve? ==> trace[last].k <= |m.pool|)
  }

  /** Nothing invalid in or on its way to the fill ring, and the batch under way can be completed. */
  ghost predicate Clean(w: Params, s: State)
    requires w.Ok()
  {
    AllReal(w, s.fill) && AllReal(w, s.staged) && s.reserved - |s.staged| <= |s.pool|
  }

  lemma StepKeepsClean(w: Params, s: State, a: Action)
    requires w.Ok() && Enabled(w, s, a) && AllReal(w, s.pool) && Clean(w, s)
    requires a.Reserve? ==> a.k <= |s.pool|
    ensures Clean(w, Step(w, s, a))
  {
  }

  /** Then no invalid frame is ever written to a fill slot, and the batch under way can be completed. */
  lemma {:induction false} AffordableNeverInvalid(w: Params, trace: seq<Action>, s: State)
    requires w.Ok() && Affordable(w, Initial(w), trace, s)
    ensures Run(w, Initial(w), trace, s)
    ensures Clean(w, s)
    decreases |trace|
  {
    if trace != [] {
      var last := |trace| - 1;
      var m: State :|
        && Affordable(w, Initial(w), trace[..last], m)
        && Enabled(w, m, trace[last])
        && s == Step(w, m, trace[last])
        && (trace[last].Reserve? ==> trace[last].k <= |m.pool|);
      AffordableNeverInvalid(w, trace[..last], m);
      RunKeepsInv(w, trace[..last], m);
      StepKeepsClean(w, m, trace[last]);
    }
  }

  /** A run in which, at every Reserve, no more frames are out than the fill ring leaves room for. */
  ghost predicate Spare(w: Params, s: State, trace: seq<Action>, t: State)
    requires w.Ok()
    decreases |trace|
  {
    if trace == [] then s == t
    else
      var last := |trace| - 1;
      exists m: State ::
        && Spare(w, s, trace[..last], m)
        && Enabled(w, m, trace[last])
        && t == Step(w, m, trace[last])
        && (trace[last].Reserve? ==> Outstanding(m) <= w.n - w.p)
  }

  /** Such a run never publishes an invalid frame, although the program never compares the two numbers. */
  lemma {:induction false} SpareNeverInvalid(w: Params, trace: seq<Action>, s: State)
    requires w.Ok() && Spare(w, Initial(w), trace, s)
    ensures Affordable(w, Initial(w), trace, s) && Clean(w, s)
    decreases |trace|
  {
    if trace != [] {
      var last := |trace| - 1;
      var m: State :|
        && Spare(w, Initial(w), trace[..last], m)
        && Enabled(w, m, trace[last])
        && s == Step(w, m, trace[last])
        && (trace[last].Reserve? ==> Outstanding(m) <= w.n - w.p);
      SpareNeverInvalid(w, trace[..last], m);
      AffordableNeverInvalid(w, trace[..last], m);
      RunKeepsInv(w, trace[..last], m);
      if trace[last].Reserve? {
        RoomCoversRequest(w, m);
      }
    }
    AffordableNeverInvalid(w, trace, s);
  }
}
