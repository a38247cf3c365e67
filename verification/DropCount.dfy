/**
 `xdp-drop_and_count-bpf.c` on any number of CPUs, with the locked reader of
 `xdp-drop_and_count-user.c` beside it.  Every access to shared memory is a step of its own.
 */
module DropCount {

  const ETH_ALEN: nat := 6
  const ETH_HLEN: nat := 14
  const WORD: nat := 0x1_0000_0000_0000_0000  // counters are 64 bits wide

  /** What a 64-bit counter shows. */
  function Word(x: nat): nat {
    x % WORD
  }

  type Octet = b: int | 0 <= b < 256

  datatype Mac = Mac(bytes: seq<Octet>)

  /** A packet from `data` to `data_end`. */
  type Packet = seq<Octet>

  // ---- the drop decision

  /** A byte stored in a `char`, which is signed. */
  function SignedChar(b: Octet): int {
    if b < 128 then b else b - 256
  }

  function Dest(pkt: Packet): Mac
    requires |pkt| >= ETH_ALEN
  {
    Mac(pkt[..ETH_ALEN])
  }

  /** make_drop_decision_eth, for the configured address. */
  method MakeDropDecision(pkt: Packet, ethDAddr: Mac) returns (doDrop: bool)
    requires |ethDAddr.bytes| == ETH_ALEN
    ensures doDrop <==> |pkt| >= 14 && pkt[..6] == ethDAddr.bytes && forall k :: 0 <= k < 6 ==> pkt[k] < 128
    ensures doDrop <==> Dropped(pkt, ethDAddr)
  {
    if |pkt| < ETH_HLEN {
      return false;
    }
    doDrop := true;
    var i := 0;
    while i < ETH_ALEN
      invariant 0 <= i <= ETH_ALEN && doDrop
      invariant forall j :: 0 <= j < i ==> pkt[j] == SignedChar(ethDAddr.bytes[j])
    {
      if pkt[i] != SignedChar(ethDAddr.bytes[i]) {
        return false;
      }
      i := i + 1;
    }
    assert pkt[..ETH_ALEN] == ethDAddr.bytes;
  }

  /** A complete Ethernet header with that destination; an address with a byte above 127 never matches. */
  ghost predicate Dropped(pkt: Packet, ethDAddr: Mac) {
    |pkt| >= ETH_HLEN && Dest(pkt) == ethDAddr && forall j :: 0 <= j < |ethDAddr.bytes| ==> ethDAddr.bytes[j] < 128
  }

  // ---- the shared state

  datatype Owner = Free | Cpu(i: nat) | Reader(j: nat)

  datatype Rec = Rec(lock: Owner, dropped: nat, t_lastdrop: nat)

  /** Where a CPU is in xdp_prog_main; the mac is that of the record it works on. */
  datatype Pc =
    | Idle
    | WantLock(mac: Mac, drop: bool)
    | Locked(mac: Mac, drop: bool)
    | Loaded(mac: Mac, value: nat)   // has read value->dropped
    | Stored(mac: Mac)               // has written value->dropped
    | Clocked(mac: Mac, t: nat)      // has read the clock
    | Done(mac: Mac, drop: bool)     // record complete, lock still held
    | Adding(drop: bool)             // lock released, before the atomic add
  {
    predicate Holds(m: Mac) {
      (Locked? || Loaded? || Stored? || Clocked? || Done?) && mac == m
    }

    /** Between the two writes to the record. */
    predicate Mid() {
      Stored? || Clocked?
    }

    /** The record counts this packet, the global counter does not yet. */
    predicate InFlight() {
      Stored? || Clocked? || (Done? && drop) || (Adding? && drop)
    }

    /** Will count, is counting or has counted a packet. */
    predicate ForDrop() {
      Loaded? || Stored? || Clocked? || ((WantLock? || Locked? || Done?) && drop)
    }
  }

  /** A reader copying one record under its lock. */
  datatype ReaderPc =
    | Resting
    | Waiting(mac: Mac)
    | Inside(mac: Mac)
    | Half(mac: Mac, d: nat)             // has copied dropped
    | Copied(mac: Mac, d: nat, t: nat)   // has copied both, lock still held
  {
    predicate Holds(m: Mac) {
      (Inside? || Half? || Copied?) && mac == m
    }
  }

  datatype State = State(
    recs: map<Mac, Rec>,                   // xdp_stats_per_mac_map
    total: nat,                            // xdp_drop_stats_map
    clock: nat,                            // bpf_ktime_get_ns
    cpus: seq<Pc>,
    readers: seq<ReaderPc>,
    updates: map<Mac, seq<(nat, nat)>>,    // the initial pair of each record, then one per completed update
    counted: nat,                          // increments of records so far
    added: nat                             // atomic adds so far
  )

  datatype Action =
    | Arrive(i: nat, pkt: Packet)
    | Advance(i: nat)
    | Tick(d: nat)
    | Ask(j: nat, mac: Mac)
    | Read(j: nat)

  ghost predicate Enabled(s: State, a: Action) {
    match a
    // A packet too short for a header touches no record; any other one needs its record to exist.
    case Arrive(i, pkt) => i < |s.cpus| && s.cpus[i].Idle? && (|pkt| >= ETH_HLEN ==> Dest(pkt) in s.recs)
    case Advance(i) =>
      && i < |s.cpus| && !s.cpus[i].Idle?
      && (!s.cpus[i].Adding? ==> s.cpus[i].mac in s.recs && s.cpus[i].mac in s.updates)
      && (s.cpus[i].WantLock? ==> s.recs[s.cpus[i].mac].lock.Free?)
    case Tick(_) => true
    case Ask(j, mac) => j < |s.readers| && s.readers[j].Resting? && mac in s.recs
    case Read(j) =>
      && j < |s.readers| && !s.readers[j].Resting? && s.readers[j].mac in s.recs
      && (s.readers[j].Waiting? ==> s.recs[s.readers[j].mac].lock.Free?)
  }

  ghost function StepCpu(s: State, i: nat): State
    requires Enabled(s, Advance(i))
  {
    match s.cpus[i]
    case WantLock(mac, drop) =>
      s.(cpus := s.cpus[i := Locked(mac, drop)], recs := s.recs[mac := s.recs[mac].(lock := Cpu(i))])
    case Locked(mac, drop) =>
      s.(cpus := s.cpus[i := if drop then Loaded(mac, s.recs[mac].dropped) else Done(mac, false)])
    case Loaded(mac, value) =>
      s.(cpus := s.cpus[i := Stored(mac)],
         recs := s.recs[mac := s.recs[mac].(dropped := Word(value + 1))],
         counted := s.counted + 1)
    case Stored(mac) =>
      s.(cpus := s.cpus[i := Clocked(mac, s.clock)])
    case Clocked(mac, t) =>
      s.(cpus := s.cpus[i := Done(mac, true)],
         recs := s.recs[mac := s.recs[mac].(t_lastdrop := t)],
         updates := s.updates[mac := s.updates[mac] + [(s.recs[mac].dropped, t)]])
    case Done(mac, drop) =>
      s.(cpus := s.cpus[i := Adding(drop)], recs := s.recs[mac := s.recs[mac].(lock := Free)])
    case Adding(drop) =>
      if drop then s.(cpus := s.cpus[i := Idle], total := Word(s.total + 1), added := s.added + 1)
      else s.(cpus := s.cpus[i := Idle])
  }

  ghost function StepReader(s: State, j: nat): State
    requires Enabled(s, Read(j))
  {
    match s.readers[j]
    case Waiting(mac) =>
      s.(readers := s.readers[j := Inside(mac)], recs := s.recs[mac := s.recs[mac].(lock := Reader(j))])
    case Inside(mac) => s.(readers := s.readers[j := Half(mac, s.recs[mac].dropped)])
    case Half(mac, d) => s.(readers := s.readers[j := Copied(mac, d, s.recs[mac].t_lastdrop)])
    case Copied(mac, d, t) =>
      s.(readers := s.readers[j := Resting], recs := s.recs[mac := s.recs[mac].(lock := Free)])
  }

  ghost function Step(s: State, a: Action, ethDAddr: Mac): State
    requires Enabled(s, a)
  {
    match a
    case Arrive(i, pkt) =>
      if |pkt| < ETH_HLEN then s
      else s.(cpus := s.cpus[i := WantLock(Dest(pkt), Dropped(pkt, ethDAddr))])
    case Advance(i) => StepCpu(s, i)
    case Tick(d) => s.(clock := s.clock + d)
    case Ask(j, mac) => s.(readers := s.readers[j := Waiting(mac)])
    case Read(j) => StepReader(s, j)
  }

  /** Nothing under way; the records and counters may hold anything from the past. */
  ghost predicate Initial(s: State) {
    && (forall i :: 0 <= i < |s.cpus| ==> s.cpus[i].Idle?)
    && (forall j :: 0 <= j < |s.readers| ==> s.readers[j].Resting?)
    && s.updates.Keys == s.recs.Keys
    && (forall mac :: mac in s.recs ==>
      && s.recs[mac].lock.Free? && s.recs[mac].dropped < WORD && s.recs[mac].t_lastdrop <= s.clock
      && s.updates[mac] == [(s.recs[mac].dropped, s.recs[mac].t_lastdrop)])
    && s.total < WORD && s.counted == 0 && s.added == 0
  }

  ghost predicate Run(s: State, trace: seq<Action>, t: State, ethDAddr: Mac) {
    if trace == [] then s == t
    else
      var last := |trace| - 1;
      exists m: State ::
        Run(s, trace[..last], m, ethDAddr) && Enabled(m, trace[last]) && t == Step(m, trace[last], ethDAddr)
  }

  // ---- the invariant

  function InFlight(cpus: seq<Pc>): nat {
    if cpus == [] then 0 else InFlight(cpus[..|cpus| - 1]) + if cpus[|cpus| - 1].InFlight() then 1 else 0
  }

  /** The lock field names the one CPU or reader inside the critical section of the record. */
  ghost predicate LockOk(s: State, mac: Mac)
    requires mac in s.recs
  {
    && (forall i :: 0 <= i < |s.cpus| ==> (s.cpus[i].Holds(mac) <==> s.recs[mac].lock == Cpu(i)))
    && (forall j :: 0 <= j < |s.readers| ==> (s.readers[j].Holds(mac) <==> s.recs[mac].lock == Reader(j)))
    && (s.recs[mac].lock.Cpu? ==> s.recs[mac].lock.i < |s.cpus|)
  }

  /** Unless its holder is between the two writes, the record is the last completed update. */
  ghost predicate PairOk(s: State, mac: Mac)
    requires mac in s.recs && mac in s.updates
  {
    var r := s.recs[mac];
    && s.updates[mac] != []
    && ((r.lock.Cpu? && r.lock.i < |s.cpus| && s.cpus[r.lock.i].Mid())
        || s.updates[mac][|s.updates[mac]| - 1] == (r.dropped, r.t_lastdrop))
  }

  /** What a CPU has in its registers fits the record it has locked. */
  ghost predicate CpuOk(s: State, pc: Pc, ethDAddr: Mac) {
    && (!pc.Idle? && !pc.Adding? ==> pc.mac in s.recs)
    && (pc.ForDrop() ==> pc.mac == ethDAddr)
    && (pc.Loaded? ==> pc.mac in s.recs && pc.value == s.recs[pc.mac].dropped)
    && (pc.Clocked? ==> pc.mac in s.recs && s.recs[pc.mac].t_lastdrop <= pc.t <= s.clock)
  }

  ghost predicate ReaderOk(s: State, pc: ReaderPc) {
    && (!pc.Resting? ==> pc.mac in s.recs && pc.mac in s.updates)
    && (pc.Half? ==> pc.d == s.recs[pc.mac].dropped)
    && (pc.Copied? ==> s.updates[pc.mac] != [] && s.updates[pc.mac][|s.updates[pc.mac]| - 1] == (pc.d, pc.t))
  }

  /** Only the configured record counts, and no record is stamped with a time to come. */
  ghost predicate RecOk(s0: State, s: State, ethDAddr: Mac, mac: Mac)
    requires mac in s0.recs && mac in s.recs
  {
    && (mac != ethDAddr ==>
      s.recs[mac].dropped == s0.recs[mac].dropped && s.recs[mac].t_lastdrop == s0.recs[mac].t_lastdrop)
    && (mac == ethDAddr ==> s.recs[mac].dropped == Word(s0.recs[mac].dropped + s.counted))
    && s.recs[mac].t_lastdrop <= s.clock
  }

  /** The record counts and the global count differ by what is in flight. */
  ghost predicate CountsOk(s0: State, s: State, ethDAddr: Mac) {
    && s.recs.Keys == s.updates.Keys == s0.recs.Keys
    && s.total == Word(s0.total + s.added)
    && s.counted == s.added + InFlight(s.cpus)
    && (ethDAddr !in s.recs ==> s.counted == 0)
  }

  ghost predicate Inv(s0: State, s: State, ethDAddr: Mac) {
    && CountsOk(s0, s, ethDAddr)
    && (forall mac :: mac in s.recs ==> RecOk(s0, s, ethDAddr, mac) && LockOk(s, mac) && PairOk(s, mac))
    && (forall i :: 0 <= i < |s.cpus| ==> CpuOk(s, s.cpus[i], ethDAddr))
    && (forall j :: 0 <= j < |s.readers| ==> ReaderOk(s, s.readers[j]))
  }

  lemma InitialInv(s: State, ethDAddr: Mac)
    requires Initial(s)
    ensures Inv(s, s, ethDAddr)
  {
    hide InFlight, Word;
    NoneInFlight(s.cpus);
    SmallWord(s.total);
    forall mac | mac in s.recs
      ensures RecOk(s, s, ethDAddr, mac) && LockOk(s, mac) && PairOk(s, mac)
    {
      SmallWord(s.recs[mac].dropped);
    }
  }

  lemma SmallWord(x: nat)
    requires x < WORD
    ensures Word(x) == x
  {
  }

  lemma {:induction false} NoneInFlight(cpus: seq<Pc>)
    requires forall i :: 0 <= i < |cpus| ==> cpus[i].Idle?
    ensures InFlight(cpus) == 0
  {
    if cpus != [] {
      NoneInFlight(cpus[..|cpus| - 1]);
    }
  }

  lemma {:induction false} InFlightUpdate(cpus: seq<Pc>, i: nat, pc: Pc)
    requires i < |cpus|
    ensures InFlight(cpus[i := pc]) ==
      InFlight(cpus) - (if cpus[i].InFlight() then 1 else 0) + if pc.InFlight() then 1 else 0
  {
    var last := |cpus| - 1;
    if i == last {
      assert cpus[i := pc][..last] == cpus[..last];
    } else {
      InFlightUpdate(cpus[..last], i, pc);
      assert cpus[i := pc][..last] == cpus[..last][i := pc];
    }
  }

  /** What one step of a CPU does to its program counter, the record it works on and that record's history. */
  ghost predicate Moves(i: nat, clock: nat, pc: Pc, qc: Pc, r: Rec, q: Rec, u: seq<(nat, nat)>, v: seq<(nat, nat)>) {
    match pc
    case Idle => false
    case WantLock(mac, drop) => r.lock.Free? && qc == Locked(mac, drop) && q == r.(lock := Cpu(i)) && v == u
    case Locked(mac, drop) => qc == (if drop then Loaded(mac, r.dropped) else Done(mac, false)) && q == r && v == u
    case Loaded(mac, value) => qc == Stored(mac) && q == r.(dropped := Word(value + 1)) && v == u
    case Stored(mac) => qc == Clocked(mac, clock) && q == r && v == u
    case Clocked(mac, t) => qc == Done(mac, true) && q == r.(t_lastdrop := t) && v == u + [(r.dropped, t)]
    case Done(mac, drop) => qc == Adding(drop) && q == r.(lock := Free) && v == u
    case Adding(_) => false
  }

  /** A CPU step touches its own program counter and, unless it is the atomic add, one record. */
  lemma CpuShape(s: State, i: nat)
    requires Enabled(s, Advance(i))
    ensures var t := StepCpu(s, i);
      && t.readers == s.readers && t.clock == s.clock && |t.cpus| == |s.cpus|
      && t.cpus == s.cpus[i := t.cpus[i]]
      && t.recs.Keys == s.recs.Keys && t.updates.Keys == s.updates.Keys
    ensures var t := StepCpu(s, i);
      if s.cpus[i].Adding? then t.recs == s.recs && t.updates == s.updates && t.cpus[i] == Idle
      else
        var mac := s.cpus[i].mac;
        && (forall m :: m in s.recs && m != mac ==> t.recs[m] == s.recs[m])
        && (forall m :: m in s.updates && m != mac ==> t.updates[m] == s.updates[m])
        && Moves(i, s.clock, s.cpus[i], t.cpus[i], s.recs[mac], t.recs[mac], s.updates[mac], t.updates[mac])
  {
  }

  /** The record and the global counter after a step count one more exactly when the step says so. */
  lemma CpuCounters(s: State, i: nat)
    requires Enabled(s, Advance(i))
    ensures var t := StepCpu(s, i);
      && t.counted == s.counted + (if s.cpus[i].Loaded? then 1 else 0)
      && t.added == s.added + (if s.cpus[i].Adding? && s.cpus[i].drop then 1 else 0)
      && t.total == (if s.cpus[i].Adding? && s.cpus[i].drop then Word(s.total + 1) else s.total)
      && t.counted - t.added == s.counted - s.added
           + (if t.cpus[i].InFlight() then 1 else 0) - (if s.cpus[i].InFlight() then 1 else 0)
  {
    hide Word;
  }

  lemma CpuKeepsCounts(s0: State, s: State, i: nat, ethDAddr: Mac)
    requires Inv(s0, s, ethDAddr) && Enabled(s, Advance(i))
    ensures CountsOk(s0, StepCpu(s, i), ethDAddr)
  {
    hide InFlight, LockOk, PairOk, ReaderOk, StepCpu, Moves, Word, RecOk;
    var t := StepCpu(s, i);
    assert CpuOk(s, s.cpus[i], ethDAddr);
    CpuShape(s, i);
    CpuCounters(s, i);
    InFlightUpdate(s.cpus, i, t.cpus[i]);
    CountOnce(s0.total, s.added);
  }

  lemma CpuKeepsRec(s0: State, s: State, i: nat, ethDAddr: Mac, mac: Mac)
    requires Inv(s0, s, ethDAddr) && Enabled(s, Advance(i)) && mac in s.recs && mac in s0.recs
    ensures mac in StepCpu(s, i).recs && RecOk(s0, StepCpu(s, i), ethDAddr, mac)
  {
    hide InFlight, LockOk, PairOk, ReaderOk, StepCpu, Word;
    assert CpuOk(s, s.cpus[i], ethDAddr) && RecOk(s0, s, ethDAddr, mac);
    CpuShape(s, i);
    CpuCounters(s, i);
    CountOnce(s0.recs[mac].dropped, s.counted);
  }

  lemma CountOnce(x: nat, n: nat)
    ensures Word(Word(x + n) + 1) == Word(x + (n + 1))
  {
  }

  lemma CpuKeepsLocks(s0: State, s: State, i: nat, ethDAddr: Mac, mac: Mac)
    requires Inv(s0, s, ethDAddr) && Enabled(s, Advance(i)) && mac in s.recs
    ensures mac in StepCpu(s, i).recs && LockOk(StepCpu(s, i), mac)
  {
    hide InFlight, PairOk, ReaderOk, StepCpu, CountsOk, CpuOk, RecOk;
    CpuShape(s, i);
    assert LockOk(s, mac);
  }

  lemma CpuKeepsPairs(s0: State, s: State, i: nat, ethDAddr: Mac, mac: Mac)
    requires Inv(s0, s, ethDAddr) && Enabled(s, Advance(i)) && mac in s.recs && mac in s.updates
    ensures mac in StepCpu(s, i).recs && mac in StepCpu(s, i).updates && PairOk(StepCpu(s, i), mac)
  {
    hide InFlight, ReaderOk, StepCpu, CountsOk, CpuOk, RecOk;
    CpuShape(s, i);
    assert LockOk(s, mac) && PairOk(s, mac);
  }

  /** The CPU that moved. */
  lemma CpuKeepsItself(s0: State, s: State, i: nat, ethDAddr: Mac)
    requires Inv(s0, s, ethDAddr) && Enabled(s, Advance(i))
    ensures CpuOk(StepCpu(s, i), StepCpu(s, i).cpus[i], ethDAddr)
  {
    hide InFlight, ReaderOk, LockOk, PairOk, StepCpu, Word, CountsOk;
    CpuShape(s, i);
    assert CpuOk(s, s.cpus[i], ethDAddr);
    CountsKeys(s0, s, ethDAddr);
    assert !s.cpus[i].Adding? ==> RecOk(s0, s, ethDAddr, s.cpus[i].mac);
  }

  /** Any other CPU: what it has read of its record is protected by the lock. */
  lemma CpuKeepsOthers(s: State, i: nat, ethDAddr: Mac, k: nat)
    requires Enabled(s, Advance(i)) && k < |s.cpus| && k != i && CpuOk(s, s.cpus[k], ethDAddr)
    requires s.cpus[k].Loaded? || s.cpus[k].Clocked? ==> LockOk(s, s.cpus[k].mac)
    ensures CpuOk(StepCpu(s, i), s.cpus[k], ethDAddr)
  {
    hide StepCpu, Word;
    CpuShape(s, i);
  }

  lemma CpuKeepsCpu(s0: State, s: State, i: nat, ethDAddr: Mac, k: nat)
    requires Inv(s0, s, ethDAddr) && Enabled(s, Advance(i)) && k < |s.cpus|
    ensures k < |StepCpu(s, i).cpus| && CpuOk(StepCpu(s, i), StepCpu(s, i).cpus[k], ethDAddr)
  {
    hide InFlight, ReaderOk, PairOk, StepCpu, Word, CountsOk, RecOk, Moves;
    CpuShape(s, i);
    if k == i {
      CpuKeepsItself(s0, s, i, ethDAddr);
    } else {
      assert CpuOk(s, s.cpus[k], ethDAddr);
      if s.cpus[k].Loaded? || s.cpus[k].Clocked? {
        assert LockOk(s, s.cpus[k].mac);
      }
      CpuKeepsOthers(s, i, ethDAddr, k);
    }
  }

  lemma CpuKeepsReader(s0: State, s: State, i: nat, ethDAddr: Mac, j: nat)
    requires Inv(s0, s, ethDAddr) && Enabled(s, Advance(i)) && j < |s.readers|
    ensures ReaderOk(StepCpu(s, i), s.readers[j])
  {
    hide InFlight, PairOk, StepCpu, CountsOk, RecOk, Word;
    CpuShape(s, i);
    assert ReaderOk(s, s.readers[j]) && CpuOk(s, s.cpus[i], ethDAddr);
    if !s.readers[j].Resting? {
      assert LockOk(s, s.readers[j].mac);
    }
  }

  lemma CpuKeepsInv(s0: State, s: State, i: nat, ethDAddr: Mac)
    requires Inv(s0, s, ethDAddr) && Enabled(s, Advance(i))
    ensures Inv(s0, StepCpu(s, i), ethDAddr)
  {
    hide InFlight, LockOk, PairOk, CpuOk, ReaderOk, CountsOk, RecOk, StepCpu, Moves, Enabled;
    var t := StepCpu(s, i);
    CpuShape(s, i);
    CpuKeepsCounts(s0, s, i, ethDAddr);
    CountsKeys(s0, s, ethDAddr);
    forall mac | mac in t.recs
      ensures RecOk(s0, t, ethDAddr, mac) && LockOk(t, mac) && PairOk(t, mac)
    {
      CpuKeepsRec(s0, s, i, ethDAddr, mac);
      CpuKeepsLocks(s0, s, i, ethDAddr, mac);
      CpuKeepsPairs(s0, s, i, ethDAddr, mac);
    }
    forall k | 0 <= k < |t.cpus|
      ensures CpuOk(t, t.cpus[k], ethDAddr)
    {
      CpuKeepsCpu(s0, s, i, ethDAddr, k);
    }
    forall j | 0 <= j < |t.readers|
      ensures ReaderOk(t, t.readers[j])
    {
      CpuKeepsReader(s0, s, i, ethDAddr, j);
    }
  }

  lemma CountsKeys(s0: State, s: State, ethDAddr: Mac)
    requires CountsOk(s0, s, ethDAddr)
    ensures s.recs.Keys == s.updates.Keys == s0.recs.Keys
  {
  }

  lemma ReaderShape(s: State, j: nat)
    requires Enabled(s, Read(j))
    ensures var t := StepReader(s, j); var mac := s.readers[j].mac;
      && t.cpus == s.cpus && t.clock == s.clock && t.updates == s.updates
      && t.total == s.total && t.counted == s.counted && t.added == s.added
      && t.recs.Keys == s.recs.Keys && t.readers == s.readers[j := t.readers[j]]
      && (forall m :: m in s.recs && m != mac ==> t.recs[m] == s.recs[m])
      && Copies(j, s.readers[j], t.readers[j], s.recs[mac], t.recs[mac])
  {
  }

  /** What one step of a reader does to its program counter and the record it reads. */
  ghost predicate Copies(j: nat, pc: ReaderPc, qc: ReaderPc, r: Rec, q: Rec) {
    match pc
    case Resting => false
    case Waiting(mac) => r.lock.Free? && qc == Inside(mac) && q == r.(lock := Reader(j))
    case Inside(mac) => qc == Half(mac, r.dropped) && q == r
    case Half(mac, d) => qc == Copied(mac, d, r.t_lastdrop) && q == r
    case Copied(mac, _, _) => qc == Resting && q == r.(lock := Free)
  }

  lemma ReaderKeepsLocks(s0: State, s: State, j: nat, ethDAddr: Mac, mac: Mac)
    requires Inv(s0, s, ethDAddr) && Enabled(s, Read(j)) && mac in s.recs
    ensures mac in StepReader(s, j).recs && LockOk(StepReader(s, j), mac)
  {
    hide InFlight, StepReader, Word, CpuOk, ReaderOk, RecOk, PairOk, CountsOk;
    ReaderShape(s, j);
    assert LockOk(s, mac);
  }

  lemma ReaderKeepsPairs(s0: State, s: State, j: nat, ethDAddr: Mac, mac: Mac)
    requires Inv(s0, s, ethDAddr) && Enabled(s, Read(j)) && mac in s.recs && mac in s.updates && mac in s0.recs
    ensures var t := StepReader(s, j);
      mac in t.recs && mac in t.updates && PairOk(t, mac) && RecOk(s0, t, ethDAddr, mac)
  {
    hide InFlight, StepReader, Word, CpuOk, ReaderOk, CountsOk;
    ReaderShape(s, j);
    assert RecOk(s0, s, ethDAddr, mac) && PairOk(s, mac) && LockOk(s, mac);
  }

  lemma ReaderKeepsCpus(s0: State, s: State, j: nat, ethDAddr: Mac)
    requires Inv(s0, s, ethDAddr) && Enabled(s, Read(j))
    ensures var t := StepReader(s, j); forall i :: 0 <= i < |t.cpus| ==> CpuOk(t, t.cpus[i], ethDAddr)
  {
    hide InFlight, StepReader, Word, RecOk, LockOk, PairOk, ReaderOk, CountsOk;
    ReaderShape(s, j);
    var t := StepReader(s, j);
    forall i | 0 <= i < |t.cpus|
      ensures CpuOk(t, t.cpus[i], ethDAddr)
    {
      assert CpuOk(s, s.cpus[i], ethDAddr);
    }
  }

  lemma ReaderKeepsReaders(s0: State, s: State, j: nat, ethDAddr: Mac)
    requires Inv(s0, s, ethDAddr) && Enabled(s, Read(j))
    ensures var t := StepReader(s, j); forall k :: 0 <= k < |t.readers| ==> ReaderOk(t, t.readers[k])
  {
    hide InFlight, StepReader, Word, RecOk, CpuOk, CountsOk;
    ReaderShape(s, j);
    var t, mac := StepReader(s, j), s.readers[j].mac;
    assert ReaderOk(s, s.readers[j]) && LockOk(s, mac) && PairOk(s, mac);
    forall k | 0 <= k < |t.readers|
      ensures ReaderOk(t, t.readers[k])
    {
      assert ReaderOk(s, s.readers[k]);
    }
  }

  lemma ReaderKeepsInv(s0: State, s: State, j: nat, ethDAddr: Mac)
    requires Inv(s0, s, ethDAddr) && Enabled(s, Read(j))
    ensures Inv(s0, StepReader(s, j), ethDAddr)
  {
    hide InFlight, LockOk, PairOk, CpuOk, ReaderOk, RecOk, StepReader, Copies, Enabled, Word;
    ReaderShape(s, j);
    ReaderKeepsCpus(s0, s, j, ethDAddr);
    ReaderKeepsReaders(s0, s, j, ethDAddr);
    forall mac | mac in s.recs
      ensures var t := StepReader(s, j);
        mac in t.recs && mac in t.updates && RecOk(s0, t, ethDAddr, mac) && LockOk(t, mac) && PairOk(t, mac)
    {
      CountsKeys(s0, s, ethDAddr);
      ReaderKeepsLocks(s0, s, j, ethDAddr, mac);
      ReaderKeepsPairs(s0, s, j, ethDAddr, mac);
    }
  }

  /** Steps outside every critical section: arrivals, readers asking, the clock. */
  ghost predicate Outside(s: State, t: State, ethDAddr: Mac) {
    && t.recs == s.recs && t.updates == s.updates && s.clock <= t.clock
    && t.total == s.total && t.counted == s.counted && t.added == s.added
    && |t.cpus| == |s.cpus| && |t.readers| == |s.readers|
    && InFlight(t.cpus) == InFlight(s.cpus)
    && (forall i :: 0 <= i < |s.cpus| && t.cpus[i] != s.cpus[i] ==>
      && s.cpus[i].Idle? && t.cpus[i].WantLock? && t.cpus[i].mac in s.recs
      && (t.cpus[i].drop ==> t.cpus[i].mac == ethDAddr))
    && (forall j :: 0 <= j < |s.readers| && t.readers[j] != s.readers[j] ==>
      s.readers[j].Resting? && t.readers[j].Waiting? && t.readers[j].mac in s.recs)
  }

  lemma OutsideKeepsRec(s0: State, s: State, t: State, ethDAddr: Mac, mac: Mac)
    requires Inv(s0, s, ethDAddr) && Outside(s, t, ethDAddr) && mac in s.recs && mac in s.updates && mac in s0.recs
    ensures RecOk(s0, t, ethDAddr, mac) && LockOk(t, mac) && PairOk(t, mac)
  {
    hide InFlight, Word, CpuOk, ReaderOk, CountsOk;
    assert RecOk(s0, s, ethDAddr, mac) && LockOk(s, mac) && PairOk(s, mac);
    assert forall i :: 0 <= i < |s.cpus| ==> (t.cpus[i].Holds(mac) <==> s.cpus[i].Holds(mac));
    assert forall j :: 0 <= j < |s.readers| ==> (t.readers[j].Holds(mac) <==> s.readers[j].Holds(mac));
  }

  lemma OutsideKeepsInv(s0: State, s: State, t: State, ethDAddr: Mac)
    requires Inv(s0, s, ethDAddr) && Outside(s, t, ethDAddr)
    ensures Inv(s0, t, ethDAddr)
  {
    hide InFlight, Word, RecOk, LockOk, PairOk;
    forall mac | mac in t.recs
      ensures RecOk(s0, t, ethDAddr, mac) && LockOk(t, mac) && PairOk(t, mac)
    {
      OutsideKeepsRec(s0, s, t, ethDAddr, mac);
    }
    forall i | 0 <= i < |t.cpus|
      ensures CpuOk(t, t.cpus[i], ethDAddr)
    {
      assert CpuOk(s, s.cpus[i], ethDAddr);
    }
    forall j | 0 <= j < |t.readers|
      ensures ReaderOk(t, t.readers[j])
    {
      assert ReaderOk(s, s.readers[j]);
    }
  }

  lemma OutsideSteps(s: State, a: Action, ethDAddr: Mac)
    requires Enabled(s, a) && (a.Arrive? || a.Tick? || a.Ask?)
    ensures Outside(s, Step(s, a, ethDAddr), ethDAddr)
  {
    hide InFlight, Dropped, Dest;
    if a.Arrive? && |a.pkt| >= ETH_HLEN {
      InFlightUpdate(s.cpus, a.i, Step(s, a, ethDAddr).cpus[a.i]);
      DroppedIsConfigured(a.pkt, ethDAddr);
    }
  }

  lemma DroppedIsConfigured(pkt: Packet, ethDAddr: Mac)
    requires |pkt| >= ETH_HLEN
    ensures Dropped(pkt, ethDAddr) ==> Dest(pkt) == ethDAddr
  {
  }

  lemma StepKeepsInv(s0: State, s: State, a: Action, ethDAddr: Mac)
    requires Inv(s0, s, ethDAddr) && Enabled(s, a)
    ensures Inv(s0, Step(s, a, ethDAddr), ethDAddr)
  {
    hide InFlight, LockOk, PairOk, CpuOk, ReaderOk, CountsOk, RecOk, Dropped, StepCpu, StepReader;
    match a
    case Advance(i) => CpuKeepsInv(s0, s, i, ethDAddr);
    case Read(j) => ReaderKeepsInv(s0, s, j, ethDAddr);
    case _ =>
      OutsideSteps(s, a, ethDAddr);
      OutsideKeepsInv(s0, s, Step(s, a, ethDAddr), ethDAddr);
  }

  lemma {:induction false} RunFromKeepsInv(s0: State, s: State, trace: seq<Action>, t: State, ethDAddr: Mac)
    requires Inv(s0, s, ethDAddr) && Run(s, trace, t, ethDAddr)
    ensures Inv(s0, t, ethDAddr)
    decreases |trace|
  {
    hide Inv, Enabled, Step;
    if trace != [] {
      var last := |trace| - 1;
      var m: State :|
        Run(s, trace[..last], m, ethDAddr) && Enabled(m, trace[last]) && t == Step(m, trace[last], ethDAddr);
      RunFromKeepsInv(s0, s, trace[..last], m, ethDAddr);
      StepKeepsInv(s0, m, trace[last], ethDAddr);
    }
  }

  lemma RunKeepsInv(s0: State, trace: seq<Action>, s: State, ethDAddr: Mac)
    requires Initial(s0) && Run(s0, trace, s, ethDAddr)
    ensures Inv(s0, s, ethDAddr)
  {
    hide Inv, Run;
    InitialInv(s0, ethDAddr);
    RunFromKeepsInv(s0, s0, trace, s, ethDAddr);
  }

  // ---- what follows for every run

  /** The spin lock works: no record is ever inside two critical sections. */
  lemma MutualExclusion(s0: State, trace: seq<Action>, s: State, ethDAddr: Mac, mac: Mac)
    requires Initial(s0) && Run(s0, trace, s, ethDAddr) && mac in s.recs
    ensures forall i, k :: 0 <= i < k < |s.cpus| ==> !(s.cpus[i].Holds(mac) && s.cpus[k].Holds(mac))
    ensures forall i, j :: 0 <= i < |s.cpus| && 0 <= j < |s.readers| ==>
      !(s.cpus[i].Holds(mac) && s.readers[j].Holds(mac))
    ensures forall j, l :: 0 <= j < l < |s.readers| ==> !(s.readers[j].Holds(mac) && s.readers[l].Holds(mac))
  {
    hide InFlight, PairOk, CpuOk, ReaderOk, CountsOk, RecOk, Run, Initial;
    RunKeepsInv(s0, trace, s, ethDAddr);
    assert LockOk(s, mac);
  }

  /** Only the record of the configured address ever changes. */
  lemma OnlyConfigured(s0: State, trace: seq<Action>, s: State, ethDAddr: Mac, mac: Mac)
    requires Initial(s0) && Run(s0, trace, s, ethDAddr) && mac in s.recs && mac != ethDAddr
    ensures mac in s0.recs
    ensures s.recs[mac].dropped == s0.recs[mac].dropped && s.recs[mac].t_lastdrop == s0.recs[mac].t_lastdrop
  {
    hide InFlight, PairOk, LockOk, CpuOk, ReaderOk, Word, Run, Initial;
    RunKeepsInv(s0, trace, s, ethDAddr);
    assert RecOk(s0, s, ethDAddr, mac);
  }

  /** The sum of the per-address counters, over a list of addresses. */
  function Sum(recs: map<Mac, Rec>, macs: seq<Mac>): nat
    requires forall i :: 0 <= i < |macs| ==> macs[i] in recs
  {
    if macs == [] then 0
    else Sum(recs, macs[..|macs| - 1]) + recs[macs[|macs| - 1]].dropped
  }

  lemma {:induction false} SumSame(a: map<Mac, Rec>, b: map<Mac, Rec>, macs: seq<Mac>)
    requires forall i :: 0 <= i < |macs| ==> macs[i] in a && macs[i] in b && a[macs[i]].dropped == b[macs[i]].dropped
    ensures Sum(a, macs) == Sum(b, macs)
  {
    if macs != [] {
      SumSame(a, b, macs[..|macs| - 1]);
    }
  }

  /** The sum changes by what the one record that differs changes by. */
  lemma {:induction false} SumDiffers(a: map<Mac, Rec>, b: map<Mac, Rec>, macs: seq<Mac>, k: nat)
    requires k < |macs|
    requires forall i :: 0 <= i < |macs| ==> macs[i] in a && macs[i] in b
    requires forall i :: 0 <= i < |macs| && i != k ==> a[macs[i]].dropped == b[macs[i]].dropped
    ensures Sum(b, macs) - Sum(a, macs) == b[macs[k]].dropped - a[macs[k]].dropped
  {
    var last := |macs| - 1;
    if k == last {
      SumSame(a, b, macs[..last]);
    } else {
      SumDiffers(a, b, macs[..last], k);
    }
  }

  /**
   Conservation, at every moment of every run and up to the wrap of 64-bit counters: what the records have
   gained is what the global counter has gained plus the packets counted in a record but not yet globally.
   */
  lemma CountsAgree(s0: State, trace: seq<Action>, s: State, ethDAddr: Mac, macs: seq<Mac>)
    requires Initial(s0) && Run(s0, trace, s, ethDAddr) && Lists(macs, s0.recs)
    ensures s.recs.Keys == s0.recs.Keys
    ensures Word(Sum(s.recs, macs) + s0.total) == Word(Sum(s0.recs, macs) + s.total + InFlight(s.cpus))
    ensures Coming(s.cpus) + InFlight(s.cpus) <= MatchesIn(trace, ethDAddr)
    ensures s.total == Word(s0.total + (MatchesIn(trace, ethDAddr) - Coming(s.cpus) - InFlight(s.cpus)))
  {
    hide Inv, CountsOk, InFlight, Word, Run, Initial, Sum, Coming, MatchesIn;
    RunKeepsInv(s0, trace, s, ethDAddr);
    Gained(s0, s, ethDAddr);
    MatchesCounted(s0, trace, s, ethDAddr);
    Conserved(s0, s, ethDAddr, macs, s.counted, s.added);
  }

  lemma Conserved(s0: State, s: State, ethDAddr: Mac, macs: seq<Mac>, counted: nat, added: nat)
    requires s.recs.Keys == s0.recs.Keys && Lists(macs, s0.recs)
    requires s.total == Word(s0.total + added) && added <= counted && (ethDAddr !in s.recs ==> counted == 0)
    requires ethDAddr in s.recs ==> s.recs[ethDAddr].dropped == Word(s0.recs[ethDAddr].dropped + counted)
    requires forall mac :: mac in s.recs && mac != ethDAddr ==> s.recs[mac].dropped == s0.recs[mac].dropped
    ensures forall i :: 0 <= i < |macs| ==> macs[i] in s0.recs && macs[i] in s.recs
    ensures Word(Sum(s.recs, macs) + s0.total) == Word(Sum(s0.recs, macs) + s.total + (counted - added))
  {
    hide Word, Sum, Lists;
    SumGained(s0, s, ethDAddr, macs);
    assert ethDAddr in s.recs <==> ethDAddr in s0.recs;
    var d := if ethDAddr in s0.recs then s0.recs[ethDAddr].dropped else 0;
    Balance(d, Sum(s0.recs, macs), Sum(s.recs, macs), counted, s0.total, added);
  }

  /** The addresses that have a record, each once. */
  ghost predicate Lists(macs: seq<Mac>, recs: map<Mac, Rec>) {
    && (forall mac :: mac in macs <==> mac in recs)
    && (forall i, j :: 0 <= i < j < |macs| ==> macs[i] != macs[j])
    && (forall i :: 0 <= i < |macs| ==> macs[i] in recs)
  }

  lemma Gained(s0: State, s: State, ethDAddr: Mac)
    requires Inv(s0, s, ethDAddr)
    ensures s.recs.Keys == s0.recs.Keys
    ensures s.total == Word(s0.total + s.added) && s.counted == s.added + InFlight(s.cpus)
    ensures ethDAddr !in s.recs ==> s.counted == 0
    ensures ethDAddr in s.recs ==> s.recs[ethDAddr].dropped == Word(s0.recs[ethDAddr].dropped + s.counted)
    ensures forall mac :: mac in s.recs && mac != ethDAddr ==> s.recs[mac].dropped == s0.recs[mac].dropped
  {
    hide InFlight, PairOk, LockOk, CpuOk, ReaderOk, Word;
    assert forall mac :: mac in s.recs ==> RecOk(s0, s, ethDAddr, mac);
  }

  lemma SumGained(s0: State, s: State, ethDAddr: Mac, macs: seq<Mac>)
    requires s.recs.Keys == s0.recs.Keys && Lists(macs, s0.recs)
    requires forall mac :: mac in s.recs && mac != ethDAddr ==> s.recs[mac].dropped == s0.recs[mac].dropped
    ensures forall i :: 0 <= i < |macs| ==> macs[i] in s0.recs && macs[i] in s.recs
    ensures Sum(s.recs, macs) - Sum(s0.recs, macs) ==
      if ethDAddr in s.recs then s.recs[ethDAddr].dropped - s0.recs[ethDAddr].dropped else 0
  {
    hide Sum;
    if ethDAddr in s.recs {
      assert ethDAddr in macs;
      var k :| 0 <= k < |macs| && macs[k] == ethDAddr;
      SumDiffers(s0.recs, s.recs, macs, k);
    } else {
      SumSame(s0.recs, s.recs, macs);
    }
  }

  lemma Balance(d: nat, before: nat, after: nat, counted: nat, total: nat, added: nat)
    requires after - before == Word(d + counted) - d || (counted == 0 && after == before)
    requires added <= counted
    ensures Word(after + total) == Word(before + Word(total + added) + (counted - added))
  {
  }

  /** The time of the last drop never goes back, in any run from any reachable state. */
  lemma {:induction false} StampsGrow(s0: State, trace: seq<Action>, s: State, more: seq<Action>, t: State,
                                      ethDAddr: Mac, mac: Mac)
    requires Initial(s0) && Run(s0, trace, s, ethDAddr) && Run(s, more, t, ethDAddr) && mac in s.recs
    ensures mac in t.recs && s.recs[mac].t_lastdrop <= t.recs[mac].t_lastdrop
    decreases |more|
  {
    hide Inv, Enabled, Step, Initial;
    RunKeepsInv(s0, trace, s, ethDAddr);
    if more != [] {
      var last := |more| - 1;
      var m: State :| Run(s, more[..last], m, ethDAddr) && Enabled(m, more[last]) && t == Step(m, more[last], ethDAddr);
      StampsGrow(s0, trace, s, more[..last], m, ethDAddr, mac);
      RunFromKeepsInv(s0, s, more[..last], m, ethDAddr);
      StampStep(s0, m, more[last], ethDAddr, mac);
    }
  }

  lemma StampStep(s0: State, s: State, a: Action, ethDAddr: Mac, mac: Mac)
    requires Inv(s0, s, ethDAddr) && Enabled(s, a) && mac in s.recs
    ensures mac in Step(s, a, ethDAddr).recs && s.recs[mac].t_lastdrop <= Step(s, a, ethDAddr).recs[mac].t_lastdrop
  {
    hide InFlight, PairOk, LockOk, ReaderOk, CountsOk, RecOk, Word, Dropped, StepReader, StepCpu;
    if a.Advance? {
      CpuShape(s, a.i);
      assert CpuOk(s, s.cpus[a.i], ethDAddr);
    } else if a.Read? {
      ReaderShape(s, a.j);
    }
  }

  /** A locked reader has copied the pair of the last completed update, or the initial one if there was none. */
  lemma ReaderSeesAnUpdate(s0: State, trace: seq<Action>, s: State, ethDAddr: Mac, j: nat)
    requires Initial(s0) && Run(s0, trace, s, ethDAddr) && j < |s.readers| && s.readers[j].Copied?
    ensures s.readers[j].mac in s.updates
    ensures var updates := s.updates[s.readers[j].mac];
      updates != [] && updates[|updates| - 1] == (s.readers[j].d, s.readers[j].t)
  {
    hide InFlight, PairOk, LockOk, CpuOk, CountsOk, RecOk, Run, Initial;
    RunKeepsInv(s0, trace, s, ethDAddr);
    assert ReaderOk(s, s.readers[j]);
  }

  // ---- the packets that came in, counted in the trace alone

  /** A frame with a whole header, to the configured address, that has no byte above 127. */
  predicate Matches(pkt: Packet, ethDAddr: Mac) {
    |pkt| >= 14 && pkt[..6] == ethDAddr.bytes && forall k :: 0 <= k < 6 ==> pkt[k] < 128
  }

  function MatchesIn(trace: seq<Action>, ethDAddr: Mac): nat {
    if trace == [] then 0
    else
      var last := trace[|trace| - 1];
      MatchesIn(trace[..|trace| - 1], ethDAddr) + if last.Arrive? && Matches(last.pkt, ethDAddr) then 1 else 0
  }

  lemma MatchIsDrop(pkt: Packet, ethDAddr: Mac)
    ensures Matches(pkt, ethDAddr) <==> |pkt| >= ETH_HLEN && Dropped(pkt, ethDAddr)
  {
    if |pkt| >= 14 {
      assert forall k :: 0 <= k < 6 ==> pkt[..6][k] == pkt[k];
    }
  }

  /** CPUs that have such a packet in hand and have not counted it in its record. */
  function Coming(cpus: seq<Pc>): nat {
    if cpus == [] then 0
    else Coming(cpus[..|cpus| - 1]) + if IsComing(cpus[|cpus| - 1]) then 1 else 0
  }

  predicate IsComing(pc: Pc) {
    ((pc.WantLock? || pc.Locked?) && pc.drop) || pc.Loaded?
  }

  lemma {:induction false} ComingUpdate(cpus: seq<Pc>, i: nat, pc: Pc)
    requires i < |cpus|
    ensures Coming(cpus[i := pc]) ==
      Coming(cpus) - (if IsComing(cpus[i]) then 1 else 0) + if IsComing(pc) then 1 else 0
  {
    hide IsComing;
    var last := |cpus| - 1;
    if i == last {
      assert cpus[i := pc][..last] == cpus[..last];
    } else {
      ComingUpdate(cpus[..last], i, pc);
      assert cpus[i := pc][..last] == cpus[..last][i := pc];
    }
  }

  lemma {:induction false} NoneComing(cpus: seq<Pc>)
    requires forall i :: 0 <= i < |cpus| ==> cpus[i].Idle?
    ensures Coming(cpus) == 0
  {
    if cpus != [] {
      NoneComing(cpus[..|cpus| - 1]);
    }
  }

  /** One step: a matching arrival adds one to what is counted or coming, and nothing else does. */
  lemma StepComing(s: State, a: Action, ethDAddr: Mac)
    requires Enabled(s, a)
    ensures var t := Step(s, a, ethDAddr);
      t.counted + Coming(t.cpus) ==
      s.counted + Coming(s.cpus) + if a.Arrive? && Matches(a.pkt, ethDAddr) then 1 else 0
  {
    hide Coming, Word, Matches, Dropped, StepReader, StepCpu;
    match a
    case Arrive(i, pkt) =>
      MatchIsDrop(pkt, ethDAddr);
      if |pkt| >= ETH_HLEN {
        ComingUpdate(s.cpus, i, WantLock(Dest(pkt), Dropped(pkt, ethDAddr)));
      }
    case Advance(i) =>
      CpuShape(s, i);
      CpuCounters(s, i);
      ComingUpdate(s.cpus, i, StepCpu(s, i).cpus[i]);
    case Tick(_) =>
    case Ask(_, _) =>
    case Read(j) =>
      ReaderShape(s, j);
      ReaderCounts(s, j);
  }

  lemma ReaderCounts(s: State, j: nat)
    requires Enabled(s, Read(j))
    ensures StepReader(s, j).counted == s.counted
  {
  }

  /** Every matching packet is either counted in a record or in the hands of a CPU that will count it. */
  lemma {:induction false} MatchesCounted(s0: State, trace: seq<Action>, s: State, ethDAddr: Mac)
    requires Initial(s0) && Run(s0, trace, s, ethDAddr)
    ensures MatchesIn(trace, ethDAddr) == s.counted + Coming(s.cpus)
    decreases |trace|
  {
    hide Coming, Step, Enabled, Matches;
    if trace == [] {
      NoneComing(s.cpus);
    } else {
      var last := |trace| - 1;
      var m: State :|
        Run(s0, trace[..last], m, ethDAddr) && Enabled(m, trace[last]) && s == Step(m, trace[last], ethDAddr);
      MatchesCounted(s0, trace[..last], m, ethDAddr);
      StepComing(m, trace[last], ethDAddr);
    }
  }

  /**
   What the counters show at every moment: the packets that matched, less those still in hand.  Once all
   CPUs are idle, the record of the address, the sum of the records and the global counter have
   each grown by exactly the number of packets that matched.
   */
  lemma EveryMatchCounted(s0: State, trace: seq<Action>, s: State, ethDAddr: Mac, macs: seq<Mac>)
    requires Initial(s0) && Run(s0, trace, s, ethDAddr) && Lists(macs, s0.recs)
    ensures s.recs.Keys == s0.recs.Keys
    ensures var seen := MatchesIn(trace, ethDAddr);
      && Coming(s.cpus) + InFlight(s.cpus) <= seen
      && s.total == Word(s0.total + (seen - Coming(s.cpus) - InFlight(s.cpus)))
      && (ethDAddr in s.recs ==>
        s.recs[ethDAddr].dropped == Word(s0.recs[ethDAddr].dropped + (seen - Coming(s.cpus))))
      && ((forall i :: 0 <= i < |s.cpus| ==> s.cpus[i].Idle?) ==>
        && s.total == Word(s0.total + seen)
        && (ethDAddr in s.recs ==> s.recs[ethDAddr].dropped == Word(s0.recs[ethDAddr].dropped + seen))
        && Word(Sum(s.recs, macs)) == Word(Sum(s0.recs, macs) + seen))
  {
    hide Inv, CountsOk, InFlight, Coming, Word, Run, Initial, Sum, MatchesIn, Lists;
    RunKeepsInv(s0, trace, s, ethDAddr);
    Gained(s0, s, ethDAddr);
    MatchesCounted(s0, trace, s, ethDAddr);
    SumGained(s0, s, ethDAddr, macs);
    if forall i :: 0 <= i < |s.cpus| ==> s.cpus[i].Idle? {
      NoneComing(s.cpus);
      NoneInFlight(s.cpus);
      if ethDAddr in s.recs {
        Grown(s0.recs[ethDAddr].dropped, Sum(s0.recs, macs), Sum(s.recs, macs), s.counted);
      }
      assert ethDAddr !in s.recs ==> s.counted == 0 && Sum(s.recs, macs) == Sum(s0.recs, macs);
    }
  }

  /** Counters are 64 bits wide. */
  lemma WordIs(x: nat)
    ensures Word(x) == x % 0x1_0000_0000_0000_0000
  {
  }

  lemma Grown(d: nat, before: nat, after: nat, counted: nat)
    requires after - before == Word(d + counted) - d
    ensures Word(after) == Word(before + counted)
  {
    var q := (d + counted) / WORD;
    assert Word(d + counted) == d + counted - WORD * q;
    assert after == before + counted - WORD * q;
    ModShift(before + counted, q, after);
  }

  lemma {:induction false} ModShift(x: nat, q: nat, y: nat)
    requires y == x - WORD * q
    ensures Word(y) == Word(x)
  {
    if q > 0 {
      ModShift(x - WORD, q - 1, y);
    }
  }

  // ---- the time stamps

  /** At moment k of the run, CPU i reads the clock inside the critical section of the record. */
  ghost predicate UnderLockAt(s0: State, trace: seq<Action>, ethDAddr: Mac, mac: Mac, t: nat,
                              k: nat, i: nat, m: State) {
    && k < |trace| && trace[k] == Advance(i) && Run(s0, trace[..k], m, ethDAddr)
    && i < |m.cpus| && m.cpus[i].Holds(mac) && mac in m.recs && m.recs[mac].lock == Cpu(i)
    && t == m.clock
  }

  ghost predicate ReadUnderLock(s0: State, trace: seq<Action>, ethDAddr: Mac, mac: Mac, t: nat) {
    exists k: nat, i: nat, m: State :: UnderLockAt(s0, trace, ethDAddr, mac, t, k, i, m)
  }

  lemma StaysRead(s0: State, trace: seq<Action>, a: Action, ethDAddr: Mac, mac: Mac, t: nat)
    requires ReadUnderLock(s0, trace, ethDAddr, mac, t)
    ensures ReadUnderLock(s0, trace + [a], ethDAddr, mac, t)
  {
    hide Run;
    var k: nat, i: nat, m: State :| UnderLockAt(s0, trace, ethDAddr, mac, t, k, i, m);
    assert (trace + [a])[..k] == trace[..k];
    assert UnderLockAt(s0, trace + [a], ethDAddr, mac, t, k, i, m);
  }

  /** A stamp in the hands of a CPU or in a completed update was read under the lock. */
  ghost predicate StampsOk(s0: State, trace: seq<Action>, s: State, ethDAddr: Mac) {
    && (forall i :: 0 <= i < |s.cpus| && s.cpus[i].Clocked? ==>
      ReadUnderLock(s0, trace, ethDAddr, s.cpus[i].mac, s.cpus[i].t))
    && (forall mac, u :: mac in s.updates && 1 <= u < |s.updates[mac]| ==>
      ReadUnderLock(s0, trace, ethDAddr, mac, s.updates[mac][u].1))
  }

  lemma StampsStay(s0: State, trace: seq<Action>, s: State, a: Action, ethDAddr: Mac)
    requires StampsOk(s0, trace, s, ethDAddr)
    ensures StampsOk(s0, trace + [a], s, ethDAddr)
  {
    hide ReadUnderLock;
    forall i | 0 <= i < |s.cpus| && s.cpus[i].Clocked?
      ensures ReadUnderLock(s0, trace + [a], ethDAddr, s.cpus[i].mac, s.cpus[i].t)
    {
      StaysRead(s0, trace, a, ethDAddr, s.cpus[i].mac, s.cpus[i].t);
    }
    forall mac, u | mac in s.updates && 1 <= u < |s.updates[mac]|
      ensures ReadUnderLock(s0, trace + [a], ethDAddr, mac, s.updates[mac][u].1)
    {
      StaysRead(s0, trace, a, ethDAddr, mac, s.updates[mac][u].1);
    }
  }

  /** The one step that reads the clock. */
  lemma ClockRead(s0: State, trace: seq<Action>, s: State, i: nat, ethDAddr: Mac)
    requires Initial(s0) && Run(s0, trace, s, ethDAddr) && Enabled(s, Advance(i)) && s.cpus[i].Stored?
    ensures ReadUnderLock(s0, trace + [Advance(i)], ethDAddr, s.cpus[i].mac, s.clock)
  {
    hide Run, Initial, InFlight, PairOk, CpuOk, ReaderOk, CountsOk, RecOk;
    RunKeepsInv(s0, trace, s, ethDAddr);
    var mac, longer := s.cpus[i].mac, trace + [Advance(i)];
    assert LockOk(s, mac);
    assert longer[..|trace|] == trace;
    assert UnderLockAt(s0, longer, ethDAddr, mac, s.clock, |trace|, i, s);
  }

  lemma CpuKeepsStamps(s0: State, trace: seq<Action>, s: State, i: nat, ethDAddr: Mac)
    requires Initial(s0) && Run(s0, trace, s, ethDAddr) && Enabled(s, Advance(i))
    requires StampsOk(s0, trace + [Advance(i)], s, ethDAddr)
    ensures StampsOk(s0, trace + [Advance(i)], StepCpu(s, i), ethDAddr)
  {
    hide Run, Initial, ReadUnderLock, StepCpu, Word;
    CpuShape(s, i);
    if s.cpus[i].Stored? {
      ClockRead(s0, trace, s, i, ethDAddr);
    }
  }

  lemma OthersKeepStamps(s: State, a: Action, ethDAddr: Mac)
    requires Enabled(s, a) && !a.Advance?
    ensures var t := Step(s, a, ethDAddr);
      && t.updates == s.updates && |t.cpus| == |s.cpus|
      && forall i :: 0 <= i < |s.cpus| && t.cpus[i].Clocked? ==> t.cpus[i] == s.cpus[i]
  {
    hide Dropped;
  }

  lemma {:induction false} RunKeepsStamps(s0: State, trace: seq<Action>, s: State, ethDAddr: Mac)
    requires Initial(s0) && Run(s0, trace, s, ethDAddr)
    ensures StampsOk(s0, trace, s, ethDAddr)
    decreases |trace|
  {
    hide ReadUnderLock, Step, StepCpu;
    if trace != [] {
      var last := |trace| - 1;
      var m: State :|
        Run(s0, trace[..last], m, ethDAddr) && Enabled(m, trace[last]) && s == Step(m, trace[last], ethDAddr);
      RunKeepsStamps(s0, trace[..last], m, ethDAddr);
      StampsStay(s0, trace[..last], m, trace[last], ethDAddr);
      assert trace == trace[..last] + [trace[last]];
      if trace[last].Advance? {
        CpuKeepsStamps(s0, trace[..last], m, trace[last].i, ethDAddr);
        AdvanceIsCpu(m, trace[last].i, ethDAddr);
      } else {
        OthersKeepStamps(m, trace[last], ethDAddr);
      }
    }
  }

  lemma AdvanceIsCpu(s: State, i: nat, ethDAddr: Mac)
    requires Enabled(s, Advance(i))
    ensures Step(s, Advance(i), ethDAddr) == StepCpu(s, i)
  {
  }

  /** Time passes by the ticks of the run and by nothing else. */
  function Ticks(trace: seq<Action>): nat {
    if trace == [] then 0
    else Ticks(trace[..|trace| - 1]) + if trace[|trace| - 1].Tick? then trace[|trace| - 1].d else 0
  }

  lemma {:induction false} ClockIsTicks(s0: State, trace: seq<Action>, s: State, ethDAddr: Mac)
    requires Run(s0, trace, s, ethDAddr)
    ensures s.clock == s0.clock + Ticks(trace)
    decreases |trace|
  {
    hide Step, Enabled;
    if trace != [] {
      var last := |trace| - 1;
      var m: State :|
        Run(s0, trace[..last], m, ethDAddr) && Enabled(m, trace[last]) && s == Step(m, trace[last], ethDAddr);
      ClockIsTicks(s0, trace[..last], m, ethDAddr);
      StepClock(m, trace[last], ethDAddr);
    }
  }

  lemma StepClock(s: State, a: Action, ethDAddr: Mac)
    requires Enabled(s, a)
    ensures Step(s, a, ethDAddr).clock == s.clock + if a.Tick? then a.d else 0
  {
  }

  /**
   Every time stamp after the initial one is what the clock showed at a moment when a CPU was inside the
   critical section of that record; a free record shows such a stamp or its initial one.
   */
  lemma StampsReadUnderLock(s0: State, trace: seq<Action>, s: State, ethDAddr: Mac, mac: Mac)
    requires Initial(s0) && Run(s0, trace, s, ethDAddr) && mac in s.recs
    ensures mac in s0.recs && mac in s.updates
    ensures forall u :: 1 <= u < |s.updates[mac]| ==> ReadUnderLock(s0, trace, ethDAddr, mac, s.updates[mac][u].1)
    ensures s.recs[mac].lock.Free? ==>
      && s.updates[mac] != []
      && s.recs[mac].t_lastdrop == s.updates[mac][|s.updates[mac]| - 1].1
  {
    hide Run, Initial, InFlight, CpuOk, ReaderOk, RecOk, ReadUnderLock, Word;
    RunKeepsInv(s0, trace, s, ethDAddr);
    RunKeepsStamps(s0, trace, s, ethDAddr);
    assert PairOk(s, mac);
  }
}
