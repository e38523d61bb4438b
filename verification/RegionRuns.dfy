/**
 The region manager under any interleaving of cores and the collector: one attempt in a core-local
 region (preemption disabled), one critical section of region_spin_ or one atomic ref-count update
 per step.  Class RegionManager runs these steps one after the other; here they come in any order.
 */
module RegionRuns {
  import opened Regions
  import opened RegionManagers
  import opened RegionManagement

  // `full`: the core-local slots whose owner has just failed to allocate and will refill.
  datatype State = State(m: Mgr, full: set<int>)

  datatype Op =
    | Try(k: nat, size: nat)  // allocate_object in a core-local region
    | Renew(k: nat)           // try_refill_core_local_free_region
    | Finish(a: nat)          // the ref count of an initialised object is paid back
    | RotateNt                // pop_used_region meets a busy nt region
    | TakeNt                  // pop_used_region and from_regions_.push_back
    | TakeUsed
    | GiveBack                // push_free_region

  ghost predicate Enabled(s: State, op: Op) {
    match op
    case Try(k, size) => k < |s.m.slots| && k !in s.full && 0 < size
    case Renew(k) => k < |s.m.slots| && k in s.full
    case Finish(a) => Pending(s.m, a) && 0 < s.m.regs[a / SIZE].refCnt
    case RotateNt => s.m.ntUsed != [] && s.m.ntUsed[0] < |s.m.regs| && !Gcable(s.m.regs[s.m.ntUsed[0]])
    case TakeNt => s.m.ntUsed != [] && s.m.ntUsed[0] < |s.m.regs| && Gcable(s.m.regs[s.m.ntUsed[0]])
    case TakeUsed => s.m.used != [] && s.m.used[0] < |s.m.regs| && Gcable(s.m.regs[s.m.used[0]])
    case GiveBack => s.m.from != [] && s.m.from[0] < |s.m.regs|
  }

  ghost function Do(s: State, op: Op): State
    requires Enabled(s, op)
  {
    match op
    case Try(k, size) => State(Attempt(s.m, k, size), FullAfter(s.m, k, size, s.full))
    case Renew(k) => State(Refill(s.m, k), s.full - {k})
    case Finish(a) => s.(m := FinishedAt(s.m, a))
    case RotateNt => s.(m := s.m.(ntUsed := s.m.ntUsed[1..] + [s.m.ntUsed[0]]))
    case TakeNt => s.(m := PickNt(s.m))
    case TakeUsed => s.(m := PickUsed(s.m))
    case GiveBack => s.(m := Recycle(s.m))
  }

  ghost predicate Inv(s: State) {
    ValidBut(s.m, s.full)
  }

  lemma FinishKeeps(m: Mgr, a: nat, full: set<int>)
    requires ValidBut(m, full) && Pending(m, a) && 0 < m.regs[a / SIZE].refCnt
    ensures ValidBut(FinishedAt(m, a), full) && Quieter(m, FinishedAt(m, a))
  {
    FinishedKeepsOk(m.regs[a / SIZE], a % SIZE);
    QuieterKeepsValid(m, FinishedAt(m, a), full);
  }

  lemma StepKeepsInv(s: State, op: Op)
    requires Inv(s) && Enabled(s, op)
    ensures Inv(Do(s, op)) && |Do(s, op).m.regs| == |s.m.regs|
  {
    hide ValidBut;
    match op
    case Try(k, size) => AttemptKeepsValid(s.m, k, size, s.full);
    case Renew(k) => RefillKeepsValid(s.m, k, s.full);
    case Finish(a) => FinishKeeps(s.m, a, s.full);
    case RotateNt =>
      FrontAndRest(s.m.ntUsed);
      RotationKeepsValid(s.m, s.m.ntUsed[1..] + [s.m.ntUsed[0]], s.full);
    case TakeNt => PickNtKeepsValid(s.m, s.full);
    case TakeUsed => PickUsedKeepsValid(s.m, s.full);
    case GiveBack => RecycleKeepsValid(s.m, s.full);
  }

  ghost predicate Runs(s: State, ops: seq<Op>)
    decreases |ops|
  {
    ops == [] || (Enabled(s, ops[0]) && Runs(Do(s, ops[0]), ops[1..]))
  }

  ghost function After(s: State, ops: seq<Op>): State
    requires Runs(s, ops)
    decreases |ops|
  {
    if ops == [] then s else After(Do(s, ops[0]), ops[1..])
  }

  lemma {:induction false} RunKeepsInv(s: State, ops: seq<Op>)
    requires Inv(s) && Runs(s, ops)
    ensures Inv(After(s, ops)) && |After(s, ops).m.regs| == |s.m.regs|
    decreases |ops|
  {
    hide Inv, Enabled, Do;
    if ops != [] {
      StepKeepsInv(s, ops[0]);
      RunKeepsInv(Do(s, ops[0]), ops[1..]);
    }
  }

  // Conservation over every run: each region has exactly one holder, for any number of cores; with
  // cores <= reserved its buffer lies inside the mapping and the queues stay within their buffers.
  lemma RegionsAreConserved(m: Mgr, cores: nat, reserved: nat, size: nat, ops: seq<Op>, x: nat)
    requires 2 * reserved < RegionCount(size)
    requires Initial(m, cores, RegionCount(size) - 2 * reserved)
    requires Runs(State(m, {}), ops) && x < |m.regs|
    ensures var n := After(State(m, {}), ops).m;
            && Bag(n.free)[x] + Bag(n.used)[x] + Bag(n.ntUsed)[x] + Bag(n.from)[x] + Bag(n.slots)[x] == 1
            && (cores <= reserved ==>
                  && InMapping(x, RegionCount(size))
                  && |n.free| <= RegionCount(size) && |n.used| <= RegionCount(size) && |n.ntUsed| <= RegionCount(size))
  {
    InitialIsValid(m, cores, RegionCount(size) - 2 * reserved);
    RunKeepsInv(State(m, {}), ops);
    var n := After(State(m, {}), ops).m;
    OneHolder(n, x);
    Cardinalities(n);
    SlotsBound(n.slots);
  }

  // The step pushes into a circular buffer of this capacity that is full: a BUG_ON.
  predicate Overflows(m: Mgr, op: Op, capacity: nat) {
    match op
    case Renew(k) =>
      k < |m.slots| && HasSlot(m, k)
      && if m.local && m.regs[m.slots[k]].nt then capacity <= |m.ntUsed| else capacity <= |m.used|
    case RotateNt => capacity <= |m.ntUsed| - 1
    case GiveBack => capacity <= |m.free|
    case _ => false
  }

  lemma NoPushFails(m: Mgr, cores: nat, reserved: nat, size: nat, ops: seq<Op>, op: Op)
    requires 2 * reserved < RegionCount(size) && cores <= reserved
    requires Initial(m, cores, RegionCount(size) - 2 * reserved)
    requires Runs(State(m, {}), ops) && Enabled(After(State(m, {}), ops), op)
    ensures !Overflows(After(State(m, {}), ops).m, op, RegionCount(size))
  {
    InitialIsValid(m, cores, RegionCount(size) - 2 * reserved);
    RunKeepsInv(State(m, {}), ops);
    var s := After(State(m, {}), ops);
    Cardinalities(s.m);
    SlotsBound(s.m.slots);
    if op.GiveBack? {
      RecycleConserves(s.m, s.full);
    } else if op.Renew? {
      PushUsedConserves(s.m, op.k, s.full);
    }
  }

  // ---------- the addresses that allocations obtain ----------

  // The address an attempt obtains, if the object fits.
  function Obtains(s: State, op: Op): Option<nat> {
    match op
    case Try(k, size) =>
      if k < |s.m.slots| && HasSlot(s.m, k) && Fits(s.m.regs[s.m.slots[k]], size)
      then Some(s.m.slots[k] * SIZE + s.m.regs[s.m.slots[k]].firstFree) else None
    case _ => None
  }

  // A successful attempt, whatever other slots await, makes exactly one address live.  It was not
  // live before, and its region is free, queued or collected for nobody.
  lemma TryIsNew(s: State, k: nat, size: nat)
    requires Inv(s) && Enabled(s, Try(k, size))
    ensures var (m', a) := (Do(s, Try(k, size)).m, Obtains(s, Try(k, size)));
            && (forall b: nat :: Live(m', b) <==> Live(s.m, b) || a == Some(b))
            && (a.Some? ==>
                  && !Live(s.m, a.value) && Holds(m', a.value, size) && a.value / SIZE < |s.m.regs|
                  && a.value / SIZE !in m'.free + m'.used + m'.ntUsed + m'.from)
  {
    var m', a := Attempt(s.m, k, size), Obtains(s, Try(k, size));
    AttemptAdds(s.m, k, size, s.full);
    forall b: nat ensures Live(m', b) <==> Live(s.m, b) || a == Some(b) {
      AddsMakeLive(s.m, m', a, size, b);
    }
    if a.Some? {
      AddsMakeLive(s.m, m', a, size, a.value);
      OnlyInSlot(s.m, k);
      EndOf(s, s.m.slots[k]);
      AddressOf(s.m.slots[k], s.m.regs[s.m.slots[k]].firstFree);
    }
  }

  lemma EndOf(s: State, x: nat)
    requires Inv(s) && x < |s.m.regs|
    ensures Ok(s.m.regs[x]) && s.m.regs[x].firstFree < SIZE
  {
    EndPastHeader(s.m.regs[x]);
  }

  // Recycling ends lives; apart from it only an attempt changes what is live.
  lemma OthersKeepLive(s: State, op: Op)
    requires Inv(s) && Enabled(s, op) && !op.Try? && !op.GiveBack?
    ensures forall b: nat :: Live(Do(s, op).m, b) <==> Live(s.m, b)
  {
    if op.Renew? {
      RefillIs(s.m, op.k, s.full);
      assert s.m.free != [] ==> s.m.free[0] in s.m.free;
    }
    hide Inv, ValidBut, Refill;
  }

  lemma StepKeepsLive(s: State, op: Op)
    requires Inv(s) && Enabled(s, op) && !op.GiveBack?
    ensures forall b: nat :: Live(Do(s, op).m, b) <==> Live(s.m, b) || Obtains(s, op) == Some(b)
    ensures Obtains(s, op).Some? ==> !Live(s.m, Obtains(s, op).value) && Obtains(s, op).value / SIZE < |s.m.regs|
  {
    if op.Try? {
      TryIsNew(s, op.k, op.size);
    } else {
      OthersKeepLive(s, op);
    }
  }

  // The addresses a run obtains, in order.
  ghost function Obtained(s: State, ops: seq<Op>): seq<nat>
    requires Runs(s, ops)
    decreases |ops|
  {
    if ops == [] then []
    else
      var a := Obtains(s, ops[0]);
      (if a.Some? then [a.value] else []) + Obtained(Do(s, ops[0]), ops[1..])
  }

  ghost predicate NeverRecycles(ops: seq<Op>) {
    forall op <- ops :: !op.GiveBack?
  }

  ghost predicate Distinct(s: seq<nat>) {
    forall i, j :: 0 <= i < j < |s| ==> s[i] != s[j]
  }

  lemma DistinctNone()
    ensures Distinct([])
  {
  }

  lemma DistinctWith(a: nat, s: seq<nat>)
    requires Distinct(s) && a !in s
    ensures Distinct([a] + s)
  {
    var all := [a] + s;
    forall i, j | 0 <= i < j < |all| ensures all[i] != all[j] {
      assert all[j] == s[j - 1] && all[j] in s;
    }
  }

  // While nothing is recycled no interleaving obtains an address twice, nor one that was live before.
  lemma {:induction false} AddressesAreUnique(s: State, ops: seq<Op>)
    requires Inv(s) && Runs(s, ops) && NeverRecycles(ops)
    ensures var got := Obtained(s, ops);
            && Distinct(got)
            && (forall a <- got :: !Live(s.m, a))
            && (forall a <- got :: a / SIZE < |s.m.regs|)
            && (forall b: nat :: Live(After(s, ops).m, b) <==> Live(s.m, b) || b in got)
    decreases |ops|
  {
    hide Inv, Enabled, Do, Live, Obtains, Distinct;
    if ops == [] {
      DistinctNone();
    } else {
      assert ops[0] in ops && forall op <- ops[1..] :: op in ops;
      StepKeepsInv(s, ops[0]);
      StepKeepsLive(s, ops[0]);
      AddressesAreUnique(Do(s, ops[0]), ops[1..]);
      var rest := Obtained(Do(s, ops[0]), ops[1..]);
      if Obtains(s, ops[0]).Some? {
        assert Obtains(s, ops[0]).value !in rest;
        DistinctWith(Obtains(s, ops[0]).value, rest);
      } else {
        assert [] + rest == rest;
      }
    }
  }

  // What a call that runs alone does, turn by turn.
  lemma AllocTurn(m: Mgr, k: nat, size: nat)
    requires RegionManagers.Valid(m) && k < |m.slots| && 0 < size
    ensures var tried := Attempt(m, k, size);
            var room := HasSlot(m, k) && Fits(m.regs[m.slots[k]], size);
            && Do(State(m, {}), Try(k, size)) == State(tried, if room then {} else {k})
            && (room ==> Alloc(m, k, size) == (tried, Obtains(State(m, {}), Try(k, size))))
            && (!room ==>
                 && k < |tried.slots| && Inv(State(tried, {k}))
                 && Do(State(tried, {k}), Renew(k)) == State(Refill(tried, k), {})
                 && RegionManagers.Valid(Refill(tried, k)) && k < |Refill(tried, k).slots|
                 && (m.free == [] ==> Alloc(m, k, size) == (Refill(tried, k), None))
                 && (m.free != [] ==> Alloc(m, k, size) == Alloc(Refill(tried, k), k, size)
                                      && |Refill(tried, k).free| < |m.free|))
  {
    AttemptKeepsValid(m, k, size);
    if !(HasSlot(m, k) && Fits(m.regs[m.slots[k]], size)) {
      var tried := Attempt(m, k, size);
      RefillKeepsValid(tried, k, {k});
      RefillIs(tried, k, {k});
      assert {k} - {k} == {};
      hide ValidBut, Refill;
    }
  }

  lemma RunsTwo(s: State, a: Op, b: Op, rest: seq<Op>)
    requires Enabled(s, a) && Enabled(Do(s, a), b) && Runs(Do(Do(s, a), b), rest)
    ensures Runs(s, [a, b] + rest) && After(s, [a, b] + rest) == After(Do(Do(s, a), b), rest)
    ensures Obtains(s, a).None? && Obtains(Do(s, a), b).None? ==>
              Obtained(s, [a, b] + rest) == Obtained(Do(Do(s, a), b), rest)
  {
    hide Enabled, Do, Obtains;
    var ops := [a, b] + rest;
    assert ops[1..] == [b] + rest && ops[1..][1..] == rest;
    assert Runs(Do(s, a), ops[1..]);
  }

  // A whole allocation call that nothing comes between is such a run.
  lemma {:induction false} AllocIsARun(m: Mgr, k: nat, size: nat) returns (ops: seq<Op>)
    requires RegionManagers.Valid(m) && k < |m.slots| && 0 < size
    ensures NeverRecycles(ops) && Runs(State(m, {}), ops)
    ensures After(State(m, {}), ops) == State(Alloc(m, k, size).0, {})
    ensures Obtained(State(m, {}), ops) == if Alloc(m, k, size).1.Some? then [Alloc(m, k, size).1.value] else []
    decreases |m.free|
  {
    var s, tried := State(m, {}), Attempt(m, k, size);
    AllocTurn(m, k, size);
    hide RegionManagers.Valid, Inv, Alloc, Do, Attempt, Refill;
    if HasSlot(m, k) && Fits(m.regs[m.slots[k]], size) {
      ops := [Try(k, size)];
      assert ops[1..] == [];
    } else {
      ops := [];
      if m.free != [] {
        ops := AllocIsARun(Refill(tried, k), k, size);
      }
      RunsTwo(s, Try(k, size), Renew(k), ops);
      ops := [Try(k, size), Renew(k)] + ops;
    }
  }

  // ---------- the ref-count protocol ----------

  // The region has left its core-local slot and is not free again.
  predicate Out(m: Mgr, x: nat) {
    x < |m.regs| && (x in m.used || x in m.ntUsed || x in m.from)
  }

  ghost predicate Frozen(r: Reg, r': Reg) {
    r'.starts == r.starts && r'.sizes == r.sizes && r'.pending <= r.pending && r'.refCnt <= r.refCnt
  }

  lemma InOnePlace(m: Mgr, x: nat, full: set<int>)
    requires ValidBut(m, full) && Out(m, x)
    ensures x !in m.free && forall k :: 0 <= k < |m.slots| ==> m.slots[k] != x
  {
    OneHolder(m, x);
    assert Bag(m.used)[x] > 0 || Bag(m.ntUsed)[x] > 0 || Bag(m.from)[x] > 0;
    forall k | 0 <= k < |m.slots| ensures m.slots[k] != x {
      assert m.slots[k] in Bag(m.slots);
    }
  }

  lemma RefillKeepsOut(m: Mgr, k: nat, x: nat)
    requires k < |m.slots| && Out(m, x)
    ensures |Refill(m, k).regs| == |m.regs| ==> Out(Refill(m, k), x)
  {
  }

  // Neither an attempt, a refill nor a payment touches the queues' regions, but to lower a count.
  lemma FrozenByAllocation(s: State, op: Op, x: nat)
    requires Inv(s) && Enabled(s, op) && Out(s.m, x) && (op.Try? || op.Renew? || op.Finish?)
    ensures Out(Do(s, op).m, x) && Frozen(s.m.regs[x], Do(s, op).m.regs[x])
  {
    InOnePlace(s.m, x, s.full);
    if op.Renew? {
      RefillIs(s.m, op.k, s.full);
      RefillKeepsOut(s.m, op.k, x);
      assert s.m.free != [] ==> s.m.free[0] in s.m.free;
    }
    hide Inv, ValidBut, Refill;
  }

  lemma FrozenByQueues(s: State, op: Op, x: nat)
    requires Inv(s) && Enabled(s, op) && Out(s.m, x) && !(op.GiveBack? && s.m.from[0] == x)
    requires op.RotateNt? || op.TakeNt? || op.TakeUsed? || op.GiveBack?
    ensures Out(Do(s, op).m, x) && Frozen(s.m.regs[x], Do(s, op).m.regs[x])
  {
  }

  lemma FrozenStep(s: State, op: Op, x: nat)
    requires Inv(s) && Enabled(s, op) && Out(s.m, x) && !(op.GiveBack? && s.m.from[0] == x)
    ensures Out(Do(s, op).m, x) && Frozen(s.m.regs[x], Do(s, op).m.regs[x])
  {
    hide Inv, Do, Out;
    if op.Try? || op.Renew? || op.Finish? {
      FrozenByAllocation(s, op, x);
    } else {
      FrozenByQueues(s, op, x);
    }
  }

  // The run never recycles x.
  ghost predicate Keeps(s: State, ops: seq<Op>, x: nat)
    requires Runs(s, ops)
    decreases |ops|
  {
    ops == [] || (!(ops[0].GiveBack? && s.m.from[0] == x) && Keeps(Do(s, ops[0]), ops[1..], x))
  }

  // From the moment a region leaves its slot until it is recycled, whatever happens meanwhile, it
  // gets no object and its ref count never rises: once collectable, it stays collectable.
  lemma {:induction false} QueuedIsFrozen(s: State, ops: seq<Op>, x: nat)
    requires Inv(s) && Runs(s, ops) && Out(s.m, x) && Keeps(s, ops, x)
    ensures var n := After(s, ops).m;
            Out(n, x) && Frozen(s.m.regs[x], n.regs[x]) && (Gcable(s.m.regs[x]) ==> Gcable(n.regs[x]))
    decreases |ops|
  {
    hide Inv, Enabled, Do;
    if ops != [] {
      StepKeepsInv(s, ops[0]);
      FrozenStep(s, ops[0], x);
      QueuedIsFrozen(Do(s, ops[0]), ops[1..], x);
    }
  }

  // The ref count of a region is the number of its objects still being initialised, in every run;
  // a picked region has none.
  lemma RefCountCounts(m: Mgr, cores: nat, free: nat, ops: seq<Op>, x: nat)
    requires Initial(m, cores, free) && Runs(State(m, {}), ops) && x < |m.regs|
    ensures var n := After(State(m, {}), ops).m;
            && |n.regs| == |m.regs| && n.regs[x].refCnt == |n.regs[x].pending|
                && (forall p <- n.regs[x].pending :: p in n.regs[x].starts)
            && (x in n.from ==> n.regs[x].pending == {} && n.regs[x].sealed)
  {
    InitialIsValid(m, cores, free);
    RunKeepsInv(State(m, {}), ops);
    var n := After(State(m, {}), ops).m;
    assert Ok(n.regs[x]);
  }
}
