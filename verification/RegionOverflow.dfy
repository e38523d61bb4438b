/**
 What goes wrong in the region manager without enough reserved regions, or without a free one: runs
 of module RegionRuns that push into a full circular buffer, and runs that write the nt flag of a
 region without a buffer.  Both start from what the constructor builds.
 */
module RegionOverflows {
  import opened Regions
  import opened RegionManagers
  import opened RegionManagement
  import opened RegionRuns

  // ---------- reachability ----------

  ghost predicate Reaches(s: State, t: State) {
    exists ops :: Runs(s, ops) && After(s, ops) == t
  }

  lemma {:induction false} RunsCompose(s: State, a: seq<Op>, b: seq<Op>)
    requires Runs(s, a) && Runs(After(s, a), b)
    ensures Runs(s, a + b) && After(s, a + b) == After(After(s, a), b)
    decreases |a|
  {
    hide Enabled, Do;
    if a == [] {
      assert a + b == b;
    } else {
      assert (a + b)[1..] == a[1..] + b;
      RunsCompose(Do(s, a[0]), a[1..], b);
    }
  }

  lemma ReachesOn(s: State, t: State, u: State)
    requires Reaches(s, t) && Reaches(t, u)
    ensures Reaches(s, u)
  {
    var a :| Runs(s, a) && After(s, a) == t;
    var b :| Runs(t, b) && After(t, b) == u;
    RunsCompose(s, a, b);
  }

  lemma ReachesItself(s: State)
    ensures Reaches(s, s)
  {
    assert Runs(s, []) && After(s, []) == s;
  }

  lemma ReachesNext(s: State, op: Op)
    requires Enabled(s, op)
    ensures Reaches(s, Do(s, op))
  {
    hide Enabled, Do;
    assert [op][1..] == [];
    assert Runs(Do(s, op), []) && After(Do(s, op), []) == Do(s, op);
    assert Runs(s, [op]) && After(s, [op]) == Do(s, op);
  }

  // ---------- moving every region out of the way ----------

  // Between two rounds: no slot awaits a refill and every object is initialised.
  ghost predicate Settled(s: State) {
    Inv(s) && s.full == {} && forall x :: 0 <= x < |s.m.regs| ==> s.m.regs[x].pending == {}
  }

  // Only regions changed, and no region its kind or its holder.
  ghost predicate SameHolders(m: Mgr, n: Mgr) {
    && n.local == m.local && |n.regs| == |m.regs|
    && n.free == m.free && n.used == m.used && n.ntUsed == m.ntUsed && n.from == m.from && n.slots == m.slots
  }

  lemma FilledOnce(r: Reg, local: bool)
    requires Ok(r) && !r.sealed && r.pending == {} && Fits(r, FILLER)
    ensures var r' := WithObject(r, local, FILLER);
            && !Fits(r', FILLER) && r'.pending == (if local then {r.firstFree} else {})
            && HEADER <= r.firstFree < SIZE
  {
    ObjectKeepsOk(r, local, FILLER);
    EndPastHeader(r);
  }

  // An object of one region's size goes into the slot's region, if it still fits, and is initialised.
  lemma FillSlotOnce(s: State, k: nat) returns (t: State)
    requires Settled(s) && k < |s.m.slots|
    ensures Reaches(s, t) && Settled(t) && SameHolders(s.m, t.m)
    ensures !(HasSlot(t.m, k) && Fits(t.m.regs[t.m.slots[k]], FILLER))
  {
    if HasSlot(s.m, k) && Fits(s.m.regs[s.m.slots[k]], FILLER) {
      var x := s.m.slots[k];
      var r := s.m.regs[x];
      var a := x * SIZE + r.firstFree;
      assert SlotOk(s.m, k, {});
      FilledOnce(r, s.m.local);
      AddressOf(x, r.firstFree);
      ReachesNext(s, Try(k, FILLER));
      StepKeepsInv(s, Try(k, FILLER));
      t := Do(s, Try(k, FILLER));
      if s.m.local {
        var mid := t;
        FinishPending(mid, x, r.firstFree);
        t := Do(mid, Finish(a));
        ReachesNext(mid, Finish(a));
        StepKeepsInv(mid, Finish(a));
        ReachesOn(s, mid, t);
      }
    } else {
      t := s;
      ReachesItself(s);
    }
  }

  lemma FinishPending(s: State, x: nat, offset: nat)
    requires Inv(s) && x < |s.m.regs| && offset < SIZE && s.m.regs[x].pending == {offset}
    ensures Enabled(s, Finish(x * SIZE + offset))
  {
    AddressOf(x, offset);
    assert Ok(s.m.regs[x]);
  }

  // What a refilled slot leaves alone.
  ghost predicate OthersKept(m: Mgr, n: Mgr, k: nat) {
    && n.local == m.local && |n.regs| == |m.regs| && |n.slots| == |m.slots| && n.from == m.from
    && (forall j :: 0 <= j < |m.slots| && j != k ==> n.slots[j] == m.slots[j])
    && (k % 2 == 0 || !m.local ==> n.ntUsed == m.ntUsed)
  }

  // Every object is initialised and slot k has just failed to allocate.
  ghost predicate FailedIn(s: State, k: nat) {
    Inv(s) && s.full == {k} && k < |s.m.slots| && forall x :: 0 <= x < |s.m.regs| ==> s.m.regs[x].pending == {}
  }

  lemma FailIn(s: State, k: nat) returns (mid: State)
    requires Settled(s) && k < |s.m.slots|
    ensures Reaches(s, mid) && FailedIn(mid, k) && SameHolders(s.m, mid.m)
  {
    var f := FillSlotOnce(s, k);
    ReachesNext(f, Try(k, FILLER));
    StepKeepsInv(f, Try(k, FILLER));
    mid := Do(f, Try(k, FILLER));
    ReachesOn(s, f, mid);
  }

  lemma RenewAfter(mid: State, k: nat) returns (t: State)
    requires FailedIn(mid, k)
    ensures Enabled(mid, Renew(k)) && t == Do(mid, Renew(k)) && Settled(t) && OthersKept(mid.m, t.m, k)
    ensures t.m.free == if mid.m.free == [] then [] else mid.m.free[1..]
    ensures mid.m.free == [] ==> t.m.slots[k] == INVALID
  {
    t := Do(mid, Renew(k));
    StepKeepsInv(mid, Renew(k));
    assert SlotOk(mid.m, k, mid.full);
    RefillIs(mid.m, k, mid.full);
    hide Inv;
  }

  // The slot's region moves on to its used queue and the front of the free queue takes its place.
  lemma NextRegion(s: State, k: nat) returns (mid: State, t: State)
    requires Settled(s) && k < |s.m.slots|
    ensures Reaches(s, mid) && Inv(mid) && Enabled(mid, Renew(k)) && mid.m.free == s.m.free
    ensures Reaches(s, t) && t == Do(mid, Renew(k)) && Settled(t) && OthersKept(s.m, t.m, k)
    ensures t.m.free == if s.m.free == [] then [] else s.m.free[1..]
    ensures s.m.free == [] ==> t.m.slots[k] == INVALID
  {
    mid := FailIn(s, k);
    t := RenewAfter(mid, k);
    hide Inv, Enabled, Do;
    ReachesNext(mid, Renew(k));
    ReachesOn(s, mid, t);
  }

  // Enough allocations in one slot use up the free queue, and then the slot's own region.
  lemma {:induction false} Drain(s: State, k: nat) returns (t: State)
    requires Settled(s) && k < |s.m.slots|
    ensures Reaches(s, t) && Settled(t) && OthersKept(s.m, t.m, k)
    ensures t.m.free == [] && t.m.slots[k] == INVALID
    decreases |s.m.free|
  {
    hide Settled;
    var mid, u := NextRegion(s, k);
    if s.m.free == [] {
      t := u;
    } else {
      t := Drain(u, k);
      ReachesOn(s, u, t);
    }
  }

  // ---------- the nt flag of a region without a buffer ----------

  // set_nt() runs in this step on a region without a buffer (RegionManager.TryRefill).
  ghost predicate WritesAstray(s: State, op: Op)
    requires Enabled(s, op)
  {
    op.Renew? && op.k % 2 == 1 && !HasBuffer(Do(s, op).m, op.k)
  }

  // In any state: a refill in an nt slot with no region to be had, or any of far memory.
  lemma WritesAstrayIff(s: State, op: Op)
    requires Inv(s) && Enabled(s, op)
    ensures WritesAstray(s, op) <==> op.Renew? && op.k % 2 == 1 && (s.m.free == [] || !s.m.local)
  {
    if op.Renew? {
      RefillIs(s.m, op.k, s.full);
    }
  }

  lemma InitiallySettled(m: Mgr, cores: nat, free: nat)
    requires Initial(m, cores, free)
    ensures Settled(State(m, {}))
  {
    InitialIsValid(m, cores, free);
  }

  // It happens: non-temporal requests on one core lead there from every initial state.
  lemma NtFlagGoesAstray(m: Mgr, cores: nat, free: nat) returns (s: State)
    requires Initial(m, cores, free) && 0 < cores
    ensures Reaches(State(m, {}), s) && Inv(s) && Enabled(s, Renew(1)) && WritesAstray(s, Renew(1))
  {
    InitiallySettled(m, cores, free);
    hide Settled;
    var t := Drain(State(m, {}), 1);
    var u;
    s, u := NextRegion(t, 1);
    ReachesOn(State(m, {}), t, s);
    hide Initial;
    WritesAstrayIff(s, Renew(1));
  }

  // ---------- a full circular buffer ----------

  lemma {:induction false} EmptySlots(s: State, n: nat) returns (t: State)
    requires Settled(s) && s.m.free == [] && n <= |s.m.slots|
    ensures Reaches(s, t) && Settled(t) && t.m.free == [] && t.m.from == s.m.from && |t.m.regs| == |s.m.regs|
    ensures |t.m.slots| == |s.m.slots| && forall j :: 0 <= j < n ==> t.m.slots[j] == INVALID
  {
    hide Settled;
    if n == 0 {
      t := s;
      ReachesItself(s);
    } else {
      var u := EmptySlots(s, n - 1);
      t := Drain(u, n - 1);
      ReachesOn(s, u, t);
    }
  }

  ghost predicate NoSlots(m: Mgr) {
    forall j :: 0 <= j < |m.slots| ==> m.slots[j] == INVALID
  }

  // A collection round without survivors brings an nt region back as a temporal one.
  lemma TakeAndGiveBack(s: State) returns (t: State)
    requires Settled(s) && s.m.ntUsed != [] && s.m.from == [] && s.m.free == []
    ensures Reaches(s, t) && Settled(t) && t.m.from == [] && t.m.ntUsed == s.m.ntUsed[1..] && t.m.slots == s.m.slots
    ensures |t.m.regs| == |s.m.regs|
  {
    assert s.m.ntUsed[0] in s.m.ntUsed;
    assert Ok(s.m.regs[s.m.ntUsed[0]]);
    ReachesNext(s, TakeNt);
    StepKeepsInv(s, TakeNt);
    var u := Do(s, TakeNt);
    assert u.m.from[0] in u.m.from;
    ReachesNext(u, GiveBack);
    StepKeepsInv(u, GiveBack);
    t := Do(u, GiveBack);
    ReachesOn(s, u, t);
  }

  lemma {:induction false} RecycleAllNt(s: State) returns (t: State)
    requires Settled(s) && s.m.free == [] && s.m.from == [] && NoSlots(s.m) && 0 < |s.m.slots|
    ensures Reaches(s, t) && Settled(t) && t.m.free == [] && t.m.from == [] && t.m.ntUsed == [] && NoSlots(t.m)
    ensures |t.m.regs| == |s.m.regs|
    decreases |s.m.ntUsed|
  {
    hide Settled;
    if s.m.ntUsed == [] {
      t := s;
      ReachesItself(s);
    } else {
      var u := TakeAndGiveBack(s);
      var v := Drain(u, 0);
      t := RecycleAllNt(v);
      ReachesOn(s, u, v);
      ReachesOn(s, v, t);
    }
  }

  // Some run gathers all regions in the temporal used queue.
  lemma AllUsed(m: Mgr, cores: nat, free: nat) returns (t: State)
    requires Initial(m, cores, free) && 0 < cores
    ensures Reaches(State(m, {}), t) && |t.m.used| == |m.regs|
  {
    var s := State(m, {});
    InitiallySettled(m, cores, free);
    hide Settled, Initial;
    var a := Drain(s, 0);
    var b := EmptySlots(a, |a.m.slots|);
    t := RecycleAllNt(b);
    ReachesOn(s, a, b);
    ReachesOn(s, b, t);
    Unslotted(t);
  }

  lemma Unslotted(t: State)
    requires Settled(t) && t.m.free == [] && t.m.from == [] && t.m.ntUsed == [] && NoSlots(t.m)
    ensures |t.m.used| == |t.m.regs|
  {
    Cardinalities(t.m);
    AllInvalid(t.m.slots);
  }

  lemma {:induction false} AllInvalid(slots: seq<int>)
    requires forall j :: 0 <= j < |slots| ==> slots[j] == INVALID
    ensures Bag(slots)[INVALID] == |slots|
  {
    if slots != [] {
      FrontAndRest(slots);
      AllInvalid(slots[1..]);
    }
  }

  // The temporal used queue grows only by a refill's push.
  lemma UsedGrows(s: State, op: Op, capacity: nat)
    requires Inv(s) && Enabled(s, op) && |s.m.used| <= capacity < |Do(s, op).m.used|
    ensures Overflows(s.m, op, capacity)
  {
  }

  lemma {:induction false} FirstOverflow(s: State, ops: seq<Op>, capacity: nat) returns (pre: seq<Op>, op: Op)
    requires Inv(s) && Runs(s, ops) && |s.m.used| <= capacity < |After(s, ops).m.used|
    ensures Runs(s, pre) && Enabled(After(s, pre), op) && Overflows(After(s, pre).m, op, capacity)
    decreases |ops|
  {
    hide Inv, Enabled, Do, Overflows;
    var t := Do(s, ops[0]);
    StepKeepsInv(s, ops[0]);
    if capacity < |t.m.used| {
      UsedGrows(s, ops[0], capacity);
      pre, op := [], ops[0];
    } else {
      pre, op := FirstOverflow(t, ops[1..], capacity);
      assert ([ops[0]] + pre)[1..] == pre;
      pre := [ops[0]] + pre;
    }
  }

  lemma SomePushFails(m: Mgr, cores: nat, reserved: nat, size: nat) returns (ops: seq<Op>, op: Op)
    requires 2 * reserved < RegionCount(size) && reserved < cores
    requires Initial(m, cores, RegionCount(size) - 2 * reserved)
    ensures Runs(State(m, {}), ops) && Enabled(After(State(m, {}), ops), op)
    ensures Overflows(After(State(m, {}), ops).m, op, RegionCount(size))
  {
    var t := AllUsed(m, cores, RegionCount(size) - 2 * reserved);
    var all :| Runs(State(m, {}), all) && After(State(m, {}), all) == t;
    InitialIsValid(m, cores, RegionCount(size) - 2 * reserved);
    ops, op := FirstOverflow(State(m, {}), all, RegionCount(size));
  }

  // Every push of every run finds room in its buffer.
  ghost predicate PushesFit(m: Mgr, capacity: nat) {
    forall ops, op | Runs(State(m, {}), ops) && Enabled(After(State(m, {}), ops), op) ::
      !Overflows(After(State(m, {}), ops).m, op, capacity)
  }

  // So no BUG_ON is reached in any run if and only if no core lacks its reservation.
  lemma PushesFitIff(m: Mgr, cores: nat, reserved: nat, size: nat)
    requires 2 * reserved < RegionCount(size) && 0 < cores
    requires Initial(m, cores, RegionCount(size) - 2 * reserved)
    ensures PushesFit(m, RegionCount(size)) <==> cores <= reserved
  {
    hide Initial, Enabled, Overflows;
    if cores <= reserved {
      forall ops, op | Runs(State(m, {}), ops) && Enabled(After(State(m, {}), ops), op)
        ensures !Overflows(After(State(m, {}), ops).m, op, RegionCount(size))
      {
        NoPushFails(m, cores, reserved, size, ops, op);
      }
    } else {
      var ops, op := SomePushFails(m, cores, reserved, size);
      assert Overflows(After(State(m, {}), ops).m, op, RegionCount(size));
    }
  }

  // The constants the repository shows: some run of any cache that can be built meets a full buffer.
  lemma ShownConstantsOverflow(m: Mgr, size: nat) returns (ops: seq<Op>, op: Op)
    requires 2 * SHOWN_RESERVED < RegionCount(size)
    requires Initial(m, SHOWN_CORES, RegionCount(size) - 2 * SHOWN_RESERVED)
    ensures Runs(State(m, {}), ops) && Enabled(After(State(m, {}), ops), op)
    ensures Overflows(After(State(m, {}), ops).m, op, RegionCount(size))
  {
    ops, op := SomePushFails(m, SHOWN_CORES, SHOWN_RESERVED, size);
  }
}
