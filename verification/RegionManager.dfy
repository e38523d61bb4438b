/**
 Class RegionManager and the loops on it: construction, refill, the two allocation loops, the
 collector's pick of from-regions and the return of a region to the free queue.
 Each method runs under region_spin_ or with preemption disabled, so it is one atomic step.
 */
module RegionManagement {
  import opened Regions
  import opened RegionManagers

  // ceil(size / (double)Region::kSize)
  function RegionCount(size: nat): nat {
    (size + SIZE - 1) / SIZE
  }

  predicate InMapping(x: nat, count: nat) {
    (x + 1) * SIZE <= count * SIZE
  }

  // helpers::kNumCPUs and helpers::kNumSocket1CPUs as the repository has them
  const SHOWN_CORES: nat := 20
  const SHOWN_RESERVED: nat := 2

  const FILLER: nat := 1016  // the size of an object that fills a region

  // An object of this size can be allocated in slot k without waiting.
  predicate Available(m: Mgr, k: nat, size: nat)
    requires k < |m.slots|
  {
    (HasSlot(m, k) && Fits(m.regs[m.slots[k]], size)) || m.free != []
  }

  ghost predicate FrontBusy(m: Mgr, n: nat) {
    var q := Rotate(m.ntUsed, n);
    q != [] && q[0] < |m.regs| && !Gcable(m.regs[q[0]])
  }

  // The last k regions of a queue, or all of them if it is shorter, are not collectable.
  ghost predicate RearBusy(regs: seq<Reg>, q: seq<nat>, k: nat) {
    forall j :: 0 <= j < |q| && |q| - k <= j ==> q[j] < |regs| && !Gcable(regs[q[j]])
  }

  ghost predicate HeadBusy(regs: seq<Reg>, q: seq<nat>) {
    q != [] ==> q[0] < |regs| && !Gcable(regs[q[0]])
  }

  // Regions moved between the used queues and the from list while other threads finished objects.
  ghost predicate Picking(m: Mgr, now: Mgr) {
    Quieter(m.(used := now.used, ntUsed := now.ntUsed, from := now.from), now)
  }

  // A region that is busy now was busy when the loop began.
  lemma BusyBefore(m: Mgr, now: Mgr, x: nat)
    requires Regular(m) && x < |m.regs| && Picking(m, now)
    ensures !Gcable(now.regs[x]) ==> !Gcable(m.regs[x])
  {
  }

  lemma RearBusyBefore(m: Mgr, now: Mgr, q: seq<nat>, k: nat)
    requires Valid(m) && Picking(m, now)
    ensures RearBusy(now.regs, q, k) ==> RearBusy(m.regs, q, k)
    ensures HeadBusy(now.regs, q) ==> HeadBusy(m.regs, q)
  {
    forall x | 0 <= x < |m.regs| ensures !Gcable(now.regs[x]) ==> !Gcable(m.regs[x]) {
      BusyBefore(m, now, x);
    }
  }

  // The front of a queue that goes to the back joins the busy ones there.
  lemma RearGrows(regs: seq<Reg>, q: seq<nat>, k: nat)
    requires q != [] && RearBusy(regs, q, k) && HeadBusy(regs, q)
    ensures RearBusy(regs, q[1..] + [q[0]], k + 1)
  {
    var r := q[1..] + [q[0]];
    forall j | 0 <= j < |r| && |r| - (k + 1) <= j ensures r[j] < |regs| && !Gcable(regs[r[j]]) {
      assert r[j] == if j + 1 < |q| then q[j + 1] else q[0];
    }
  }

  // q is the nt queue of m after so many rotations, each past a region that was busy.
  ghost predicate Met(m: Mgr, q: seq<nat>, rotations: nat) {
    && q == Rotate(m.ntUsed, rotations) && RearBusy(m.regs, q, rotations)
    && forall n: nat :: n < rotations ==> FrontBusy(m, n)
  }

  lemma MetNone(m: Mgr)
    requires Valid(m)
    ensures Picking(m, m) && Met(m, m.ntUsed, 0)
  {
  }

  lemma MetMore(m: Mgr, now: Mgr, q: seq<nat>, rotations: nat)
    requires Valid(m) && Met(m, q, rotations) && Picking(m, now)
    requires q != [] && q[0] < |now.regs| && !Gcable(now.regs[q[0]])
    ensures Met(m, q[1..] + [q[0]], rotations + 1)
  {
    BusyBefore(m, now, q[0]);
    RotateOnce(m.ntUsed, rotations);
    RearGrows(m.regs, q, rotations);
    hide RearBusy, Conserved, Roles, Regular;
  }

  lemma MetAll(m: Mgr, q: seq<nat>, rotations: nat, k: nat)
    requires Met(m, q, rotations) && (q == [] || rotations == k)
    ensures RearBusy(m.regs, q, k) && Bag(q) == Bag(m.ntUsed)
  {
    if m.ntUsed != [] {
      RotateOnce(m.ntUsed, rotations);
    }
  }

  // Nothing entered or left the three lists together.
  lemma SameRest(m: Mgr, now: Mgr)
    requires Valid(m) && Valid(now) && m.free == now.free && m.slots == now.slots && |m.regs| == |now.regs|
    ensures Bag(now.used) + Bag(now.ntUsed) + Bag(now.from) == Bag(m.used) + Bag(m.ntUsed) + Bag(m.from)
  {
    assert Owned(m) == Owned(now);
    var rest := Bag(m.free) + Bag(m.slots)[INVALID := 0];
    forall x: int
      ensures (Bag(now.used) + Bag(now.ntUsed) + Bag(now.from))[x] == (Bag(m.used) + Bag(m.ntUsed) + Bag(m.from))[x]
    {
      assert Owned(m)[x] == rest[x] + (Bag(m.used) + Bag(m.ntUsed) + Bag(m.from))[x];
      assert Owned(now)[x] == rest[x] + (Bag(now.used) + Bag(now.ntUsed) + Bag(now.from))[x];
    }
  }

  lemma PickedWereUsed(m: Mgr, now: Mgr)
    requires m.from == [] && Bag(now.used) + Bag(now.ntUsed) + Bag(now.from) == Bag(m.used) + Bag(m.ntUsed)
              + Bag(m.from)
    ensures forall x <- now.from :: x in m.used || x in m.ntUsed
  {
    forall x <- now.from ensures x in m.used || x in m.ntUsed {
      assert Bag(now.from)[x] > 0;
      assert (Bag(now.used) + Bag(now.ntUsed) + Bag(now.from))[x] == (Bag(m.used) + Bag(m.ntUsed))[x];
    }
  }

  lemma PickedAlone(m: Mgr)
    requires Valid(m)
    ensures forall i, j :: 0 <= i < j < |m.from| ==> m.from[i] != m.from[j]
    ensures forall x <- m.from :: x !in m.free && x !in m.used && x !in m.ntUsed && x !in m.slots
    ensures forall x <- m.from :: x < |m.regs| && Gcable(m.regs[x]) && m.regs[x].pending == {}
  {
    forall i, j | 0 <= i < |m.from| && 0 <= j < |m.from|
      ensures i != j ==> m.from[i] != m.from[j]
      ensures m.from[i] !in m.free && m.from[i] !in m.used && m.from[i] !in m.ntUsed && m.from[i] !in m.slots
    {
      assert m.from[i] in m.from;
      PickedAreAlone(m, i, j);
    }
  }

  lemma PickingTwice(m: Mgr, mid: Mgr, now: Mgr)
    requires Picking(m, mid) && Picking(mid, now)
    ensures Picking(m, now)
  {
  }

  function FinishedAt(m: Mgr, a: nat): Mgr
    requires Pending(m, a) && 0 < m.regs[a / SIZE].refCnt
  {
    m.(regs := m.regs[a / SIZE := Finished(m.regs[a / SIZE], a % SIZE)])
  }

  lemma FinishedAtKeepsValid(m: Mgr, a: nat)
    requires Valid(m) && Pending(m, a)
    ensures 0 < m.regs[a / SIZE].refCnt
    ensures Valid(FinishedAt(m, a)) && Quieter(m, FinishedAt(m, a))
    ensures forall b: nat :: Pending(FinishedAt(m, a), b) <==> Pending(m, b) && b != a
  {
    FinishedKeepsOk(m.regs[a / SIZE], a % SIZE);
    QuieterKeepsValid(m, FinishedAt(m, a));
  }

  // What the constructor builds: two regions for each core, the rest free.
  ghost predicate Initial(m: Mgr, cores: nat, free: nat) {
    && |m.slots| == 2 * cores && |m.free| == free && |m.regs| == 2 * cores + free
    && m.used == [] && m.ntUsed == [] && m.from == []
    && (forall k :: 0 <= k < |m.slots| ==> m.slots[k] == k && m.regs[k] == EmptyReg(m.local && k % 2 == 1))
    && (forall j :: 0 <= j < free ==> m.free[j] == 2 * cores + j)
    && (forall x :: 2 * cores <= x < |m.regs| ==> m.regs[x] == EmptyReg(false))
  }

  lemma {:induction false} Consecutive(s: seq<int>, lo: int, x: int)
    requires forall i :: 0 <= i < |s| ==> s[i] == lo + i
    ensures Bag(s)[x] == if lo <= x < lo + |s| then 1 else 0
  {
    if s != [] {
      FrontAndRest(s);
      Consecutive(s[1..], lo + 1, x);
    }
  }

  lemma InitialIsConserved(m: Mgr, cores: nat, free: nat)
    requires Initial(m, cores, free)
    ensures Conserved(m)
  {
    forall x: int ensures Owned(m)[x] == if 0 <= x < |m.regs| then 1 else 0 {
      Consecutive(m.slots, 0, x);
      Consecutive(m.free, 2 * cores, x);
      Consecutive(m.slots, 0, INVALID);
    }
  }

  lemma InitialIsValid(m: Mgr, cores: nat, free: nat)
    requires Initial(m, cores, free)
    ensures Valid(m)
    ensures forall a: nat :: !Live(m, a)
  {
    InitialIsConserved(m, cores, free);
    EmptyIsOk(true);
    EmptyIsOk(false);
    forall k | 0 <= k < |m.slots| ensures SlotOk(m, k, {}) {
      assert m.slots[k] == k;
    }
  }

  class RegionManager {
    const local: bool
    const cores: nat
    const capacity: nat    // of each circular buffer, and of the mapping in regions
    const maxRetries: nat  // kPickRegionMaxRetryTimes
    var regs: seq<Reg>
    var free: seq<nat>
    var used: seq<nat>
    var ntUsed: seq<nat>
    var from: seq<nat>
    var slots: seq<int>

    ghost function Value(): Mgr
      reads this
    {
      Mgr(local, regs, free, used, ntUsed, from, slots)
    }

    ghost predicate Ready()
      reads this
    {
      Valid(Value()) && |slots| == 2 * cores && |regs| <= capacity
    }

    constructor (local: bool, cores: nat, reserved: nat, count: nat, maxRetries: nat)
      requires 2 * reserved < count
      ensures this.local == local && this.cores == cores && this.capacity == count && this.maxRetries == maxRetries
      ensures Initial(Value(), cores, count - 2 * reserved)
    {
      this.local, this.cores, this.capacity, this.maxRetries := local, cores, count, maxRetries;
      used, ntUsed, from := [], [], [];
      var s: seq<int> := [];
      var r: seq<Reg> := [];
      var f: seq<nat> := [];
      for core := 0 to cores
        invariant |s| == |r| == 2 * core
        invariant forall k :: 0 <= k < |s| ==> s[k] == k && r[k] == EmptyReg(local && k % 2 == 1)
      {
        s := s + [|r|] + [|r| + 1];
        r := r + [EmptyReg(false)] + [EmptyReg(local)];
      }
      for i := 0 to count - 2 * reserved
        invariant |r| == |s| + i && |f| == i
        invariant forall k :: 0 <= k < |s| ==> s[k] == k && r[k] == EmptyReg(local && k % 2 == 1)
        invariant forall j :: 0 <= j < i ==> f[j] == |s| + j
        invariant forall x :: |s| <= x < |r| ==> r[x] == EmptyReg(false)
      {
        assert |f| < count;  // BUG_ON(!push_back)
        f := f + [|r|];
        r := r + [EmptyReg(false)];
      }
      slots, regs, free := s, r, f;
    }

    // The constructor exits when there are too few regions.
    static method Create(size: nat, local: bool, cores: nat, reserved: nat, maxRetries: nat) returns (m: RegionManager?)
      ensures m == null <==> RegionCount(size) <= 2 * reserved
      ensures m != null ==>
                && fresh(m) && Valid(m.Value()) && m.local == local && m.maxRetries == maxRetries
                && m.from == [] && forall a: nat :: !Live(m.Value(), a)
      // Every buffer lies inside the mapping exactly when no core lacks its reservation.
      ensures m != null ==> ((forall x: nat :: x < |m.regs| ==> InMapping(x, RegionCount(size))) <==> cores <= reserved)
      ensures m != null ==> Initial(m.Value(), cores, RegionCount(size) - 2 * reserved) && m.cores == cores
      ensures m != null && cores <= reserved ==> m.Ready() && |m.regs| <= RegionCount(size)
    {
      var count := RegionCount(size);
      if count <= 2 * reserved {
        return null;
      }
      m := new RegionManager(local, cores, reserved, count, maxRetries);
      InitialIsValid(m.Value(), cores, count - 2 * reserved);
      assert InMapping(|m.regs| - 1, count) <==> cores <= reserved;
    }

    // The full core-local region moves to a used queue.
    method PushSlot(k: nat)
      requires k < |slots| && ValidBut(Value(), {k}) && |regs| <= capacity
      modifies this
      ensures Value() == PushUsed(old(Value()), k)
    {
      ghost var m := Value();
      PushUsedConserves(m, k, {k});
      assert SlotOk(m, k, {k});
      var x := slots[k];
      if x != INVALID {
        if local && regs[x].nt {
          assert |ntUsed| < capacity;  // BUG_ON(!success)
          ntUsed := ntUsed + [x];
        } else {
          assert |used| < capacity;  // BUG_ON(!success)
          used := used + [x];
        }
        slots := slots[k := INVALID];
      }
      assert Value() == PushUsed(m, k);
    }

    // core_local_region.set_nt().  `wild`: there is no buffer to write to.
    method SetNtFlag(k: nat) returns (wild: bool)
      requires k < |slots|
      modifies `regs
      ensures Value() == SetNt(old(Value()), k)
      ensures wild <==> !HasBuffer(Value(), k)
    {
      wild := true;
      if local && 0 <= slots[k] < |regs| {
        wild := false;
        regs := regs[slots[k] := regs[slots[k]].(nt := true)];
      }
    }

    // The core-local region is filled from the free queue.
    method PopSlot(k: nat) returns (success: bool, wildWrite: bool)
      requires k < |slots| && Valid(Value()) && slots[k] == INVALID
      modifies this
      ensures Value() == PopFree(old(Value()), k)
      ensures success <==> old(free) != []
      ensures wildWrite <==> k % 2 == 1 && !(local && old(free) != [])
    {
      success, wildWrite := free != [], false;
      if success {
        assert free[0] in free;
        slots, free := slots[k := free[0]], free[1..];
      }
      if k % 2 == 1 {
        wildWrite := SetNtFlag(k);
      }
    }

    // try_refill_core_local_free_region(nt, &core_local_region) after an allocation in it failed.
    // wildWrite: set_nt() ran on a region without a buffer.
    method TryRefill(k: nat) returns (success: bool, wildWrite: bool)
      requires k < |slots| == 2 * cores && |regs| <= capacity && ValidBut(Value(), {k})
      modifies this
      ensures Ready() && Value() == Refill(old(Value()), k)
      ensures success <==> old(free) != []
      ensures success ==> |free| < |old(free)|
      ensures wildWrite <==> k % 2 == 1 && !HasBuffer(Value(), k)
      ensures wildWrite <==> k % 2 == 1 && (old(free) == [] || !local)
    {
      PushUsedKeepsValid(Value(), k, {k});
      RefillKeepsValid(Value(), k, {k});
      PushSlot(k);
      success, wildWrite := PopSlot(k);
    }

    // free_local_region.allocate_object(object_size)
    method AllocateInSlot(k: nat, size: nat) returns (a: Option<nat>)
      requires k < |slots| && Valid(Value())
      modifies this
      ensures Value() == Attempt(old(Value()), k, size)
      ensures var m := old(Value());
              a == if HasSlot(m, k) && Fits(m.regs[m.slots[k]], size)
                   then Some(m.slots[k] * SIZE + m.regs[m.slots[k]].firstFree) else None
    {
      ghost var m := Value();
      assert SlotOk(m, k, {});
      a := None;
      if slots[k] != INVALID {
        var r := regs[slots[k]];
        regs := regs[slots[k] := WithObject(r, local, size)];
        if Fits(r, size) {
          a := Some(slots[k] * SIZE + r.firstFree);
        }
      }
      assert Value() == Attempt(m, k, size);
    }

    // allocate_object would succeed in the core-local region as it is.
    ghost predicate HasRoom(k: nat, size: nat)
      requires k < |slots|
      reads this
    {
      HasSlot(Value(), k) && Fits(regs[slots[k]], size)
    }

    // One round of the retry loop; `done` when the loop leaves.
    method AllocateRound(k: nat, size: nat) returns (a: Option<nat>, done: bool, wildWrite: bool)
      requires Ready() && k < |slots| && 0 < size
      modifies this
      ensures Ready() && |slots| == |old(slots)|
      ensures done ==> (Value(), a) == Alloc(old(Value()), k, size)
      ensures !done ==> Alloc(Value(), k, size) == Alloc(old(Value()), k, size) && |free| < |old(free)|
      ensures a.Some? <==> old(HasRoom(k, size))
      ensures done <==> old(HasRoom(k, size)) || old(free) == []
      ensures wildWrite <==> k % 2 == 1 && !old(HasRoom(k, size)) && (old(free) == [] || !local)
    {
      ghost var m := Value();
      AttemptKeepsValid(m, k, size);
      assert m.free != [] ==> m.free[0] in m.free;
      wildWrite := false;
      a := AllocateInSlot(k, size);
      done := a.Some?;
      if !done {
        var success;
        success, wildWrite := TryRefill(k);
        done := !success;
      }
    }

    // allocate_local_object_nb, and allocate_remote_object up to its endless retry on failure.
    method AllocateNb(core: nat, nt: bool, size: nat) returns (a: Option<nat>, wildWrite: bool)
      requires Ready() && core < cores && 0 < size
      modifies this
      ensures Ready()
      ensures (Value(), a) == Alloc(old(Value()), 2 * core + if nt then 1 else 0, size)
      // The object is in the region of the kind asked for.
      ensures a.Some? ==>
                && a.value / SIZE < |regs| && |slots| == 2 * cores
                && slots[2 * core + if nt then 1 else 0] == a.value / SIZE
                && regs[a.value / SIZE].nt == (local && nt)
      // A cache allocation writes astray exactly when it fails in an nt slot ...
      ensures local ==> (wildWrite <==> nt && a.None?)
      // ... which for a size that fits a region is known beforehand ...
      ensures local && HEADER + Align(size) <= SIZE ==>
                (wildWrite <==> nt && old(free) == [] && !old(HasRoom(2 * core + 1, size)))
      // ... and a far-memory one whenever it needs a refill in one.
      ensures !local ==> (wildWrite <==> nt && !old(HasRoom(2 * core + 1, size)))
    {
      hide ValidBut, Alloc, Fits;
      var k := 2 * core + if nt then 1 else 0;
      ghost var goal, room := Alloc(Value(), k, size), HasRoom(k, size);
      AllocKind(Value(), k, size);
      if HEADER + Align(size) <= SIZE {
        AllocSucceeds(Value(), k, size);
      }
      var done, wild := false, false;
      a, done, wildWrite := AllocateRound(k, size);
      while !done
        invariant done && room ==> a.Some?
        invariant !done ==> !room
        invariant wildWrite <==> nt && !room && (!local || (done && a.None?))
        invariant Ready() && if done then (Value(), a) == goal else Alloc(Value(), k, size) == goal
        decreases !done, |free|
      {
        a, done, wild := AllocateRound(k, size);
        wildWrite := wildWrite || wild;
      }
    }

    // Region::atomic_inc_ref_cnt(a, -1): the header of the object at a is written.
    method FinishObject(a: nat)
      requires Ready() && Pending(Value(), a)
      modifies `regs
      ensures Ready() && Value() == FinishedAt(old(Value()), a)
    {
      FinishedAtKeepsValid(Value(), a);
      regs := regs[a / SIZE := Finished(regs[a / SIZE], a % SIZE)];
    }

    // The caller may assume nothing but that other threads finished initialising some objects.
    method OtherThreads()
      requires Ready()
      modifies `regs
      ensures Ready() && Quieter(old(Value()), Value())
    {
    }

    method RotateNt()
      requires Ready() && ntUsed != []
      modifies `ntUsed
      ensures Ready() && ntUsed == old(ntUsed)[1..] + [old(ntUsed)[0]]
    {
      FrontAndRest(ntUsed);
      RotationKeepsValid(Value(), ntUsed[1..] + [ntUsed[0]]);
      ntUsed := ntUsed[1..] + [ntUsed[0]];
    }

    method TakeNt()
      requires Ready() && ntUsed != [] && ntUsed[0] < |regs| && Gcable(regs[ntUsed[0]])
      modifies `ntUsed, `from
      ensures Ready() && ntUsed == old(ntUsed)[1..] && from == old(from) + [old(ntUsed)[0]]
    {
      PickNtKeepsValid(Value());
      ntUsed, from := ntUsed[1..], from + [ntUsed[0]];
    }

    // One attempt of the first loop of pop_used_region.  A region that is not collectable goes to
    // the back of the queue; a collectable one goes straight to from_regions_.
    method TryPopNtUsed() returns (picked: bool)
      requires Ready() && ntUsed != []
      modifies `regs, `ntUsed, `from
      ensures Ready() && Picking(old(Value()), Value()) && used == old(used)
      ensures picked ==> ntUsed == old(ntUsed)[1..] && from == old(from) + [old(ntUsed)[0]]
      ensures !picked ==>
                && ntUsed == old(ntUsed)[1..] + [old(ntUsed)[0]] && from == old(from)
                && old(ntUsed)[0] < |regs| && !Gcable(regs[old(ntUsed)[0]])
    {
      OtherThreads();
      assert ntUsed[0] in ntUsed;
      assert ntUsed[0] < |regs|;
      hide ValidBut;
      picked := Gcable(regs[ntUsed[0]]);
      if picked {
        TakeNt();
      } else {
        RotateNt();
      }
    }

    // The first loop of pop_used_region.
    method PopNtUsed() returns (picked: bool, rotations: nat)
      requires Ready()
      modifies `regs, `ntUsed, `from
      ensures Ready() && Picking(old(Value()), Value()) && used == old(used)
      ensures rotations + (if picked then 1 else 0) <= maxRetries + 2
      ensures picked ==>
                && Rotate(old(ntUsed), rotations) != []
                && ntUsed == Rotate(old(ntUsed), rotations)[1..]
                && from == old(from) + [Rotate(old(ntUsed), rotations)[0]]
      ensures forall n: nat :: n < rotations ==> FrontBusy(old(Value()), n)
      ensures !picked ==>
                && ntUsed == Rotate(old(ntUsed), rotations) && from == old(from)
                && (ntUsed != [] ==> forall n: nat :: n < maxRetries + 2 ==> FrontBusy(old(Value()), n))
                && RearBusy(old(regs), ntUsed, maxRetries + 2) && Bag(ntUsed) == Bag(old(ntUsed))
    {
      hide ValidBut, RearBusy, FrontBusy;
      ghost var m := Value();
      MetNone(m);
      picked, rotations := false, 0;
      while ntUsed != [] && rotations <= maxRetries + 1  // retry_times++ <= kPickRegionMaxRetryTimes
        invariant Ready() && Picking(m, Value())
        invariant rotations <= maxRetries + 2 && !picked && from == m.from
        invariant Met(m, ntUsed, rotations)
        decreases maxRetries + 2 - rotations
      {
        ghost var before := Value();
        picked := TryPopNtUsed();
        PickingTwice(m, before, Value());
        if picked {
          break;
        }
        MetMore(m, Value(), before.ntUsed, rotations);
        rotations := rotations + 1;
      }
      if !picked {
        MetAll(m, ntUsed, rotations, maxRetries + 2);
      }
    }

    // One attempt of the second loop; a region that is not collectable stays at the front.
    method TryPopUsed() returns (picked: bool)
      requires Ready() && used != []
      modifies `regs, `used, `from
      ensures Ready() && Picking(old(Value()), Value()) && ntUsed == old(ntUsed)
      ensures picked ==> used == old(used)[1..] && from == old(from) + [old(used)[0]]
      ensures !picked ==> used == old(used) && from == old(from) && used[0] < |regs| && !Gcable(regs[used[0]])
    {
      OtherThreads();
      var x := used[0];
      assert x in used;
      picked := Gcable(regs[x]);
      if picked {
        PickUsedKeepsValid(Value());
        used, from := used[1..], from + [x];
      }
    }

    // The second loop of pop_used_region, with its number of attempts: queue order is kept.
    method PopTemporalUsed() returns (picked: bool, tries: nat)
      requires Ready()
      modifies `regs, `used, `from
      ensures tries <= maxRetries + 2
      ensures Ready() && Picking(old(Value()), Value()) && ntUsed == old(ntUsed)
      ensures picked ==> old(used) != [] && used == old(used)[1..] && from == old(from) + [old(used)[0]]
      ensures !picked ==> used == old(used) && from == old(from)
      ensures !picked && used != [] ==> used[0] < |regs| && !Gcable(old(regs)[used[0]])
    {
      ghost var m := Value();
      picked, tries := false, 0;
      while used != [] && tries <= maxRetries + 1  // retry_times++ <= kPickRegionMaxRetryTimes
        invariant Ready() && Picking(m, Value()) && ntUsed == m.ntUsed && used == m.used && from == m.from && !picked
        invariant tries <= maxRetries + 2
        invariant used != [] && 0 < tries ==> used[0] < |regs| && !Gcable(m.regs[used[0]])
        decreases maxRetries + 2 - tries
      {
        ghost var before := Value();
        picked := TryPopUsed();
        PickingTwice(m, before, Value());
        tries := tries + 1;
        if picked {
          break;
        }
        BusyBefore(m, Value(), used[0]);
      }
    }

    // pop_used_region followed by from_regions_.push_back.
    method PopUsedRegion() returns (picked: bool)
      requires Ready()
      modifies `regs, `used, `ntUsed, `from
      ensures Ready() && Picking(old(Value()), Value())
      ensures |from| == |old(from)| + if picked then 1 else 0
      ensures old(from) <= from
      ensures !picked ==> used == old(used) && (used != [] ==> used[0] < |regs| && !Gcable(old(regs)[used[0]]))
      ensures !picked && ntUsed != [] ==> forall n: nat :: n < maxRetries + 2 ==> FrontBusy(old(Value()), n)
      ensures !picked ==> RearBusy(old(regs), ntUsed, maxRetries + 2) && HeadBusy(old(regs), used)
      // A temporal region is taken only when no collectable nt one was met.
      ensures used != old(used) ==> Bag(ntUsed) == Bag(old(ntUsed)) && RearBusy(old(regs), ntUsed, maxRetries + 2)
    {
      ghost var m := Value();
      var rotations;
      picked, rotations := PopNtUsed();
      if !picked {
        ghost var mid := Value();
        var tries;
        picked, tries := PopTemporalUsed();
        PickingTwice(m, mid, Value());
        if !picked && used != [] {
          BusyBefore(m, mid, used[0]);
        }
      }
    }

    // pick_from_regions; `target` is num_regions_per_gc_round.
    method PickFromRegions(target: nat)
      requires Ready() && from == []  // from_regions_.clear() drops only moved-from regions
      modifies `regs, `used, `ntUsed, `from
      ensures Ready() && Picking(old(Value()), Value())
      ensures |from| <= if target == 0 then 1 else target
      // It stops early only when neither loop of the last pop met a collectable region.
      ensures |from| < (if target == 0 then 1 else target) ==>
                HeadBusy(old(regs), used) && RearBusy(old(regs), ntUsed, maxRetries + 2)
      ensures Bag(used) + Bag(ntUsed) + Bag(from) == Bag(old(used)) + Bag(old(ntUsed))
      ensures forall x <- from :: x in old(used) || x in old(ntUsed)
      ensures forall x <- from :: x < |regs| && Gcable(regs[x]) && regs[x].pending == {}
      ensures forall i, j :: 0 <= i < j < |from| ==> from[i] != from[j]
      ensures forall x <- from :: x !in free && x !in used && x !in ntUsed && x !in slots
    {
      hide ValidBut, RearBusy, HeadBusy, FrontBusy;
      ghost var m := Value();
      var picked := PopUsedRegion();
      while picked && |from| < target
        invariant Ready() && Picking(m, Value())
        invariant |from| <= if target == 0 then 1 else target
        invariant !picked ==> HeadBusy(m.regs, used) && RearBusy(m.regs, ntUsed, maxRetries + 2)
        invariant picked ==> 0 < |from|
        decreases picked, target - |from|
      {
        ghost var mid := Value();
        picked := PopUsedRegion();
        PickingTwice(m, mid, Value());
        RearBusyBefore(m, mid, ntUsed, maxRetries + 2);
        RearBusyBefore(m, mid, used, 0);
      }
      SameRest(m, Value());
      PickedAlone(Value());
      PickedWereUsed(m, Value());
    }

    // push_free_region for the first region of from_regions_.
    method PushFree()
      requires Ready() && from != []
      modifies `regs, `free, `from
      ensures Ready() && old(from)[0] < |old(regs)| && Value() == Recycle(old(Value()))
    {
      RecycleKeepsValid(Value());
      regs := regs[from[0] := EmptyReg(false)];
      assert |free| < capacity;  // BUG_ON(!free_regions_.push_back(region))
      free, from := free + [from[0]], from[1..];
    }
  }

  // ratio_per_gc_round: how far the free ratio is below the threshold, clamped.
  function RoundRatio(minRatio: real, maxRatio: real, high: real, free: real): real {
    var capped := if high - free < maxRatio then high - free else maxRatio;
    if capped < minRatio then minRatio else capped
  }

  // static_cast<uint32_t>(ratio * num_regions)
  function Portion(ratio: real, regions: nat): nat
    requires 0.0 <= ratio
  {
    Scale(0.0, ratio, regions as real);
    (ratio * regions as real).Floor
  }

  lemma Scale(a: real, b: real, n: real)
    requires a <= b && 0.0 <= n
    ensures a * n <= b * n
  {
  }

  lemma PortionGrows(a: real, b: real, regions: nat)
    requires 0.0 <= a <= b
    ensures Portion(a, regions) <= Portion(b, regions)
  {
    var n := regions as real;
    Scale(a, b, n);
    FloorGrows(a * n, b * n);
  }

  lemma FloorGrows(a: real, b: real)
    requires a <= b
    ensures a.Floor <= b.Floor
  {
  }

  // num_regions_per_gc_round
  function RoundTarget(minRatio: real, maxRatio: real, high: real, free: real, maxRegions: nat, regions: nat): nat
    requires 0.0 <= minRatio
  {
    var n := Portion(RoundRatio(minRatio, maxRatio, high, free), regions);
    if n < maxRegions then n else maxRegions
  }

  // For every free ratio the target lies between the portions of the two clamps, unless the fixed
  // maximum cuts it; the fuller the cache, the larger it is.
  lemma RoundTargetIsClamped(minRatio: real, maxRatio: real, high: real, free: real, less: real, maxRegions: nat,
      regions: nat)
    requires 0.0 <= minRatio <= maxRatio && less <= free
    ensures var n := RoundTarget(minRatio, maxRatio, high, free, maxRegions, regions);
            && n <= maxRegions && n <= Portion(maxRatio, regions)
            && (n < maxRegions ==> Portion(minRatio, regions) <= n)
            // between the clamps it is how far the free ratio lies below the threshold
            && (minRatio <= high - free <= maxRatio ==>
                  n == if Portion(high - free, regions) < maxRegions then Portion(high - free, regions) else maxRegions)
            && (high - free <= minRatio ==>
                  n == if Portion(minRatio, regions) < maxRegions then Portion(minRatio, regions) else maxRegions)
            && (maxRatio <= high - free ==>
                  n == if Portion(maxRatio, regions) < maxRegions then Portion(maxRatio, regions) else maxRegions)
            && n <= RoundTarget(minRatio, maxRatio, high, less, maxRegions, regions)
  {
    hide Portion;
    var a, b := RoundRatio(minRatio, maxRatio, high, free), RoundRatio(minRatio, maxRatio, high, less);
    PortionGrows(minRatio, a, regions);
    PortionGrows(a, b, regions);
    PortionGrows(a, maxRatio, regions);
  }
}
