/**
 The region manager (RegionManager in aifm_changes/manager.cpp) and the allocation loops on it.

 `Mgr` is its whole state.  A queue holds region indices; the source moves whole `Region` values
 between its buffers, so an index stands for the one live value with that region_idx_, and -1
 (Region::kInvalidIdx) for a moved-from one.  Addresses are index * SIZE + offset: for far memory
 that is the remote object id, for the cache it is relative to the start of the mapping.
 */
module RegionManagers {
  import opened Regions

  const INVALID: int := -1  // Region::kInvalidIdx

  datatype Mgr = Mgr(
    local: bool,
    regs: seq<Reg>,     // by region_idx_
    free: seq<nat>,     // free_regions_
    used: seq<nat>,     // used_regions_
    ntUsed: seq<nat>,   // nt_used_regions_
    from: seq<nat>,     // from_regions_ of the collector
    slots: seq<int>)    // core-local regions: 2 * core, and 2 * core + 1 for nt

  // ---------- every region has exactly one holder ----------

  ghost function Bag(s: seq<int>): multiset<int> {
    multiset(s)
  }

  ghost function Owned(m: Mgr): multiset<int> {
    Bag(m.free) + Bag(m.used) + Bag(m.ntUsed) + Bag(m.from) + Bag(m.slots)[INVALID := 0]
  }

  ghost predicate Conserved(m: Mgr) {
    forall x: int :: Owned(m)[x] == if 0 <= x < |m.regs| then 1 else 0
  }

  // A free region is empty, a queued one full, a picked one has no half-written object, and a
  // core-local one can still be allocated from (`full` names the slots that failed to and await a refill).
  ghost predicate Roles(m: Mgr, full: set<int>) {
    && (forall x <- m.free :: x < |m.regs| && m.regs[x] == EmptyReg(false))
    && (forall x <- m.used :: x < |m.regs| && m.regs[x].sealed)
    && (forall x <- m.ntUsed :: x < |m.regs| && m.regs[x].sealed)
    && (forall x <- m.from :: x < |m.regs| && m.regs[x].sealed && Gcable(m.regs[x]))
    && (forall k :: 0 <= k < |m.slots| ==> SlotOk(m, k, full))
  }

  ghost predicate SlotOk(m: Mgr, k: nat, full: set<int>)
    requires k < |m.slots|
  {
    var x := m.slots[k];
    x == INVALID
    || (0 <= x < |m.regs| && m.regs[x].nt == (m.local && k % 2 == 1) && (m.regs[x].sealed <==> k in full))
  }

  ghost predicate Regular(m: Mgr) {
    forall x :: 0 <= x < |m.regs| ==> Ok(m.regs[x]) && (!m.local ==> m.regs[x].pending == {})
  }

  ghost predicate ValidBut(m: Mgr, full: set<int>) {
    Conserved(m) && Regular(m) && Roles(m, full)
  }

  ghost predicate Valid(m: Mgr) {
    ValidBut(m, {})
  }

  lemma OneHolder(m: Mgr, x: int)
    requires Conserved(m) && 0 <= x < |m.regs|
    ensures Bag(m.free)[x] + Bag(m.used)[x] + Bag(m.ntUsed)[x] + Bag(m.from)[x] + Bag(m.slots)[x] == 1
  {
    assert Owned(m)[x] == 1;
  }

  // The regions under collection are distinct and held by nobody else.
  lemma PickedAreAlone(m: Mgr, i: nat, j: nat)
    requires Conserved(m) && i < |m.from| && j < |m.from| && m.from[i] < |m.regs|
    ensures i != j ==> m.from[i] != m.from[j]
    ensures m.from[i] !in m.free && m.from[i] !in m.used && m.from[i] !in m.ntUsed
    ensures forall k :: 0 <= k < |m.slots| ==> m.slots[k] != m.from[i]
  {
    var x := m.from[i];
    OneHolder(m, x);
    assert Bag(m.from)[x] > 0;
    if i != j && m.from[j] == x {
      TwiceInBag(m.from, i, j);
    }
    forall k | 0 <= k < |m.slots| ensures m.slots[k] != x {
      assert m.slots[k] in Bag(m.slots);
    }
  }

  ghost function Numbers(n: nat): (b: multiset<int>)
    ensures |b| == n
    ensures forall x: int :: b[x] == if 0 <= x < n then 1 else 0
  {
    if n == 0 then multiset{} else Numbers(n - 1) + multiset{n - 1}
  }

  // The four queues and the core-local slots together hold as many regions as there are.
  lemma Cardinalities(m: Mgr)
    requires Conserved(m)
    ensures |m.free| + |m.used| + |m.ntUsed| + |m.from| + |m.slots| - Bag(m.slots)[INVALID] == |m.regs|
  {
    assert Owned(m) == Numbers(|m.regs|);
    assert |Bag(m.slots)[INVALID := 0]| == |m.slots| - Bag(m.slots)[INVALID];
  }

  lemma FrontAndRest(s: seq<int>)
    requires s != []
    ensures Bag(s) == multiset{s[0]} + Bag(s[1..])
  {
    assert s == [s[0]] + s[1..];
  }

  // ---------- refill ----------

  // The full core-local region goes to the used queue of its kind.
  function PushUsed(m: Mgr, k: nat): Mgr
    requires k < |m.slots|
  {
    var x := m.slots[k];
    if x < 0 || |m.regs| <= x then m
    else if m.local && m.regs[x].nt then m.(ntUsed := m.ntUsed + [x], slots := m.slots[k := INVALID])
    else m.(used := m.used + [x], slots := m.slots[k := INVALID])
  }

  predicate HasSlot(m: Mgr, k: nat)
    requires k < |m.slots|
  {
    0 <= m.slots[k] < |m.regs|
  }

  // The first free region becomes core-local.
  function PopFront(m: Mgr, k: nat): Mgr
    requires k < |m.slots|
  {
    if m.free == [] || |m.regs| <= m.free[0] then m else m.(free := m.free[1..], slots := m.slots[k := m.free[0]])
  }

  // set_nt() writes into the first bytes of the region's buffer.  The slot of a moved-from region has
  // no buffer of its own, and a far-memory region never has one; where such a write ends up depends
  // on what moving leaves behind, so it is no change of the slot's region here.
  predicate HasBuffer(m: Mgr, k: nat)
    requires k < |m.slots|
  {
    m.local && HasSlot(m, k)
  }

  function SetNt(m: Mgr, k: nat): Mgr
    requires k < |m.slots|
  {
    if HasBuffer(m, k) then m.(regs := m.regs[m.slots[k] := m.regs[m.slots[k]].(nt := true)]) else m
  }

  // In an nt slot set_nt() runs whether or not the pop succeeded.
  function PopFree(m: Mgr, k: nat): Mgr
    requires k < |m.slots|
  {
    if k % 2 == 1 then SetNt(PopFront(m, k), k) else PopFront(m, k)
  }

  function Refill(m: Mgr, k: nat): Mgr
    requires k < |m.slots|
  {
    PopFree(PushUsed(m, k), k)
  }

  lemma ClearSlot(slots: seq<int>, k: nat)
    requires k < |slots| && slots[k] != INVALID
    ensures Bag(slots)[INVALID := 0] == Bag(slots[k := INVALID])[INVALID := 0] + multiset{slots[k]}
    ensures Bag(slots)[INVALID] < |slots|
  {
    var b := Bag(slots)[INVALID := 0];
    assert |b| == |slots| - Bag(slots)[INVALID] && b[slots[k]] > 0;
  }

  lemma FillSlot(slots: seq<int>, k: nat, x: nat)
    requires k < |slots| && slots[k] == INVALID
    ensures Bag(slots[k := x])[INVALID := 0] == Bag(slots)[INVALID := 0] + multiset{x}
  {
  }

  lemma SlotsStayOk(m: Mgr, p: Mgr, k: nat, full: set<int>)
    requires k < |m.slots| && Roles(m, full)
    requires p.local == m.local && p.regs == m.regs && p.slots == m.slots[k := INVALID]
    ensures forall j :: 0 <= j < |p.slots| ==> SlotOk(p, j, full - {k})
  {
    forall j | 0 <= j < |p.slots| ensures SlotOk(p, j, full - {k}) {
      assert SlotOk(m, j, full);
    }
  }

  lemma PushUsedConserves(m: Mgr, k: nat, full: set<int>)
    requires k < |m.slots| && ValidBut(m, full)
    ensures Conserved(PushUsed(m, k))
    ensures m.slots[k] != INVALID ==> |m.used| < |m.regs| && |m.ntUsed| < |m.regs|
  {
    assert SlotOk(m, k, full);
    if m.slots[k] != INVALID {
      OneHolder(m, m.slots[k]);
      Cardinalities(m);
      ClearSlot(m.slots, k);
      assert Owned(PushUsed(m, k)) == Owned(m);
    }
  }

  lemma PushUsedKeepsValid(m: Mgr, k: nat, full: set<int>)
    requires k < |m.slots| && ValidBut(m, full) && (k in full || m.slots[k] == INVALID)
    ensures ValidBut(PushUsed(m, k), full - {k}) && PushUsed(m, k).slots[k] == INVALID
    ensures full <= {k} ==> Valid(PushUsed(m, k))
  {
    assert SlotOk(m, k, full);
    PushUsedConserves(m, k, full);
    assert m.slots == m.slots[k := m.slots[k]];
    SlotsStayOk(m, PushUsed(m, k), k, full);
    assert full <= {k} ==> full - {k} == {};
  }

  // A free region is empty and temporal, so all that changes in it is the nt flag.
  lemma PopFreeIs(m: Mgr, k: nat, full: set<int>)
    requires k < |m.slots| && ValidBut(m, full) && m.slots[k] == INVALID
    ensures m.free == [] ==> PopFree(m, k) == m
    ensures m.free != [] ==>
              && m.free[0] < |m.regs|
              && PopFree(m, k) == m.(free := m.free[1..], slots := m.slots[k := m.free[0]],
                                     regs := m.regs[m.free[0] := EmptyReg(m.local && k % 2 == 1)])
  {
    if m.free != [] {
      assert m.free[0] in m.free;
      assert m.regs == m.regs[m.free[0] := EmptyReg(false)];
    }
  }

  lemma PopFreeConserves(m: Mgr, k: nat, full: set<int>)
    requires k < |m.slots| && ValidBut(m, full) && m.slots[k] == INVALID && m.free != []
    ensures Conserved(PopFree(m, k))
  {
    PopFreeIs(m, k, full);
    hide PopFree;
    FrontAndRest(m.free);
    FillSlot(m.slots, k, m.free[0]);
    assert Owned(PopFree(m, k)) == Owned(m);
  }

  lemma PopFreeKeepsValid(m: Mgr, k: nat, full: set<int>)
    requires k < |m.slots| && ValidBut(m, full) && m.slots[k] == INVALID && k !in full
    ensures ValidBut(PopFree(m, k), full)
  {
    if m.free != [] {
      var x, p := m.free[0], PopFree(m, k);
      PopFreeIs(m, k, full);
      PopFreeConserves(m, k, full);
      hide PopFree;
      OneHolder(m, x);
      FrontAndRest(m.free);
      assert Bag(m.free[1..])[x] == 0;
      forall y | y in p.free ensures y < |p.regs| && p.regs[y] == EmptyReg(false) {
        assert y in m.free && y != x;
      }
      forall j | 0 <= j < |p.slots| ensures SlotOk(p, j, full) {
        assert SlotOk(m, j, full);
        assert j != k && m.slots[j] == x ==> Bag(m.slots)[x] > 0;
      }
    }
  }

  lemma RefillKeepsValid(m: Mgr, k: nat, full: set<int>)
    requires k < |m.slots| && ValidBut(m, full) && (k in full || m.slots[k] == INVALID)
    ensures ValidBut(Refill(m, k), full - {k})
    ensures full <= {k} ==> Valid(Refill(m, k))
    ensures Refill(m, k).slots[k] == if m.free == [] then INVALID else m.free[0]
  {
    PushUsedKeepsValid(m, k, full);
    PopFreeKeepsValid(PushUsed(m, k), k, full - {k});
    assert full <= {k} ==> full - {k} == {};
    assert m.free != [] ==> m.free[0] in m.free;
  }

  // A refill takes the front of the free queue, as an empty region, or leaves the slot invalid.
  lemma RefillIs(m: Mgr, k: nat, full: set<int>)
    requires k < |m.slots| && ValidBut(m, full) && (k in full || m.slots[k] == INVALID)
    ensures var r := Refill(m, k);
            && |r.regs| == |m.regs| && |r.slots| == |m.slots| && r.local == m.local && r.from == m.from
            && r.free == (if m.free == [] then [] else m.free[1..])
            && (m.free == [] ==> r.slots == m.slots[k := INVALID] && r.regs == m.regs)
            && (m.free != [] ==> m.free[0] < |m.regs| && r.slots == m.slots[k := m.free[0]]
                                 && r.regs == m.regs[m.free[0] := EmptyReg(m.local && k % 2 == 1)])
  {
    PushUsedKeepsValid(m, k, full);
    assert SlotOk(m, k, full);
    PopFreeIs(PushUsed(m, k), k, full - {k});
    hide PopFree;
  }

  // ---------- allocation ----------

  // One attempt in the core-local region.
  function Attempt(m: Mgr, k: nat, size: nat): Mgr
    requires k < |m.slots|
  {
    if HasSlot(m, k)
    then m.(regs := m.regs[m.slots[k] := WithObject(m.regs[m.slots[k]], m.local, size)])
    else m
  }

  // allocate_local_object_nb and allocate_remote_object: attempt, refill, attempt again.  The
  // length of the free queue bounds the retries for every size.
  function Alloc(m: Mgr, k: nat, size: nat): (Mgr, Option<nat>)
    requires k < |m.slots|
    decreases |m.free|
  {
    var tried := Attempt(m, k, size);
    if HasSlot(m, k) && Fits(m.regs[m.slots[k]], size) then
      (tried, Some(m.slots[k] * SIZE + m.regs[m.slots[k]].firstFree))
    else if m.free == [] || |m.regs| <= m.free[0] then
      (Refill(tried, k), None)
    else
      Alloc(Refill(tried, k), k, size)
  }

  // The slots that await a refill after an attempt in slot k.
  function FullAfter(m: Mgr, k: nat, size: nat, full: set<int>): set<int>
    requires k < |m.slots|
  {
    if HasSlot(m, k) && Fits(m.regs[m.slots[k]], size) then full else full + {k}
  }

  lemma AttemptKeepsSlots(m: Mgr, k: nat, size: nat, full: set<int>)
    requires k < |m.slots| && ValidBut(m, full) && 0 < size && k !in full
    ensures forall j :: 0 <= j < |m.slots| ==> SlotOk(Attempt(m, k, size), j, FullAfter(m, k, size, full))
  {
    var t := Attempt(m, k, size);
    assert SlotOk(m, k, full);
    if HasSlot(m, k) {
      OnlyInSlot(m, k);
      ObjectKeepsOk(m.regs[m.slots[k]], m.local, size);
    }
    forall j | 0 <= j < |t.slots| ensures SlotOk(t, j, FullAfter(m, k, size, full)) {
      assert SlotOk(m, j, full);
    }
  }

  lemma AttemptKeepsValid(m: Mgr, k: nat, size: nat, full: set<int> := {})
    requires k < |m.slots| && ValidBut(m, full) && 0 < size && k !in full
    ensures ValidBut(Attempt(m, k, size), FullAfter(m, k, size, full))
    ensures full == {} ==> FullAfter(m, k, size, full) == if HasSlot(m, k) && Fits(m.regs[m.slots[k]], size) then {}
              else {k}
  {
    AttemptKeepsSlots(m, k, size, full);
    if HasSlot(m, k) {
      OnlyInSlot(m, k);
      assert SlotOk(m, k, full);
      ObjectKeepsOk(m.regs[m.slots[k]], m.local, size);
      assert Owned(Attempt(m, k, size)) == Owned(m);
    }
  }

  lemma OnlyInSlot(m: Mgr, k: nat)
    requires k < |m.slots| && Conserved(m) && HasSlot(m, k)
    ensures var x := m.slots[k];
            && x !in m.free && x !in m.used && x !in m.ntUsed && x !in m.from
            && forall j :: 0 <= j < |m.slots| && j != k ==> m.slots[j] != x
  {
    var x := m.slots[k];
    OneHolder(m, x);
    assert Bag(m.slots)[x] > 0;
    forall j | 0 <= j < |m.slots| && j != k ensures m.slots[j] != x {
      if m.slots[j] == x {
        TwiceInBag(m.slots, j, k);
      }
    }
  }

  lemma TwiceInBag(s: seq<int>, i: nat, j: nat)
    requires i < |s| && j < |s| && i != j && s[i] == s[j]
    ensures Bag(s)[s[i]] >= 2
  {
    var t := s[i := s[i] + 1];
    assert t[j] == s[j];
    assert Bag(t)[s[j]] > 0;
    assert Bag(t) == Bag(s) - multiset{s[i]} + multiset{s[i] + 1};
  }

  // ---------- what an allocation does ----------

  predicate SameObjects(r: Reg, r': Reg) {
    r'.starts == r.starts && r'.sizes == r.sizes && r'.pending == r.pending && r'.refCnt == r.refCnt
  }

  predicate Added(r: Reg, r': Reg, local: bool, offset: nat, size: nat) {
    && offset !in r.starts && r'.starts == r.starts + [offset] && r'.sizes == r.sizes + [size]
    && r'.pending == (if local then r.pending + {offset} else r.pending)
  }

  // a is the start of an object that has not been recycled.
  predicate Live(m: Mgr, a: nat) {
    a / SIZE < |m.regs| && a % SIZE in m.regs[a / SIZE].starts
  }

  // The object at a was allocated but its header is not written yet.
  predicate Pending(m: Mgr, a: nat) {
    a / SIZE < |m.regs| && a % SIZE in m.regs[a / SIZE].pending
  }

  // No region changed its objects, except that the one of address a (if any) got one more.
  ghost predicate OnlyAdds(m: Mgr, m': Mgr, a: Option<nat>, size: nat) {
    && m'.local == m.local && |m'.regs| == |m.regs| && |m'.slots| == |m.slots| && m'.from == m.from
    && (a.Some? ==> a.value / SIZE < |m.regs|)
    && forall x :: 0 <= x < |m.regs| ==>
         if a.Some? && x == a.value / SIZE
         then Added(m.regs[x], m'.regs[x], m.local, a.value % SIZE, size)
         else SameObjects(m.regs[x], m'.regs[x])
  }

  lemma AddressOf(x: nat, offset: nat)
    requires offset < SIZE
    ensures (x * SIZE + offset) / SIZE == x && (x * SIZE + offset) % SIZE == offset
  {
  }

  lemma ObjectAdds(r: Reg, local: bool, size: nat)
    requires Ok(r) && !r.sealed && 0 < size
    ensures HEADER <= r.firstFree < SIZE
    ensures if Fits(r, size) then Added(r, WithObject(r, local, size), local, r.firstFree, size)
            else SameObjects(r, WithObject(r, local, size))
  {
    ObjectKeepsOk(r, local, size);
    EndPastHeader(r);
    hide Ok;
  }

  // One attempt either adds the object at the end of the core-local region or changes no object.
  lemma AttemptAdds(m: Mgr, k: nat, size: nat, full: set<int> := {})
    requires k < |m.slots| && ValidBut(m, full) && k !in full && 0 < size
    ensures if HasSlot(m, k) && Fits(m.regs[m.slots[k]], size)
            then OnlyAdds(m, Attempt(m, k, size), Some(m.slots[k] * SIZE + m.regs[m.slots[k]].firstFree), size)
            else OnlyAdds(m, Attempt(m, k, size), None, size)
  {
    if HasSlot(m, k) {
      assert SlotOk(m, k, full) && Ok(m.regs[m.slots[k]]);
      hide ValidBut, Ok, WithObject, Added, Fits;
      ObjectAdds(m.regs[m.slots[k]], m.local, size);
      AddressOf(m.slots[k], m.regs[m.slots[k]].firstFree);
    }
  }

  lemma RefillAddsNone(m: Mgr, r: Mgr, k: nat, size: nat, full: set<int>)
    requires k < |r.slots| && ValidBut(r, full) && (k in full || r.slots[k] == INVALID) && OnlyAdds(m, r, None, size)
    ensures OnlyAdds(m, Refill(r, k), None, size)
  {
    assert r.free != [] ==> r.free[0] in r.free;
    RefillIs(r, k, full);
    hide Refill, ValidBut;
  }

  lemma AddsCompose(m: Mgr, r: Mgr, m': Mgr, a: Option<nat>, size: nat)
    requires OnlyAdds(m, r, None, size) && OnlyAdds(r, m', a, size)
    ensures OnlyAdds(m, m', a, size)
  {
  }

  lemma FreeFront(m: Mgr)
    requires Valid(m) && m.free != []
    ensures m.free[0] < |m.regs|
  {
    assert m.free[0] in m.free;
  }

  lemma EndInside(m: Mgr, x: nat)
    requires Valid(m) && x < |m.regs|
    ensures m.regs[x].firstFree < SIZE
  {
  }

  // The allocator keeps the manager valid and returns an address nobody owns, in a region that is
  // core-local and so neither free, queued nor being collected.
  lemma {:induction false} AllocEffect(m: Mgr, k: nat, size: nat)
    requires k < |m.slots| && Valid(m) && 0 < size
    ensures var (m', a) := Alloc(m, k, size);
            && Valid(m') && OnlyAdds(m, m', a, size)
            && (a.Some? ==> m'.slots[k] == a.value / SIZE)
            && (a.None? ==> m'.free == [] && m'.slots[k] == INVALID)
    decreases |m.free|
  {
    hide Conserved, Roles, Regular;
    var tried := Attempt(m, k, size);
    AttemptKeepsValid(m, k, size);
    AttemptAdds(m, k, size);
    if !(HasSlot(m, k) && Fits(m.regs[m.slots[k]], size)) {
      RefillKeepsValid(tried, k, {k});
      RefillAddsNone(m, tried, k, size, {k});
      if m.free != [] {
        FreeFront(m);
        var r := Refill(tried, k);
        AllocEffect(r, k, size);
        AddsCompose(m, r, Alloc(r, k, size).0, Alloc(r, k, size).1, size);
      }
    } else {
      EndInside(m, m.slots[k]);
      AddressOf(m.slots[k], m.regs[m.slots[k]].firstFree);
    }
  }

  // The object lands in the region of the slot asked for, which is of the slot's kind.
  lemma AllocKind(m: Mgr, k: nat, size: nat)
    requires k < |m.slots| && Valid(m) && 0 < size
    ensures var (m', a) := Alloc(m, k, size);
            a.Some? ==>
              && a.value / SIZE < |m'.regs| && k < |m'.slots| && m'.slots[k] == a.value / SIZE
              && m'.regs[a.value / SIZE].nt == (m.local && k % 2 == 1)
  {
    AllocEffect(m, k, size);
    var (m', a) := Alloc(m, k, size);
    hide Alloc;
    assert a.Some? ==> SlotOk(m', k, {});
  }

  // For a size that fits an empty region it fails only with the free queue exhausted, and needs
  // at most one refill.
  lemma AllocSucceeds(m: Mgr, k: nat, size: nat)
    requires k < |m.slots| && Valid(m) && 0 < size && HEADER + Align(size) <= SIZE
    ensures var (m', a) := Alloc(m, k, size);
            var room := HasSlot(m, k) && Fits(m.regs[m.slots[k]], size);
            && (a.Some? <==> room || m.free != [])
            && m'.free == (if room || m.free == [] then m.free else m.free[1..])
            && (a.Some? ==> a.value / SIZE == if room then m.slots[k] else m.free[0])
  {
    hide ValidBut, WithObject;
    var tried := Attempt(m, k, size);
    AttemptKeepsValid(m, k, size);
    if HasSlot(m, k) && Fits(m.regs[m.slots[k]], size) {
      EndInside(m, m.slots[k]);
      AddressOf(m.slots[k], m.regs[m.slots[k]].firstFree);
    } else {
      RefillIs(tried, k, {k});
      hide Refill, Attempt;
      if m.free != [] {
        AddressOf(m.free[0], HEADER);
      }
    }
  }

  // For a size that fits no region it fails after moving every free region to a used queue.
  lemma {:induction false} AllocDrains(m: Mgr, k: nat, size: nat)
    requires k < |m.slots| && Valid(m) && SIZE < HEADER + Align(size)
    ensures var (m', a) := Alloc(m, k, size);
            && a.None? && m'.free == []
            && |m'.used| + |m'.ntUsed| == |m.used| + |m.ntUsed| + |m.free| + if HasSlot(m, k) then 1 else 0
    decreases |m.free|
  {
    var tried := Attempt(m, k, size);
    assert SlotOk(m, k, {});
    if HasSlot(m, k) {
      EndPastHeader(m.regs[m.slots[k]]);
    }
    AttemptKeepsValid(m, k, size);
    RefillKeepsValid(tried, k, {k});
    if m.free != [] {
      assert m.free[0] in m.free;
      AllocDrains(Refill(tried, k), k, size);
    }
  }

  // ---------- addresses ----------

  // An object of this size starts at address a.
  ghost predicate Holds(m: Mgr, a: nat, size: nat) {
    a / SIZE < |m.regs| && HoldsAt(m.regs[a / SIZE], a % SIZE, size)
  }

  ghost predicate HoldsAt(r: Reg, offset: nat, size: nat) {
    exists i :: 0 <= i < |r.starts| && i < |r.sizes| && r.starts[i] == offset && r.sizes[i] == size
  }

  lemma AddsMakeLive(m: Mgr, m': Mgr, a: Option<nat>, size: nat, b: nat)
    requires OnlyAdds(m, m', a, size)
    ensures Live(m', b) <==> Live(m, b) || a == Some(b)
    ensures Pending(m', b) <==> Pending(m, b) || (m.local && a == Some(b))
    ensures a == Some(b) ==>
              && !Live(m, b)
              && (|m.regs[b / SIZE].starts| == |m.regs[b / SIZE].sizes| ==> Holds(m', b, size))
  {
  }

  // An allocation makes exactly one address live, and no free, queued or collected region contains it.
  lemma AllocIsNew(m: Mgr, k: nat, size: nat)
    requires k < |m.slots| && Valid(m) && 0 < size
    ensures var (m', a) := Alloc(m, k, size);
            && (forall b: nat :: Live(m', b) <==> Live(m, b) || a == Some(b))
            && (forall b: nat :: Pending(m', b) <==> Pending(m, b) || (m.local && a == Some(b)))
            && (a.Some? ==>
                  && !Live(m, a.value) && Holds(m', a.value, size)
                  && a.value / SIZE !in m'.free + m'.used + m'.ntUsed + m'.from)
  {
    AllocEffect(m, k, size);
    var (m', a) := Alloc(m, k, size);
    forall b: nat
      ensures Live(m', b) <==> Live(m, b) || a == Some(b)
      ensures Pending(m', b) <==> Pending(m, b) || (m.local && a == Some(b))
    {
      AddsMakeLive(m, m', a, size, b);
    }
    if a.Some? {
      AddsMakeLive(m, m', a, size, a.value);
      assert Ok(m.regs[a.value / SIZE]);
      OnlyInSlot(m', k);
    }
  }

  lemma AttemptKeepsFrom(m: Mgr, k: nat, size: nat, y: nat)
    requires k < |m.slots| && Conserved(m) && y in m.from && y < |m.regs|
    ensures Attempt(m, k, size).regs[y] == m.regs[y]
  {
    if HasSlot(m, k) {
      OnlyInSlot(m, k);
    }
  }

  lemma RefillKeepsFrom(m: Mgr, k: nat, y: nat)
    requires k < |m.slots| && Conserved(m) && y in m.from && y < |m.regs|
    ensures |Refill(m, k).regs| == |m.regs| && Refill(m, k).regs[y] == m.regs[y] && Refill(m, k).from == m.from
  {
    OneHolder(m, y);
    assert m.free != [] ==> m.free[0] in m.free;
  }

  // An allocation leaves every region under collection exactly as it was.
  lemma {:induction false} AllocKeepsFrom(m: Mgr, k: nat, size: nat, y: nat)
    requires k < |m.slots| && Valid(m) && 0 < size && y in m.from && y < |m.regs|
    ensures var m' := Alloc(m, k, size).0;
            |m'.regs| == |m.regs| && m'.regs[y] == m.regs[y] && m'.from == m.from
    decreases |m.free|
  {
    var tried := Attempt(m, k, size);
    AttemptKeepsFrom(m, k, size, y);
    if !(HasSlot(m, k) && Fits(m.regs[m.slots[k]], size)) {
      AttemptKeepsValid(m, k, size);
      RefillKeepsFrom(tried, k, y);
      if m.free != [] {
        assert m.free[0] in m.free;
        RefillKeepsValid(tried, k, {k});
        AllocKeepsFrom(Refill(tried, k), k, size, y);
      }
    }
  }

  // A live object lies inside the buffer of its own region, behind the region's header.
  lemma LiveObjectIsInside(m: Mgr, a: nat, size: nat)
    requires Valid(m) && Holds(m, a, size)
    ensures 0 < size && a / SIZE * SIZE + HEADER <= a && a + Align(size) <= (a / SIZE + 1) * SIZE <= |m.regs| * SIZE
  {
    var r := m.regs[a / SIZE];
    var i :| 0 <= i < |r.starts| && i < |r.sizes| && r.starts[i] == a % SIZE && r.sizes[i] == size;
    GridIsOrdered(r.starts, r.sizes, r.firstFree, i, |r.starts|);
  }

  // Any two live objects lie apart.
  lemma LiveObjectsAreDisjoint(m: Mgr, a: nat, size: nat, b: nat, size': nat)
    requires Valid(m) && Holds(m, a, size) && Holds(m, b, size') && a != b
    ensures a + Align(size) <= b || b + Align(size') <= a
  {
    hide Conserved, Roles;
    var r, r' := m.regs[a / SIZE], m.regs[b / SIZE];
    if a / SIZE == b / SIZE {
      var i :| 0 <= i < |r.starts| && i < |r.sizes| && r.starts[i] == a % SIZE && r.sizes[i] == size;
      var j :| 0 <= j < |r.starts| && j < |r.sizes| && r.starts[j] == b % SIZE && r.sizes[j] == size';
      if i < j {
        GridIsOrdered(r.starts, r.sizes, r.firstFree, i, j);
      } else if j < i {
        GridIsOrdered(r.starts, r.sizes, r.firstFree, j, i);
      }
    } else {
      LiveObjectIsInside(m, a, size);
      LiveObjectIsInside(m, b, size');
    }
  }

  // ---------- picking and recycling ----------

  // The queue after its front has gone to the back n times.
  function Rotate(q: seq<nat>, n: nat): seq<nat>
    decreases n
  {
    if n == 0 || q == [] then q else Rotate(q[1..] + [q[0]], n - 1)
  }

  lemma {:induction false} RotateOnce(q: seq<nat>, n: nat)
    requires q != []
    ensures |Rotate(q, n)| == |q| && Bag(Rotate(q, n)) == Bag(q)
    ensures Rotate(q, n + 1) == Rotate(q, n)[1..] + [Rotate(q, n)[0]]
    decreases n
  {
    if n != 0 {
      assert q == [q[0]] + q[1..];
      RotateOnce(q[1..] + [q[0]], n - 1);
    }
  }

  // m' is m after other threads have finished initialising some objects.
  ghost predicate Quieter(m: Mgr, m': Mgr) {
    && m' == m.(regs := m'.regs) && |m'.regs| == |m.regs|
    && forall x :: 0 <= x < |m.regs| ==>
         && m'.regs[x] == m.regs[x].(pending := m'.regs[x].pending, refCnt := m'.regs[x].refCnt)
         && m'.regs[x].pending <= m.regs[x].pending && m'.regs[x].refCnt == |m'.regs[x].pending|
  }

  // A ref count only falls: a collectable region stays collectable.
  lemma GcableStays(m: Mgr, m': Mgr, x: nat)
    requires Quieter(m, m') && Regular(m) && x < |m.regs|
    ensures Gcable(m.regs[x]) ==> Gcable(m'.regs[x])
  {
  }

  lemma QuieterKeepsValid(m: Mgr, m': Mgr, full: set<int> := {})
    requires Quieter(m, m') && ValidBut(m, full)
    ensures ValidBut(m', full)
  {
    forall x | 0 <= x < |m.regs| ensures Gcable(m.regs[x]) ==> Gcable(m'.regs[x]) {
      GcableStays(m, m', x);
    }
    forall x <- m.free ensures m'.regs[x] == EmptyReg(false) {
      assert m.regs[x] == EmptyReg(false) && m'.regs[x].pending == {};
    }
    forall k | 0 <= k < |m.slots| ensures SlotOk(m', k, full) {
      assert SlotOk(m, k, full);
    }
    assert Owned(m') == Owned(m);
  }

  lemma SameSlots(m: Mgr, p: Mgr, full: set<int>)
    requires Roles(m, full) && p.local == m.local && p.regs == m.regs && p.slots == m.slots
    ensures forall k :: 0 <= k < |p.slots| ==> SlotOk(p, k, full)
  {
    forall k | 0 <= k < |p.slots| ensures SlotOk(p, k, full) {
      assert SlotOk(m, k, full);
    }
  }

  lemma RotationKeepsValid(m: Mgr, q: seq<nat>, full: set<int> := {})
    requires ValidBut(m, full) && Bag(q) == Bag(m.ntUsed)
    ensures ValidBut(m.(ntUsed := q), full)
  {
    var p := m.(ntUsed := q);
    assert Owned(p) == Owned(m);
    forall x <- q ensures x in m.ntUsed {
      assert Bag(q)[x] > 0;
    }
    SameSlots(m, p, full);
  }

  // A collectable region leaves the front of a used queue for the from list.
  function PickUsed(m: Mgr): Mgr
    requires m.used != []
  {
    m.(used := m.used[1..], from := m.from + [m.used[0]])
  }

  function PickNt(m: Mgr): Mgr
    requires m.ntUsed != []
  {
    m.(ntUsed := m.ntUsed[1..], from := m.from + [m.ntUsed[0]])
  }

  lemma PickUsedKeepsValid(m: Mgr, full: set<int> := {})
    requires ValidBut(m, full) && m.used != [] && m.used[0] < |m.regs| && Gcable(m.regs[m.used[0]])
    ensures ValidBut(PickUsed(m), full)
  {
    FrontAndRest(m.used);
    assert m.used[0] in m.used;
    assert Owned(PickUsed(m)) == Owned(m);
    SameSlots(m, PickUsed(m), full);
  }

  lemma PickNtKeepsValid(m: Mgr, full: set<int> := {})
    requires ValidBut(m, full) && m.ntUsed != [] && m.ntUsed[0] < |m.regs| && Gcable(m.regs[m.ntUsed[0]])
    ensures ValidBut(PickNt(m), full)
  {
    FrontAndRest(m.ntUsed);
    assert m.ntUsed[0] in m.ntUsed;
    assert Owned(PickNt(m)) == Owned(m);
    SameSlots(m, PickNt(m), full);
  }

  // push_free_region on the first from-region.
  function Recycle(m: Mgr): Mgr
    requires m.from != [] && m.from[0] < |m.regs|
  {
    m.(regs := m.regs[m.from[0] := EmptyReg(false)], from := m.from[1..], free := m.free + [m.from[0]])
  }

  lemma RecycleConserves(m: Mgr, full: set<int>)
    requires ValidBut(m, full) && m.from != []
    ensures m.from[0] < |m.regs| && |m.free| < |m.regs| && Conserved(Recycle(m))
  {
    assert m.from[0] in m.from;
    Cardinalities(m);
    SlotsBound(m.slots);
    FrontAndRest(m.from);
    assert Owned(Recycle(m)) == Owned(m);
  }

  // The recycled region has no other holder, so emptying it disturbs nobody.
  lemma RecycleKeepsValid(m: Mgr, full: set<int> := {})
    requires ValidBut(m, full) && m.from != []
    ensures m.from[0] < |m.regs| && |m.free| < |m.regs| && ValidBut(Recycle(m), full)
  {
    RecycleConserves(m, full);
    var x, p := m.from[0], Recycle(m);
    OneHolder(m, x);
    FrontAndRest(m.from);
    assert Bag(m.from[1..])[x] == 0 && Bag(m.used)[x] == 0 && Bag(m.ntUsed)[x] == 0 && Bag(m.slots)[x] == 0;
    forall y <- p.from ensures y < |p.regs| && p.regs[y].sealed && Gcable(p.regs[y]) {
      assert y in m.from && y != x;
    }
    forall k | 0 <= k < |m.slots| ensures SlotOk(p, k, full) {
      assert SlotOk(m, k, full) && m.slots[k] in Bag(m.slots);
    }
  }

  lemma RecycleFrees(m: Mgr, a: nat)
    requires Valid(m) && m.from != [] && m.from[0] < |m.regs|
    ensures Live(Recycle(m), a) <==> Live(m, a) && a / SIZE != m.from[0]
  {
  }

  lemma SlotsBound(slots: seq<int>)
    ensures Bag(slots)[INVALID] <= |slots|
  {
  }
}
