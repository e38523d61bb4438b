/**
 Remote object ids.  An id is the address an attempt in a far-memory region obtains; these regions
 are never recycled, so in no interleaving of cores an id is handed out twice, and the ceil
 arithmetic of the region count keeps every id inside the 38 bits a metadata word has for it.
 */
module RemoteIds {
  import opened PtrMeta
  import opened Regions
  import opened RegionManagers
  import opened RegionManagement
  import opened RegionRuns
  import opened FarMemory
  import Evacuation
  import CacheHeaps

  const ID_SPACE: nat := 0x40_0000_0000  // 1 << kObjectIDBitSize

  // No interleaving hands out an id twice, nor one that was live before; all of them lie in the regions.
  lemma IdsAreUnique(s: State, ops: seq<Op>)
    requires Inv(s) && Runs(s, ops) && NeverRecycles(ops)
    ensures var ids := Obtained(s, ops);
            && Distinct(ids)
            && (forall id <- ids :: !Live(s.m, id))
            && (forall id <- ids :: id < |s.m.regs| * SIZE)
  {
    hide Inv;
    AddressesAreUnique(s, ops);
    forall id <- Obtained(s, ops) ensures id < |s.m.regs| * SIZE {
      BelowRegions(id, |s.m.regs|);
    }
  }

  lemma BelowRegions(a: nat, count: nat)
    requires a / SIZE < count
    ensures a < count * SIZE
  {
  }

  // Far memory below 2^38 bytes has no region beyond 2^38, although the region count rounds up.
  lemma CountFits(size: nat, a: nat)
    requires size < ID_SPACE && a / SIZE < RegionCount(size)
    ensures a < ID_SPACE
  {
  }

  // Every id of every interleaving survives the metadata word, when no core lacks its reservation.
  lemma RemoteIdsFit(m: Mgr, cores: nat, reserved: nat, size: nat, ops: seq<Op>)
    requires size < ID_SPACE && 2 * reserved < RegionCount(size) && cores <= reserved
    requires Initial(m, cores, RegionCount(size) - 2 * reserved)
    requires Runs(State(m, {}), ops) && NeverRecycles(ops)
    ensures var ids := Obtained(State(m, {}), ops);
            Distinct(ids) && forall id <- ids :: id < ID_SPACE
  {
    InitialIsValid(m, cores, RegionCount(size) - 2 * reserved);
    AddressesAreUnique(State(m, {}), ops);
    forall id <- Obtained(State(m, {}), ops) ensures id < ID_SPACE {
      CountFits(size, id);
    }
  }

  // What gc_wb writes into a word always fits its fields, so swap_in finds the object again.
  lemma WriteBackFits(
      s: Evacuation.Sys, c: Mgr, f: Mgr, next: map<Ptr, Ptr>, rings: map<Ptr, seq<Ptr>>, p: Ptr, size: nat)
    requires CacheHeaps.Sound(s, c, f, next, rings) && p in s.mem.ptrs && s.mem.ptrs[p].Local?
    requires size < ID_SPACE && |f.regs| <= RegionCount(size)
    ensures KeyOf(s.mem, p).id < ID_SPACE
    ensures SizeOf(s.mem.header, Content(s.mem, p)) < 0x1_0000
  {
    assert PtrOk(s.mem, p) && Live(f, KeyOf(s.mem, p).id);
    CountFits(size, KeyOf(s.mem, p).id);
    hide MemOk, CacheHeaps.Rings, CacheHeaps.IdsLive, ValidBut, RegionManagers.Holds;
    LiveObjectIsInside(c, s.mem.ptrs[p].addr, SizeOf(s.mem.header, Content(s.mem, p)));
  }

  // ---------- without the reservation ----------

  lemma FilledRegion(r: Reg, local: bool)
    requires Ok(r) && !r.sealed && Fits(r, FILLER)
    ensures !Fits(WithObject(r, local, FILLER), FILLER)
  {
    EndPastHeader(r);
  }

  // One object that fills the region of slot 0.
  lemma FillFirst(s: State) returns (t: State, id: nat)
    requires Inv(s) && s.full == {} && 0 < |s.m.slots| && HasSlot(s.m, 0) && Fits(s.m.regs[s.m.slots[0]], FILLER)
    ensures Enabled(s, Try(0, FILLER)) && t == Do(s, Try(0, FILLER)) && Obtains(s, Try(0, FILLER)) == Some(id)
    ensures Inv(t) && t.full == {} && t.m.free == s.m.free && t.m.slots == s.m.slots && |t.m.regs| == |s.m.regs|
    ensures HasSlot(t.m, 0) && !Fits(t.m.regs[t.m.slots[0]], FILLER) && id / SIZE == s.m.slots[0]
  {
    var x := s.m.slots[0];
    assert SlotOk(s.m, 0, {}) && Ok(s.m.regs[x]);
    StepKeepsInv(s, Try(0, FILLER));
    t, id := Do(s, Try(0, FILLER)), x * SIZE + s.m.regs[x].firstFree;
    hide Inv;
    FilledRegion(s.m.regs[x], s.m.local);
    EndPastHeader(s.m.regs[x]);
    AddressOf(x, s.m.regs[x].firstFree);
  }

  // The full region of slot 0 makes way for the front of the free queue.
  lemma NextFirst(s: State) returns (t: State, u: State)
    requires Inv(s) && s.full == {} && 0 < |s.m.slots| && s.m.free != []
    requires HasSlot(s.m, 0) && !Fits(s.m.regs[s.m.slots[0]], FILLER)
    ensures Enabled(s, Try(0, FILLER)) && t == Do(s, Try(0, FILLER)) && Obtains(s, Try(0, FILLER)).None?
    ensures Enabled(t, Renew(0)) && u == Do(t, Renew(0))
    ensures Inv(u) && u.full == {} && u.m.free == s.m.free[1..] && 0 < |u.m.slots| && |u.m.regs| == |s.m.regs|
    ensures HasSlot(u.m, 0) && u.m.slots[0] == s.m.free[0] && Fits(u.m.regs[u.m.slots[0]], FILLER)
  {
    t := Do(s, Try(0, FILLER));
    StepKeepsInv(s, Try(0, FILLER));
    u := Do(t, Renew(0));
    StepKeepsInv(t, Renew(0));
    RefillIs(t.m, 0, t.full);
    hide Inv, Refill;
  }

  // Attempts that each fill a region work through the whole free queue.
  lemma {:induction false} LastRegionIsReached(s: State) returns (ops: seq<Op>, id: nat)
    requires Inv(s) && s.full == {} && 0 < |s.m.slots| && s.m.free != []
    requires HasSlot(s.m, 0) && !Fits(s.m.regs[s.m.slots[0]], FILLER)
    ensures Runs(s, ops) && NeverRecycles(ops) && id in Obtained(s, ops) && id / SIZE == s.m.free[|s.m.free| - 1]
    decreases |s.m.free|
  {
    var t, u := NextFirst(s);
    var v, first := FillFirst(u);
    hide Inv, Enabled, Do, Obtains;
    ops, id := [], first;
    if |s.m.free| > 1 {
      ops, id := LastRegionIsReached(v);
    }
    var last := [Try(0, FILLER)] + ops;
    assert last[1..] == ops && Runs(u, last) && id in Obtained(u, last);
    RunsTwo(s, Try(0, FILLER), Renew(0), last);
    ops := [Try(0, FILLER), Renew(0)] + last;
  }

  // With at least one core, some run gets an id of the very last region.
  lemma SomeIdIsLast(m: Mgr, cores: nat, free: nat) returns (ops: seq<Op>, id: nat)
    requires Initial(m, cores, free) && 0 < cores && 0 < free
    ensures Runs(State(m, {}), ops) && NeverRecycles(ops)
    ensures id in Obtained(State(m, {}), ops) && id / SIZE == |m.regs| - 1
  {
    InitialIsValid(m, cores, free);
    assert m.slots[0] == 0;
    var t, first := FillFirst(State(m, {}));
    hide Inv, Enabled, Do, Obtains;
    var rest;
    rest, id := LastRegionIsReached(t);
    ops := [Try(0, FILLER)] + rest;
    assert ops[1..] == rest;
  }

  // Every id of every run lies in far memory.
  ghost predicate IdsInside(m: Mgr, count: nat) {
    forall ops | Runs(State(m, {}), ops) && NeverRecycles(ops) ::
      forall id <- Obtained(State(m, {}), ops) :: InMapping(id / SIZE, count)
  }

  // That is so if and only if no core lacks its reservation.
  lemma IdsStayInside(m: Mgr, cores: nat, reserved: nat, size: nat)
    requires 2 * reserved < RegionCount(size) && 0 < cores
    requires Initial(m, cores, RegionCount(size) - 2 * reserved)
    ensures IdsInside(m, RegionCount(size)) <==> cores <= reserved
  {
    InitialIsValid(m, cores, RegionCount(size) - 2 * reserved);
    if cores <= reserved {
      forall ops | Runs(State(m, {}), ops) && NeverRecycles(ops)
        ensures forall id <- Obtained(State(m, {}), ops) :: InMapping(id / SIZE, RegionCount(size))
      {
        AddressesAreUnique(State(m, {}), ops);
      }
    } else {
      var ops, id := SomeIdIsLast(m, cores, RegionCount(size) - 2 * reserved);
      assert !InMapping(id / SIZE, RegionCount(size));
    }
  }

  // The constants the repository shows do not meet the condition: with the largest far memory
  // admitted, some run is given an id that the 38-bit field of the word cannot hold.
  lemma ShownConstantsOverrun(m: Mgr) returns (ops: seq<Op>, id: nat)
    requires Initial(m, SHOWN_CORES, RegionCount(ID_SPACE - 1) - 2 * SHOWN_RESERVED)
    ensures Runs(State(m, {}), ops) && NeverRecycles(ops) && id in Obtained(State(m, {}), ops) && ID_SPACE <= id
  {
    ops, id := SomeIdIsLast(m, SHOWN_CORES, RegionCount(ID_SPACE - 1) - 2 * SHOWN_RESERVED);
  }
}
