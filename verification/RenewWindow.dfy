/**
 Reallocation in two steps (reallocate_generic_unique_ptr_nb in aifm_changes/manager.cpp).  Between
 `ptr->init` and `old_obj.free()` the old object's header still names the pointer, whose word already
 leads to the new one, and no object lock is held.  A marker that comes in between marks the wrong
 object.  Unique pointers only.
 */
module RenewWindows {
  import opened PtrMeta
  import opened Regions
  import opened FarMemory
  import opened Evacuation

  // ---------- the collector's operations as the walks do them, through the object's header ----------

  // set_evacuation on the word of the pointer that the header names.
  function MarkByHeader(m: Mem, a: nat): Mem
    requires a in m.heap
  {
    var o := m.heap[a];
    if o.freed || o.owner !in m.ptrs then m else m.(ptrs := m.ptrs[o.owner := MarkMeta(m.ptrs[o.owner])])
  }

  // swap_out of the pointer that the header names, with the object at a.
  function SwapOutByHeader(m: Mem, a: nat, nt: bool, almostEmpty: bool, room: Option<nat>): Mem
    requires a in m.heap
  {
    var o := m.heap[a];
    if o.freed || o.owner !in m.ptrs then m
    else
      var w := m.ptrs[o.owner];
      if w.Remote? || !w.evac then m
      else if w.hot && !nt && !almostEmpty && room.Some? then
        m.(heap := m.heap[room.value := o], ptrs := m.ptrs[o.owner := CopyMeta(w, room.value)])
      else
        m.(dev := if w.dirty then m.dev[o.key := o.data] else m.dev,
           ptrs := m.ptrs[o.owner := WriteBackMeta(w, o.key.ds, SizeOf(m.header, o.data), o.key.id)])
  }

  // A unique pointer at an address is the only one there.
  lemma OnlyAt(m: Mem, p: Ptr, a: nat)
    requires MemOk(m) && IsAt(m, p, a) && !m.ptrs[p].shared
    ensures forall q :: IsAt(m, q, a) <==> q == p
  {
    forall q ensures IsAt(m, q, a) <==> q == p {
      assert q in m.ptrs && q != p ==> Agree(m, p, q);
      assert PtrOk(m, p);
    }
  }

  // Outside the window, that is in every state of the protocol, the header leads to the right pointer:
  // both operations are the ones module Evacuation has.
  lemma HeaderMarksItsObject(s: Sys, a: nat)
    requires Inv(s) && s.phase.Marking? && a in s.todo && a in s.mem.heap && !s.mem.heap[a].freed
    requires s.mem.heap[a].owner in s.mem.ptrs && !s.mem.ptrs[s.mem.heap[a].owner].shared
    ensures MarkByHeader(s.mem, a) == Mark(s.mem, a)
  {
    assert ObjOk(s, a);
    OnlyAt(s.mem, s.mem.heap[a].owner, a);
  }

  lemma AloneMoves(m: Mem, p: Ptr, a: nat, dst: nat, dirty: bool)
    requires a in m.heap && IsAt(m, p, a) && forall q :: IsAt(m, q, a) <==> q == p
    ensures CopyTo(m, a, dst) == m.(heap := m.heap[dst := m.heap[a]], ptrs := m.ptrs[p := CopyMeta(m.ptrs[p], dst)])
    ensures var o := m.heap[a];
            var w := WriteBackMeta(m.ptrs[p], o.key.ds, SizeOf(m.header, o.data), o.key.id);
            Evict(m, a, dirty) == m.(dev := if dirty then m.dev[o.key := o.data] else m.dev, ptrs := m.ptrs[p := w])
  {
  }

  lemma HeaderSwapsOutItsObject(s: Sys, a: nat, nt: bool, almostEmpty: bool, room: Option<nat>)
    requires Inv(s) && s.phase.WritingBack? && a in s.todo && a in s.mem.heap && !s.mem.heap[a].freed
    requires s.mem.heap[a].owner in s.mem.ptrs && !s.mem.ptrs[s.mem.heap[a].owner].shared
    ensures SwapOutByHeader(s.mem, a, nt, almostEmpty, room) == SwapOut(s.mem, a, nt, almostEmpty, room)
  {
    var p := s.mem.heap[a].owner;
    assert ObjOk(s, a) && WordOk(s, p);
    if s.mem.ptrs[p].Local? && s.mem.ptrs[p].evac {
      OnlyAt(s.mem, p, a);
      AloneMoves(s.mem, p, a, if room.Some? then room.value else 0, s.mem.ptrs[p].dirty);
      hide Inv, WordOk, ObjOk, CopyTo, Evict;
      assert HotAt(s.mem, a) <==> s.mem.ptrs[p].hot;
      assert DirtyAt(s.mem, a) <==> s.mem.ptrs[p].dirty;
    }
  }

  // ---------- the two steps of a reallocation ----------

  // The new object is in place and the pointer's word leads to it.
  function RenewFirst(m: Mem, p: Ptr, k: Key, data: Bytes, dst: nat): Mem {
    m.(heap := m.heap[dst := Obj(p, k, data, false)], ptrs := m.ptrs[p := InitMeta(false, dst)])
  }

  function FreeObject(m: Mem, a: nat): Mem
    requires a in m.heap
  {
    m.(heap := m.heap[a := m.heap[a].(freed := true)])
  }

  // With nothing in between they are the one step of the protocol.
  lemma RenewInTwo(m: Mem, p: Ptr, k: Key, data: Bytes, dst: nat)
    requires p in m.ptrs && m.ptrs[p].Local? && m.ptrs[p].addr in m.heap && dst != m.ptrs[p].addr
    ensures FreeObject(RenewFirst(m, p, k, data, dst), m.ptrs[p].addr) == Reallocate(m, p, k, data, dst)
  {
  }

  // ---------- a marker in the window ----------

  // A migration whose body may or may not free the object it leaves behind.
  function MigrateTo(m: Mem, a: nat, dst: nat, freesOld: bool): Mem
    requires a in m.heap
  {
    if freesOld then FreeObject(CopyTo(m, a, dst), a) else CopyTo(m, a, dst)
  }

  const K: Key := Key(0, 0)
  const K': Key := Key(0, 1)

  lemma MarkedBetweenRounds(s: Sys, p: Ptr)
    requires s.phase.Idle? && p in s.mem.ptrs && s.mem.ptrs[p].Local? && s.mem.ptrs[p].evac
    ensures !Inv(s)
  {
    assert TodoOk(s) ==> s.from == {};
    assert s.from == {} ==> !WordOk(s, p);
  }

  // Pointer 0 is reallocated from address 6 to 1030 while region 0 is being marked; the marker comes
  // between the two steps.  The word then carries E for the rest of the round, in which the old object,
  // freed by now, is passed over and its region recycled.
  lemma MarkOutlivesRound() returns (m: Mem)
    ensures var m0 := Mem(8, map[0 := Local(true, false, true, false, 6)], map[6 := Obj(0, K, [0], false)], map[]);
            var marked := MarkByHeader(RenewFirst(m0, 0, K', [1], 1030), 6);
            6 in marked.heap && m == Recycled(SwapOutByHeader(FreeObject(marked, 6), 6, false, false, None), 0)
    ensures m == Mem(8, map[0 := Local(false, false, true, true, 1030)], map[1030 := Obj(0, K', [1], false)], map[])
    // No state of the protocol between two rounds looks like that.
    ensures forall s: Sys :: s.mem == m && s.phase.Idle? ==> !Inv(s)
  {
    var m0 := Mem(8, map[0 := Local(true, false, true, false, 6)], map[6 := Obj(0, K, [0], false)], map[]);
    var first := RenewFirst(m0, 0, K', [1], 1030);
    var marked := MarkByHeader(first, 6);
    assert marked.ptrs == map[0 := Local(false, false, true, true, 1030)];
    m := Recycled(FreeObject(marked, 6), 0);
    assert m.heap == map[1030 := Obj(0, K', [1], false)];
    forall s: Sys | s.mem == m && s.phase.Idle? ensures !Inv(s) {
      MarkedBetweenRounds(s, 0);
    }
  }

  // In the next round, a mutator that dereferences the pointer migrates the object, and stores [2].
  // The object left behind at 1030 still names pointer 0 unless the migration has freed it.  When its
  // region is collected, swap_out takes it for the pointer's object: the store is undone if and only
  // if the migration frees nothing.
  lemma WindowUndoesAStore(freesOld: bool) returns (stored: Mem, m: Mem)
    ensures var words := map[0 := Local(false, false, true, true, 1030)];
            var s := Mem(8, words, map[1030 := Obj(0, K', [1], false)], map[]);
            var reached := MigrateTo(s, 1030, 2054, freesOld);
            && 0 in reached.ptrs && reached.ptrs[0].Local? && 2054 in reached.heap
            && stored == Store(DerefMut(reached, 0), 2054, [2])
            && 1030 in stored.heap && 1030 in MarkByHeader(stored, 1030).heap
            && m == SwapOutByHeader(MarkByHeader(stored, 1030), 1030, false, false, Some(3078))
    ensures View(stored) == map[0 := [2]]
    ensures View(m) == View(stored) <==> freesOld
  {
    var words := map[0 := Local(false, false, true, true, 1030)];
    var s := Mem(8, words, map[1030 := Obj(0, K', [1], false)], map[]);
    var reached := MigrateTo(s, 1030, 2054, freesOld);
    assert reached.ptrs[0] == Local(false, false, true, false, 2054);
    stored := Store(DerefMut(reached, 0), 2054, [2]);
    assert stored.ptrs[0] == Local(true, false, true, false, 2054) && stored.heap[2054].data == [2];
    assert stored.heap[1030] == Obj(0, K', [1], freesOld);
    var marked := MarkByHeader(stored, 1030);
    m := SwapOutByHeader(marked, 1030, false, false, Some(3078));
    assert !freesOld ==> marked.ptrs[0].evac && m.ptrs[0].addr == 3078 && m.heap[3078].data == [1];
    assert freesOld ==> m == stored;
    assert View(stored)[0] == [2] && View(m)[0] == if freesOld then [2] else [1];
  }
}
