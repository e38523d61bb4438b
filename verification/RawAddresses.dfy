/**
 Raw addresses held in a dereference scope.  The collector never moves an object under one; a
 mutator does, by dereferencing the marked pointer (which migrates the object) or by reallocating
 or freeing it, and then for good.  So a store through a raw address reaches every alias of its
 pointer if and only if nobody did that since the dereference.
 */
module RawAddresses {
  import opened PtrMeta
  import opened Regions
  import opened FarMemory
  import opened Evacuation

  ghost predicate Held(s: Sys, t: Tid, h: Handle) {
    t in s.scopes && h in s.scopes[t].held
  }

  predicate Current(s: Sys, h: Handle) {
    IsAt(s.mem, h.ptr, h.addr)
  }

  // The steps after which h may no longer be the address of its pointer's object, or t's to use.
  predicate Disturbs(s: Sys, e: Event, t: Tid, h: Handle) {
    match e
    case Deref(_, p, _, _) => IsAt(s.mem, p, h.addr) && s.mem.ptrs[p].evac
    case Renew(p, _, _, _) => p == h.ptr
    case Drop(p) => p == h.ptr
    case Exit(u) => u == t
    case _ => false
  }

  lemma SwapOutMoves(s: Sys, a: nat, nt: bool, almostEmpty: bool, room: Option<nat>, p: Ptr, b: nat)
    requires Inv(s) && a in s.mem.heap && (room.Some? ==> Fresh(s, room.value)) && a != b && IsAt(s.mem, p, b)
    ensures IsAt(SwapOut(s.mem, a, nt, almostEmpty, room), p, b)
  {
  }

  // Once mutators have seen the marks, nothing the write-back walk visits is held.
  lemma VisitedIsNotHeld(s: Sys, t: Tid, h: Handle, a: nat)
    requires Inv(s) && s.phase.WritingBack? && a in s.todo && Held(s, t, h)
    ensures a / SIZE in s.from && h.addr / SIZE !in s.from
  {
    assert ScopeOk(s, t);
  }

  // What no collector step can do is move an object under a raw address.
  lemma CollectorSpares(s: Sys, e: Event, t: Tid, h: Handle)
    requires Inv(s) && Enabled(s, e) && Held(s, t, h) && Current(s, h)
    requires ByCollector(e)
    ensures Held(Apply(s, e), t, h) && Current(Apply(s, e), h)
  {
    hide Inv;
    if e.WriteBackOne? {
      VisitedIsNotHeld(s, t, h, e.a);
      if !s.mem.heap[e.a].freed {
        SwapOutMoves(s, e.a, e.nt, e.almostEmpty, e.room, h.ptr, h.addr);
      }
    }
  }

  lemma ReachMoves(m: Mem, p: Ptr, dst: nat, q: Ptr, a: nat)
    requires p in m.ptrs && IsAt(m, q, a) && !(IsAt(m, p, a) && m.ptrs[p].evac)
    ensures IsAt(Reach(m, p, dst), q, a)
  {
  }

  lemma MutatorSpares(s: Sys, e: Event, t: Tid, h: Handle)
    requires Inv(s) && Enabled(s, e) && Held(s, t, h) && Current(s, h) && !Disturbs(s, e, t, h)
    requires !ByCollector(e)
    ensures Held(Apply(s, e), t, h) && Current(Apply(s, e), h)
  {
    hide Inv, Reach;
    match e
    case Deref(u, p, mut, dst) => ReachMoves(s.mem, p, dst, h.ptr, h.addr);
    case _ =>
  }

  // Nothing disturbs h during the run.
  ghost predicate Undisturbed(s: Sys, es: seq<Event>, t: Tid, h: Handle)
    requires Runs(s, es)
    decreases |es|
  {
    es == [] || (!Disturbs(s, es[0], t, h) && Undisturbed(Apply(s, es[0]), es[1..], t, h))
  }

  // However many collection rounds begin, mark, write back or recycle meanwhile.
  lemma {:induction false} HeldStaysCurrent(s: Sys, es: seq<Event>, t: Tid, h: Handle)
    requires Inv(s) && Runs(s, es) && Held(s, t, h) && Current(s, h) && Undisturbed(s, es, t, h)
    ensures Inv(After(s, es)) && Held(After(s, es), t, h) && Current(After(s, es), h)
    decreases |es|
  {
    hide Inv, Enabled, Apply, Held, Current, Disturbs;
    if es != [] {
      var e := es[0];
      StepRefines(s, e);
      if ByCollector(e) {
        CollectorSpares(s, e, t, h);
      } else {
        MutatorSpares(s, e, t, h);
      }
      HeldStaysCurrent(Apply(s, e), es[1..], t, h);
    }
  }

  // ---------- and the converse ----------

  // The scope stays open throughout the run.
  ghost predicate StaysOpen(es: seq<Event>, t: Tid) {
    forall e <- es :: !(e.Exit? && e.t == t)
  }

  lemma HeldStaysHeld(s: Sys, e: Event, t: Tid, h: Handle)
    requires Enabled(s, e) && Held(s, t, h) && !(e.Exit? && e.t == t)
    ensures Held(Apply(s, e), t, h)
  {
  }

  // A migration takes every word away from the address.
  lemma ReachLeaves(m: Mem, p: Ptr, dst: nat, q: Ptr, a: nat)
    requires IsAt(m, p, a) && m.ptrs[p].evac && a in m.heap && a != dst
    ensures !IsAt(Reach(m, p, dst), q, a)
  {
  }

  // Each disturbing step makes the address outdated at once.
  lemma DisturbanceOutdates(s: Sys, e: Event, t: Tid, h: Handle)
    requires Inv(s) && Enabled(s, e) && Held(s, t, h) && Current(s, h) && Disturbs(s, e, t, h) && !(e.Exit? && e.t == t)
    ensures !Current(Apply(s, e), h)
  {
    assert ScopeOk(s, t) && HandleOk(s, h);
    hide Inv, Reach;
    if e.Deref? {
      ReachLeaves(s.mem, e.p, e.dst, h.ptr, h.addr);
    }
  }

  // What may change which pointers are at an address: nothing brings a word to a live one.
  lemma ReachBringsNobody(m: Mem, p: Ptr, dst: nat, q: Ptr, a: nat)
    requires p in m.ptrs && a != dst && !Pointed(m, a)
    ensures !IsAt(Reach(m, p, dst), q, a)
  {
    assert !IsAt(m, q, a);
  }

  lemma SwapOutBringsNobody(m: Mem, b: nat, nt: bool, almostEmpty: bool, room: Option<nat>, q: Ptr, a: nat)
    requires b in m.heap && !Pointed(m, a) && room != Some(a)
    ensures !IsAt(SwapOut(m, b, nt, almostEmpty, room), q, a)
  {
    assert !IsAt(m, q, a);
  }

  // An outdated address stays so: allocations never return memory that is still held.
  lemma OutdatedStays(s: Sys, e: Event, t: Tid, h: Handle)
    requires Inv(s) && Enabled(s, e) && Held(s, t, h) && !Current(s, h)
    ensures !Current(Apply(s, e), h)
  {
    assert ScopeOk(s, t) && HandleOk(s, h);
    assert !Pointed(s.mem, h.addr) && forall r :: !IsAt(s.mem, r, h.addr);
    hide Inv, Reach, SwapOut, ScopeOk, HandleOk;
    if e.Deref? {
      ReachBringsNobody(s.mem, e.p, e.dst, h.ptr, h.addr);
    } else if e.WriteBackOne? {
      SwapOutBringsNobody(s.mem, e.a, e.nt, e.almostEmpty, e.room, h.ptr, h.addr);
    }
  }

  lemma {:induction false} OutdatedForGood(s: Sys, es: seq<Event>, t: Tid, h: Handle)
    requires Inv(s) && Runs(s, es) && Held(s, t, h) && !Current(s, h) && StaysOpen(es, t)
    ensures !Current(After(s, es), h)
    decreases |es|
  {
    hide Inv, Enabled, Apply, Held, Current;
    if es != [] {
      assert es[0] in es && forall e <- es[1..] :: e in es;
      StepRefines(s, es[0]);
      HeldStaysHeld(s, es[0], t, h);
      OutdatedStays(s, es[0], t, h);
      OutdatedForGood(Apply(s, es[0]), es[1..], t, h);
    }
  }

  // While its scope is open, an address is still its pointer's own if and only if the run held no
  // migration of the marked object by a mutator, no reallocation and no free of the pointer.
  lemma {:induction false} CurrentIffUndisturbed(s: Sys, es: seq<Event>, t: Tid, h: Handle)
    requires Inv(s) && Runs(s, es) && Held(s, t, h) && Current(s, h) && StaysOpen(es, t)
    ensures Inv(After(s, es)) && Held(After(s, es), t, h)
    ensures Current(After(s, es), h) <==> Undisturbed(s, es, t, h)
    decreases |es|
  {
    hide Inv, Enabled, Apply, Held, Current, Disturbs;
    if es != [] {
      var e := es[0];
      assert e in es && forall f <- es[1..] :: f in es;
      StepRefines(s, e);
      HeldStaysHeld(s, e, t, h);
      if Disturbs(s, e, t, h) {
        DisturbanceOutdates(s, e, t, h);
        OutdatedForGood(Apply(s, e), es[1..], t, h);
        RunRefines(s, es);
        StaysHeld(s, es, t, h);
      } else {
        HeldStaysCurrent(s, [e], t, h) by {
          assert [e][1..] == [] && Runs(Apply(s, e), []) && Undisturbed(Apply(s, e), [], t, h);
        }
        CurrentIffUndisturbed(Apply(s, e), es[1..], t, h);
      }
    }
  }

  lemma {:induction false} StaysHeld(s: Sys, es: seq<Event>, t: Tid, h: Handle)
    requires Runs(s, es) && Held(s, t, h) && StaysOpen(es, t)
    ensures Held(After(s, es), t, h)
    decreases |es|
  {
    hide Enabled, Apply, Held;
    if es != [] {
      assert es[0] in es && forall f <- es[1..] :: f in es;
      HeldStaysHeld(s, es[0], t, h);
      StaysHeld(Apply(s, es[0]), es[1..], t, h);
    }
  }

  // ---------- what that means for a store ----------

  function HandleOf(s: Sys, p: Ptr, mut: bool, dst: nat): Handle
    requires p in s.mem.ptrs
  {
    Handle(p, Reach(s.mem, p, dst).ptrs[p].addr, mut)
  }

  // An address is the pointer's own when it is handed out; the dereference is on record in the word.
  lemma DerefIsCurrent(s: Sys, t: Tid, p: Ptr, mut: bool, dst: nat)
    requires Inv(s) && Enabled(s, Deref(t, p, mut, dst))
    ensures var s', h := Apply(s, Deref(t, p, mut, dst)), HandleOf(s, p, mut, dst);
            && Held(s', t, h) && Current(s', h)
            && s'.mem.ptrs[p].hot && (mut ==> s'.mem.ptrs[p].dirty)
  {
    hide Inv, Reach;
  }

  // In any state a store misses its pointer exactly when the address is outdated (or changes nothing).
  lemma StoreMissesIff(s: Sys, t: Tid, h: Handle, data: Bytes)
    requires Inv(s) && Enabled(s, StoreTo(t, h, data)) && h.ptr in s.mem.ptrs && Content(s.mem, h.ptr) != data
    ensures var v := Abstract(s.mem);
            Abstract(Apply(s, StoreTo(t, h, data)).mem).bytes == Written(v, h.ptr, data) <==> Current(s, h)
  {
    AbstractAt(s.mem, h.ptr);
    WrittenShows(Abstract(s.mem), h.ptr, data);
    StepRefines(s, StoreTo(t, h, data));
    hide Inv, Enabled, Apply, Abstract, Written, Content;
  }

  lemma AbstractAt(m: Mem, p: Ptr)
    requires p in m.ptrs
    ensures var v := Abstract(m); p in v.bytes && p in v.ids && v.bytes[p] == Content(m, p)
  {
  }

  lemma WrittenShows(v: Plain, p: Ptr, data: Bytes)
    requires p in v.bytes && p in v.ids && v.bytes[p] != data
    ensures Written(v, p, data) != v.bytes
  {
    assert Written(v, p, data)[p] == data;
  }

  // A mutable dereference, any run that leaves its scope open, then a store of other bytes: every
  // alias sees the store if and only if the run in between was undisturbed.
  lemma StoreIsSeenIff(s: Sys, t: Tid, p: Ptr, dst: nat, es: seq<Event>, data: Bytes)
    requires Inv(s) && Enabled(s, Deref(t, p, true, dst))
    requires Runs(Apply(s, Deref(t, p, true, dst)), es) && StaysOpen(es, t)
    requires var n, h := After(Apply(s, Deref(t, p, true, dst)), es), HandleOf(s, p, true, dst);
             Enabled(n, StoreTo(t, h, data)) && p in n.mem.ptrs && Content(n.mem, p) != data
    ensures var s', h := Apply(s, Deref(t, p, true, dst)), HandleOf(s, p, true, dst);
            var n := After(s', es);
            var seen := Abstract(Apply(n, StoreTo(t, h, data)).mem).bytes;
            seen == Written(Abstract(n.mem), p, data) <==> Undisturbed(s', es, t, h)
  {
    assert p in s.mem.ptrs;
    hide Inv, Enabled, Apply, Held, Current, HandleOf, Abstract, Content;
    var s', h := Apply(s, Deref(t, p, true, dst)), HandleOf(s, p, true, dst);
    StepRefines(s, Deref(t, p, true, dst));
    DerefIsCurrent(s, t, p, true, dst);
    CurrentIffUndisturbed(s', es, t, h);
    assert h.ptr == p by {
      HandleNames(s, p, true, dst);
    }
    StoreMissesIff(After(s', es), t, h, data);
  }

  lemma HandleNames(s: Sys, p: Ptr, mut: bool, dst: nat)
    requires p in s.mem.ptrs
    ensures HandleOf(s, p, mut, dst).ptr == p
  {
  }

  // ---------- a store that is lost ----------

  lemma {:induction false} OneMore(s: Sys, es: seq<Event>, e: Event)
    requires Runs(s, es) && Enabled(After(s, es), e)
    ensures Runs(s, es + [e]) && After(s, es + [e]) == Apply(After(s, es), e)
    decreases |es|
  {
    hide Enabled, Apply;
    if es == [] {
      assert [e][1..] == [];
    } else {
      assert (es + [e])[1..] == es[1..] + [e];
      OneMore(Apply(s, es[0]), es[1..], e);
    }
  }

  const K: Key := Key(0, 0)
  const H: Handle := Handle(0, 6, true)

  function Start(): Sys {
    Sys(Mem(8, map[], map[], map[]), Idle, {}, {}, false, map[])
  }

  // Thread 1 dereferences pointer 0 for writing, and the collector picks the region and marks the object.
  lemma UpToMarking() returns (es: seq<Event>, s: Sys)
    ensures Runs(Start(), es) && After(Start(), es) == s
    ensures s == Sys(Mem(8, map[0 := Local(true, false, true, true, 6)], map[6 := Obj(0, K, [0], false)], map[]),
                     Marking, {0}, {}, false, map[1 := Scope(false, {H})])
  {
    var s0 := Start();
    var e1, e2, e3 := New(0, false, K, [0], 6), Enter(1), Deref(1, 0, true, 2054);
    var s1 := Sys(Mem(8, map[0 := Local(false, false, true, false, 6)], map[6 := Obj(0, K, [0], false)], map[]),
                  Idle, {}, {}, false, map[]);
    assert Apply(s0, e1) == s1;
    OneMore(s0, [], e1);
    var s2 := s1.(scopes := map[1 := Scope(false, {})]);
    assert Apply(s1, e2) == s2;
    OneMore(s0, [] + [e1], e2);
    var s3 := s2.(mem := s2.mem.(ptrs := map[0 := Local(true, false, true, false, 6)]),
        scopes := map[1 := Scope(false, {H})]);
    assert Reach(s2.mem, 0, 2054) == s2.mem && {} + {H} == {H};
    assert DerefMut(s2.mem, 0) == s3.mem;
    assert Apply(s2, e3).scopes == s3.scopes;
    assert Apply(s2, e3) == s3;
    OneMore(s0, [] + [e1] + [e2], e3);
    s := MarkedFrom(s3);
    OneMore(s0, [] + [e1] + [e2] + [e3], Pick({0}));
    OneMore(s0, [] + [e1] + [e2] + [e3] + [Pick({0})], MarkOne(6));
    es := [] + [e1] + [e2] + [e3] + [Pick({0})] + [MarkOne(6)];
  }

  lemma MarkedFrom(s3: Sys) returns (s: Sys)
    requires s3 == Sys(Mem(8, map[0 := Local(true, false, true, false, 6)], map[6 := Obj(0, K, [0], false)], map[]),
                       Idle, {}, {}, false, map[1 := Scope(false, {H})])
    ensures Enabled(s3, Pick({0})) && Enabled(Apply(s3, Pick({0})), MarkOne(6))
    ensures s == Apply(Apply(s3, Pick({0})), MarkOne(6))
    ensures s == Sys(Mem(8, map[0 := Local(true, false, true, true, 6)], map[6 := Obj(0, K, [0], false)], map[]),
                     Marking, {0}, {}, false, map[1 := Scope(false, {H})])
  {
    var s4 := s3.(phase := Marking, from := {0}, todo := {6});
    assert 6 in HeapIn(s3.mem, {0});
    assert HeapIn(s3.mem, {0}) == {6};
    assert Apply(s3, Pick({0})) == s4;
    s := Apply(s4, MarkOne(6));
    assert s.mem.ptrs[0] == Local(true, false, true, true, 6);
    assert s.mem.ptrs == map[0 := Local(true, false, true, true, 6)];
  }

  // Thread 2 dereferences the pointer and so migrates the object; thread 1, still in its scope,
  // stores to the old copy, and nobody ever sees it.
  lemma MigrationLosesAStore() returns (es: seq<Event>, s: Sys, late: Event)
    ensures Runs(Start(), es) && After(Start(), es) == s && Init(Start())
    ensures late == StoreTo(1, H, [1]) && Enabled(s, late) && Outdated(s, late)
    ensures 0 in s.mem.ptrs && View(Apply(s, late).mem) == View(s.mem) == map[0 := [0]]
  {
    var es5, s5 := UpToMarking();
    var e6, e7 := Enter(2), Deref(2, 0, false, 1030);
    var s6 := s5.(scopes := s5.scopes[2 := Scope(false, {})]);
    assert Apply(s5, e6) == s6;
    OneMore(Start(), es5, e6);
    assert Fresh(s6, 1030);
    s := Apply(s6, e7);
    OneMore(Start(), es5 + [e6], e7);
    es := es5 + [e6] + [e7];
    late := StoreTo(1, H, [1]);
    assert s.mem.ptrs[0] == Local(true, false, true, false, 1030);
    assert s.mem.heap == map[6 := Obj(0, K, [0], false), 1030 := Obj(0, K, [0], false)];
    assert s.scopes[1] == Scope(false, {H});
  }
}
