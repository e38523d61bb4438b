/**
 Far memory as the collector and the mutators see it: pointer words, local objects and the device
 (swap_in, swap_out, allocation and reallocation in aifm_changes/manager.cpp, on the path without
 notifiers).  The device is a map from object key to bytes.  A local object is named by its start
 address, which stands for the address of its data in the pointer's word.
 */
module FarMemory {
  import opened PtrMeta
  import opened Regions

  type Ptr = nat         // the address of a pointer
  type Bytes = seq<bv8>

  const ID_LEN: nat := 8 // kVanillaPtrObjectIDSize: a remote address

  datatype Key = Key(ds: nat, id: nat)

  // `owner` is the pointer address in the object's header.
  datatype Obj = Obj(owner: Ptr, key: Key, data: Bytes, freed: bool)

  datatype Mem = Mem(
    header: nat,  // Object::kHeaderSize
    ptrs: map<Ptr, Meta<nat>>,
    heap: map<nat, Obj>,
    dev: map<Key, Bytes>)

  function SizeOf(header: nat, data: Bytes): nat {
    header + |data| + ID_LEN
  }

  // ---------- what the mutators see ----------

  predicate IsAt(m: Mem, p: Ptr, a: nat) {
    p in m.ptrs && m.ptrs[p].Local? && m.ptrs[p].addr == a
  }

  // The object a pointer refers to; aliases in one shared ring have the same key.
  function KeyOf(m: Mem, p: Ptr): Key
    requires p in m.ptrs
  {
    match m.ptrs[p]
    case Local(_, _, _, _, a) => if a in m.heap then m.heap[a].key else Key(0, 0)
    case Remote(ds, _, _, id) => Key(ds, id)
  }

  predicate IsOut(m: Mem, p: Ptr, k: Key) {
    p in m.ptrs && m.ptrs[p].Remote? && Key(m.ptrs[p].ds, m.ptrs[p].id) == k
  }

  function Content(m: Mem, p: Ptr): Bytes
    requires p in m.ptrs
  {
    match m.ptrs[p]
    case Local(_, _, _, _, a) => if a in m.heap then m.heap[a].data else []
    case Remote(ds, _, _, id) => if Key(ds, id) in m.dev then m.dev[Key(ds, id)] else []
  }

  // The plain map from pointer to bytes that far memory must look like.
  function View(m: Mem): map<Ptr, Bytes> {
    map p | p in m.ptrs :: Content(m, p)
  }

  // Which object each pointer refers to: aliases of one object have the same key.
  function Keys(m: Mem): map<Ptr, Key> {
    map p | p in m.ptrs :: KeyOf(m, p)
  }

  // ---------- the invariant ----------

  ghost predicate DirtyAt(m: Mem, a: nat) {
    exists p :: IsAt(m, p, a) && m.ptrs[p].dirty
  }

  ghost predicate PtrOk(m: Mem, p: Ptr)
    requires p in m.ptrs
  {
    match m.ptrs[p]
    case Local(_, _, _, _, a) =>
      // a present object that no alias wrote to equals its device copy
      && a in m.heap && !m.heap[a].freed && IsAt(m, m.heap[a].owner, a)
      && (DirtyAt(m, a) || (m.heap[a].key in m.dev && m.dev[m.heap[a].key] == m.heap[a].data))
    case Remote(ds, _, size, id) =>
      // an absent object's value is its device copy
      Key(ds, id) in m.dev && size == SizeOf(m.header, m.dev[Key(ds, id)])
  }

  // Aliases of one object are all shared pointers and agree on where it is.
  ghost predicate Agree(m: Mem, p: Ptr, q: Ptr)
    requires p in m.ptrs && q in m.ptrs
  {
    KeyOf(m, p) == KeyOf(m, q) ==>
      && m.ptrs[p].shared && m.ptrs[q].shared
      && (m.ptrs[p].Local? <==> m.ptrs[q].Local?)
      && (m.ptrs[p].Local? ==> m.ptrs[p].addr == m.ptrs[q].addr)
  }

  ghost predicate MemOk(m: Mem) {
    && (forall p :: p in m.ptrs ==> PtrOk(m, p))
    && (forall p, q :: p in m.ptrs && q in m.ptrs && p != q ==> Agree(m, p, q))
  }

  // ---------- the collector's operations ----------

  // set_evacuation on every alias of the object at a.
  function Mark(m: Mem, a: nat): Mem {
    m.(ptrs := map p | p in m.ptrs :: if IsAt(m, p, a) then MarkMeta(m.ptrs[p]) else m.ptrs[p])
  }

  // Copy the object at a to dst and redirect every alias: the hot branch of swap_out, and a mutator's migration.
  function CopyTo(m: Mem, a: nat, dst: nat): Mem
    requires a in m.heap
  {
    m.(heap := m.heap[dst := m.heap[a]],
       ptrs := map p | p in m.ptrs :: if IsAt(m, p, a) then CopyMeta(m.ptrs[p], dst) else m.ptrs[p])
  }

  // Write a dirty object back, drop a clean one, and turn every alias into its remote form.
  function Evict(m: Mem, a: nat, dirty: bool): Mem
    requires a in m.heap
  {
    var o := m.heap[a];
    m.(dev := if dirty then m.dev[o.key := o.data] else m.dev,
       ptrs := map p | p in m.ptrs ::
         if IsAt(m, p, a) then WriteBackMeta(m.ptrs[p], o.key.ds, SizeOf(m.header, o.data), o.key.id) else m.ptrs[p])
  }

  ghost predicate HotAt(m: Mem, a: nat) {
    exists p :: IsAt(m, p, a) && m.ptrs[p].hot
  }

  // swap_out of the object at a.  nt: its region is non-temporal.  dst: what a non-blocking
  // allocation returned, if one was tried.
  ghost function SwapOut(m: Mem, a: nat, nt: bool, almostEmpty: bool, dst: Option<nat>): Mem
    requires a in m.heap
  {
    var p := m.heap[a].owner;
    if p !in m.ptrs || m.ptrs[p].Remote? || !m.ptrs[p].evac then m
    else if HotAt(m, a) && !nt && !almostEmpty && dst.Some? then CopyTo(m, a, dst.value)
    else Evict(m, a, DirtyAt(m, a))
  }

  // The memory of region r is handed out again.
  function Recycled(m: Mem, r: nat): Mem {
    m.(heap := map a | a in m.heap && a / SIZE != r :: m.heap[a])
  }

  // ---------- the mutators' operations ----------

  // swap_in(p) with its object allocated at dst.
  function SwapIn(m: Mem, p: Ptr, dst: nat): Mem
    requires p in m.ptrs
  {
    match m.ptrs[p]
    case Local(_, _, _, _, _) => m
    case Remote(ds, _, _, id) =>
      var k := Key(ds, id);
      m.(heap := m.heap[dst := Obj(p, k, Content(m, p), false)],
         ptrs := map q | q in m.ptrs :: if IsOut(m, q, k) then PresentMeta(m.ptrs[q], dst) else m.ptrs[q])
  }

  // allocate_generic_unique_ptr, or the creation of the first pointer of a shared ring.
  function Allocate(m: Mem, p: Ptr, shared: bool, k: Key, data: Bytes, a: nat): Mem {
    m.(heap := m.heap[a := Obj(p, k, data, false)], ptrs := m.ptrs[p := InitMeta(shared, a)])
  }

  // A further shared pointer takes a copy of an existing one's word.
  function Alias(m: Mem, p: Ptr, q: Ptr): Mem
    requires p in m.ptrs
  {
    m.(ptrs := m.ptrs[q := m.ptrs[p]])
  }

  // A mutable dereference marks the pointer it went through dirty and hot.
  function DerefMut(m: Mem, p: Ptr): Mem
    requires p in m.ptrs && m.ptrs[p].Local?
  {
    m.(ptrs := m.ptrs[p := m.ptrs[p].(dirty := true, hot := true)])
  }

  function SetHot(m: Mem, p: Ptr, hot: bool): Mem
    requires p in m.ptrs && m.ptrs[p].Local?
  {
    m.(ptrs := m.ptrs[p := m.ptrs[p].(hot := hot)])
  }

  // A store through a raw address.
  function Store(m: Mem, a: nat, data: Bytes): Mem
    requires a in m.heap
  {
    m.(heap := m.heap[a := m.heap[a].(data := data)])
  }

  // reallocate_generic_unique_ptr_nb: a new object with a new key, and the old one freed.
  function Reallocate(m: Mem, p: Ptr, k: Key, data: Bytes, a: nat): Mem
    requires p in m.ptrs && m.ptrs[p].Local? && m.ptrs[p].addr in m.heap
  {
    var old' := m.ptrs[p].addr;
    m.(heap := m.heap[old' := m.heap[old'].(freed := true)][a := Obj(p, k, data, false)],
       ptrs := m.ptrs[p := InitMeta(false, a)])
  }

  // A unique pointer is freed; its local object, if any, is marked so.
  function Free(m: Mem, p: Ptr): Mem
    requires p in m.ptrs
  {
    var rest := m.ptrs - {p};
    if m.ptrs[p].Local? && m.ptrs[p].addr in m.heap
    then m.(ptrs := rest, heap := m.heap[m.ptrs[p].addr := m.heap[m.ptrs[p].addr].(freed := true)])
    else m.(ptrs := rest)
  }

  ghost predicate Unused(m: Mem, k: Key) {
    forall p :: p in m.ptrs ==> KeyOf(m, p) != k
  }

  // No pointer other than p refers to the object of this key.
  ghost predicate UnusedBut(m: Mem, k: Key, p: Ptr) {
    forall q :: q in m.ptrs && q != p ==> KeyOf(m, q) != k
  }

  // An unshared pointer may keep its object's id through a reallocation.
  lemma OwnKeyIsFree(m: Mem, p: Ptr, k: Key)
    requires MemOk(m) && p in m.ptrs && !m.ptrs[p].shared && (Unused(m, k) || k == KeyOf(m, p))
    ensures UnusedBut(m, k, p)
  {
    forall q | q in m.ptrs && q != p ensures KeyOf(m, q) != k {
      assert Agree(m, p, q);
    }
  }

  // No pointer appeared, went, or changed its object or its S bit.
  ghost predicate SameKeys(m: Mem, m': Mem) {
    && m'.ptrs.Keys == m.ptrs.Keys
    && forall p :: p in m.ptrs ==> KeyOf(m', p) == KeyOf(m, p) && m'.ptrs[p].shared == m.ptrs[p].shared
  }

  // A step from m to m' that no mutator can notice.
  ghost predicate Invisible(m: Mem, m': Mem) {
    MemOk(m') && View(m') == View(m) && SameKeys(m, m')
  }

  // ---------- every operation keeps the invariant and has exactly its effect on the view ----------

  // A local pointer stays sound when its object is where its word says, with at least as many
  // dirty aliases, and its device copy is untouched.
  lemma PtrStays(m: Mem, m': Mem, p: Ptr)
    requires p in m.ptrs && PtrOk(m, p) && m.ptrs[p].Local?
    requires p in m'.ptrs && m'.ptrs[p].Local? && m'.ptrs[p].addr in m'.heap
    requires var o, o' := m.heap[m.ptrs[p].addr], m'.heap[m'.ptrs[p].addr];
             && o' == o && (o.key in m.dev ==> o.key in m'.dev && m'.dev[o.key] == m.dev[o.key])
    requires forall r :: IsAt(m, r, m.ptrs[p].addr) ==>
              && IsAt(m', r, m'.ptrs[p].addr)
              && (m.ptrs[r].dirty ==> m'.ptrs[r].dirty)
    ensures PtrOk(m', p)
  {
  }

  lemma MarkKeeps(m: Mem, a: nat)
    requires MemOk(m)
    ensures Invisible(m, Mark(m, a))
  {
    var m' := Mark(m, a);
    forall p | p in m'.ptrs ensures PtrOk(m', p) && Content(m', p) == Content(m, p) && KeyOf(m', p) == KeyOf(m, p) {
      assert PtrOk(m, p);
      if m.ptrs[p].Local? {
        PtrStays(m, m', p);
      }
    }
    StillAgree(m, m');
  }

  // Aliases still agree when no pointer changed its key, its S bit or its place.
  lemma StillAgree(m: Mem, m': Mem)
    requires MemOk(m)
    requires forall p :: p in m'.ptrs ==>
               && p in m.ptrs && KeyOf(m', p) == KeyOf(m, p) && m'.ptrs[p].shared == m.ptrs[p].shared
               && (m'.ptrs[p].Local? <==> m.ptrs[p].Local?) && (m.ptrs[p].Local? ==> m'.ptrs[p].addr == m.ptrs[p].addr)
    ensures forall p, q :: p in m'.ptrs && q in m'.ptrs && p != q ==> Agree(m', p, q)
  {
  }

  lemma SameDirt(m: Mem, m': Mem)
    requires m'.ptrs.Keys == m.ptrs.Keys
    requires forall p :: p in m.ptrs ==> (m.ptrs[p].Local? <==> m'.ptrs[p].Local?)
    requires forall p :: p in m.ptrs && m.ptrs[p].Local? ==>
              && m'.ptrs[p].addr == m.ptrs[p].addr
              && (m.ptrs[p].dirty ==> m'.ptrs[p].dirty)
    ensures forall b :: DirtyAt(m, b) ==> DirtyAt(m', b)
  {
  }

  // Pointer by pointer and pair by pair.
  lemma InvisibleFrom(m: Mem, m': Mem)
    requires m'.ptrs.Keys == m.ptrs.Keys && forall p :: p in m.ptrs ==> m'.ptrs[p].shared == m.ptrs[p].shared
    requires forall p :: p in m.ptrs ==>
               PtrOk(m', p) && Content(m', p) == Content(m, p) && KeyOf(m', p) == KeyOf(m, p)
    requires forall p, q :: p in m.ptrs && q in m.ptrs && p != q ==> Agree(m', p, q)
    ensures Invisible(m, m')
  {
    hide PtrOk, Agree, Content, KeyOf;
  }

  lemma CopyKeepsPtr(m: Mem, a: nat, dst: nat, p: Ptr)
    requires MemOk(m) && a in m.heap && dst !in m.heap && p in m.ptrs
    ensures var m' := CopyTo(m, a, dst);
            PtrOk(m', p) && Content(m', p) == Content(m, p) && KeyOf(m', p) == KeyOf(m, p)
  {
    assert PtrOk(m, p);
    if m.ptrs[p].Local? {
      PtrStays(m, CopyTo(m, a, dst), p);
    }
  }

  lemma CopyKeepsPair(m: Mem, a: nat, dst: nat, p: Ptr, q: Ptr)
    requires MemOk(m) && a in m.heap && dst !in m.heap && p in m.ptrs && q in m.ptrs && p != q
    ensures Agree(CopyTo(m, a, dst), p, q)
  {
    CopyKeepsPtr(m, a, dst, p);
    CopyKeepsPtr(m, a, dst, q);
    assert Agree(m, p, q) && PtrOk(m, p) && PtrOk(m, q);
  }

  lemma CopyKeeps(m: Mem, a: nat, dst: nat)
    requires MemOk(m) && a in m.heap && dst !in m.heap
    ensures Invisible(m, CopyTo(m, a, dst))
  {
    hide MemOk, PtrOk, Agree, Content, KeyOf, Invisible;
    var m' := CopyTo(m, a, dst);
    forall p | p in m.ptrs ensures PtrOk(m', p) && Content(m', p) == Content(m, p) && KeyOf(m', p) == KeyOf(m, p) {
      CopyKeepsPtr(m, a, dst, p);
    }
    forall p, q | p in m.ptrs && q in m.ptrs && p != q ensures Agree(m', p, q) {
      CopyKeepsPair(m, a, dst, p, q);
    }
    InvisibleFrom(m, m');
  }

  lemma EvictKeeps(m: Mem, a: nat)
    requires MemOk(m) && a in m.heap && (exists p :: IsAt(m, p, a))
    ensures Invisible(m, Evict(m, a, DirtyAt(m, a)))
  {
    var m' := Evict(m, a, DirtyAt(m, a));
    var w :| IsAt(m, w, a);
    assert PtrOk(m, w);
    assert m'.dev[m.heap[a].key] == m.heap[a].data;
    forall p | p in m.ptrs
      ensures PtrOk(m', p) && Content(m', p) == Content(m, p) && KeyOf(m', p) == KeyOf(m, p)
    {
      assert PtrOk(m, p);
      assert p == w || Agree(m, p, w);  // an alias elsewhere cannot share the key
      if m.ptrs[p].Local? && m.ptrs[p].addr != a {
        PtrStays(m, m', p);
      }
    }
    forall p, q | p in m'.ptrs && q in m'.ptrs && p != q ensures Agree(m', p, q) {
      assert Agree(m, p, q);
    }
  }

  // Whatever it decides, the write-back of an object changes nothing a mutator can see.
  lemma SwapOutKeeps(m: Mem, a: nat, nt: bool, almostEmpty: bool, dst: Option<nat>)
    requires MemOk(m) && a in m.heap && (dst.Some? ==> dst.value !in m.heap)
    requires var p := m.heap[a].owner; p in m.ptrs && m.ptrs[p].Local? && m.ptrs[p].evac ==> m.ptrs[p].addr == a
    ensures Invisible(m, SwapOut(m, a, nt, almostEmpty, dst))
  {
    var p := m.heap[a].owner;
    if p in m.ptrs && m.ptrs[p].Local? && m.ptrs[p].evac {
      assert IsAt(m, p, a);
      EvictKeeps(m, a);
      if dst.Some? {
        CopyKeeps(m, a, dst.value);
      }
    }
  }

  // The object at a is to be kept in the cache: some alias is hot, its region is temporal, the cache
  // is not almost empty and there is room.
  ghost predicate ToKeep(m: Mem, a: nat, nt: bool, almostEmpty: bool, room: bool) {
    (exists q :: IsAt(m, q, a) && m.ptrs[q].hot) && !nt && !almostEmpty && room
  }

  // From m to m' the whole ring of the object at a stayed local, or went remote; the device was written
  // exactly if it went remote and some alias was dirty.
  ghost predicate Decided(m: Mem, m': Mem, a: nat, stays: bool)
    requires a in m.heap
  {
    && (forall q :: IsAt(m, q, a) ==> q in m'.ptrs && (m'.ptrs[q].Local? <==> stays))
    && var written := !stays && exists q :: IsAt(m, q, a) && m.ptrs[q].dirty;
       m'.dev == if written then m.dev[m.heap[a].key := m.heap[a].data] else m.dev
  }

  // A live, present object whose pointer is marked.
  predicate Marked(m: Mem, a: nat)
    requires a in m.heap
  {
    var o := m.heap[a];
    !o.freed && o.owner in m.ptrs && m.ptrs[o.owner].Local? && m.ptrs[o.owner].evac
  }

  // What swap_out decides, in terms of the words it reads.
  lemma SwapOutDecides(m: Mem, a: nat, nt: bool, almostEmpty: bool, room: Option<nat>)
    requires a in m.heap && IsAt(m, m.heap[a].owner, a) && m.ptrs[m.heap[a].owner].evac
    ensures var m' := SwapOut(m, a, nt, almostEmpty, room);
            var stays := ToKeep(m, a, nt, almostEmpty, room.Some?);
            && Decided(m, m', a, stays)
            && (stays ==> forall q :: IsAt(m, q, a) ==> m'.ptrs[q].addr == room.value)
            && (stays ==> room.value in m'.heap && m'.heap[room.value] == m.heap[a])
    ensures var m' := SwapOut(m, a, nt, almostEmpty, room);
            forall q :: q in m.ptrs && !IsAt(m, q, a) ==> q in m'.ptrs && m'.ptrs[q] == m.ptrs[q]
  {
  }

  // An object that is not marked, or whose owner is elsewhere, is left alone.
  lemma SwapOutSpares(m: Mem, a: nat, nt: bool, almostEmpty: bool, room: Option<nat>)
    requires a in m.heap
    requires var p := m.heap[a].owner; p !in m.ptrs || m.ptrs[p].Remote? || !m.ptrs[p].evac
    ensures SwapOut(m, a, nt, almostEmpty, room) == m
  {
  }

  lemma SwapInKeeps(m: Mem, p: Ptr, dst: nat)
    requires MemOk(m) && p in m.ptrs && dst !in m.heap
    ensures Invisible(m, SwapIn(m, p, dst))
    ensures SwapIn(m, p, dst).ptrs[p].Local?
  {
    if m.ptrs[p].Remote? {
      var m' := SwapIn(m, p, dst);
      assert PtrOk(m, p) && IsOut(m, p, KeyOf(m, p));
      assert IsAt(m', p, dst);
      forall q | q in m.ptrs
        ensures PtrOk(m', q) && Content(m', q) == Content(m, q) && KeyOf(m', q) == KeyOf(m, q)
      {
        assert PtrOk(m, q);
        if m.ptrs[q].Local? {
          PtrStays(m, m', q);
        }
      }
      forall q, r | q in m'.ptrs && r in m'.ptrs && q != r ensures Agree(m', q, r) {
        assert Agree(m, q, r);
      }
    }
  }

  // An absent pointer comes to dst with its ring, clean and unmarked.
  lemma SwapInLands(m: Mem, p: Ptr, dst: nat)
    requires MemOk(m) && p in m.ptrs && m.ptrs[p].Remote? && dst !in m.heap
    ensures var m' := SwapIn(m, p, dst);
            && IsAt(m', p, dst) && m'.dev == m.dev
            && (forall q :: IsAt(m', q, dst) <==> IsOut(m, q, KeyOf(m, p)))
            && (forall q :: IsAt(m', q, dst) ==> !m'.ptrs[q].dirty && !m'.ptrs[q].evac)
  {
    assert IsOut(m, p, KeyOf(m, p));
    forall q | q in m.ptrs ensures !IsAt(m, q, dst) {
      assert PtrOk(m, q);
    }
  }

  // Pointers other than p whose object and ring are untouched stay as they were.
  ghost predicate Untouched(m: Mem, m': Mem, p: Ptr) {
    && m'.dev == m.dev && m'.header == m.header
    && (forall q :: q in m'.ptrs && q != p ==> q in m.ptrs)
    && (forall q :: q in m.ptrs && q != p ==> q in m'.ptrs && m'.ptrs[q] == m.ptrs[q])
    && (p in m.ptrs ==> !m.ptrs[p].shared)
    && (forall q :: q in m.ptrs && q != p && m.ptrs[q].Local? ==>
          m.ptrs[q].addr in m'.heap && m.ptrs[q].addr in m.heap && m'.heap[m.ptrs[q].addr] == m.heap[m.ptrs[q].addr])
  }

  lemma OthersStay(m: Mem, m': Mem, p: Ptr, q: Ptr)
    requires MemOk(m) && Untouched(m, m', p) && q in m.ptrs && q != p
    ensures PtrOk(m', q) && KeyOf(m', q) == KeyOf(m, q) && Content(m', q) == Content(m, q)
  {
    assert PtrOk(m, q);
    if m.ptrs[q].Local? {
      NotSharedWith(m, p, q);
      PtrStays(m, m', q);
    }
  }

  // If p is no alias of q then p is not at q's object.
  lemma NotSharedWith(m: Mem, p: Ptr, q: Ptr)
    requires MemOk(m) && q in m.ptrs && q != p && m.ptrs[q].Local? && (p in m.ptrs ==> !m.ptrs[p].shared)
    ensures !IsAt(m, p, m.ptrs[q].addr)
  {
  }

  // The step from the others to the whole: p itself is sound and shares its key with nobody.
  lemma OneChanged(m: Mem, m': Mem, p: Ptr)
    requires MemOk(m) && Untouched(m, m', p)
    requires p in m'.ptrs ==> PtrOk(m', p) && (forall q :: q in m.ptrs && q != p ==> KeyOf(m, q) != KeyOf(m', p))
    ensures MemOk(m')
    ensures View(m') == if p in m'.ptrs then View(m)[p := Content(m', p)] else View(m) - {p}
  {
    forall q | q in m.ptrs && q != p ensures PtrOk(m', q) && KeyOf(m', q) == KeyOf(m, q) {
      OthersStay(m, m', p, q);
    }
    forall q, r | q in m'.ptrs && r in m'.ptrs && q != r ensures Agree(m', q, r) {
      assert q != p && r != p ==> Agree(m, q, r);
    }
    OneChangedView(m, m', p);
  }

  lemma OneChangedView(m: Mem, m': Mem, p: Ptr)
    requires MemOk(m) && Untouched(m, m', p)
    ensures View(m') == if p in m'.ptrs then View(m)[p := Content(m', p)] else View(m) - {p}
  {
    forall q | q in m.ptrs && q != p ensures Content(m', q) == Content(m, q) {
      OthersStay(m, m', p, q);
    }
    ViewChanged(m, m', p);
  }

  lemma ViewChanged(m: Mem, m': Mem, p: Ptr)
    requires forall q :: q != p ==> (q in m.ptrs <==> q in m'.ptrs)
    requires forall q :: q in m.ptrs && q != p ==> Content(m', q) == Content(m, q)
    ensures View(m') == if p in m'.ptrs then View(m)[p := Content(m', p)] else View(m) - {p}
  {
  }

  lemma AllocateTouches(m: Mem, p: Ptr, shared: bool, k: Key, data: Bytes, a: nat)
    requires MemOk(m) && p !in m.ptrs && a !in m.heap
    ensures Untouched(m, Allocate(m, p, shared, k, data, a), p)
  {
  }

  lemma AllocateKeeps(m: Mem, p: Ptr, shared: bool, k: Key, data: Bytes, a: nat)
    requires MemOk(m) && p !in m.ptrs && a !in m.heap && Unused(m, k)
    ensures MemOk(Allocate(m, p, shared, k, data, a))
    ensures View(Allocate(m, p, shared, k, data, a)) == View(m)[p := data]
  {
    var m' := Allocate(m, p, shared, k, data, a);
    AllocateTouches(m, p, shared, k, data, a);
    assert IsAt(m', p, a);
    OneChanged(m, m', p);
  }

  lemma ReallocateTouches(m: Mem, p: Ptr, k: Key, data: Bytes, a: nat)
    requires MemOk(m) && p in m.ptrs && m.ptrs[p].Local? && !m.ptrs[p].shared
    requires a !in m.heap && m.ptrs[p].addr in m.heap
    ensures Untouched(m, Reallocate(m, p, k, data, a), p)
  {
    forall q | q in m.ptrs && q != p && m.ptrs[q].Local?
      ensures m.ptrs[q].addr in m.heap && m.ptrs[q].addr != m.ptrs[p].addr
    {
      assert PtrOk(m, q);
      NotSharedWith(m, p, q);
    }
  }

  lemma ReallocateKeeps(m: Mem, p: Ptr, k: Key, data: Bytes, a: nat)
    requires MemOk(m) && p in m.ptrs && m.ptrs[p].Local? && !m.ptrs[p].shared
    requires a !in m.heap && m.ptrs[p].addr in m.heap && UnusedBut(m, k, p)
    ensures MemOk(Reallocate(m, p, k, data, a))
    ensures View(Reallocate(m, p, k, data, a)) == View(m)[p := data]
  {
    var m' := Reallocate(m, p, k, data, a);
    ReallocateTouches(m, p, k, data, a);
    assert IsAt(m', p, a);
    OneChanged(m, m', p);
  }

  lemma FreeTouches(m: Mem, p: Ptr)
    requires MemOk(m) && p in m.ptrs && !m.ptrs[p].shared
    ensures Untouched(m, Free(m, p), p)
  {
    forall q | q in m.ptrs && q != p && m.ptrs[q].Local?
      ensures m.ptrs[q].addr in m.heap && !IsAt(m, p, m.ptrs[q].addr)
    {
      assert PtrOk(m, q);
      NotSharedWith(m, p, q);
    }
  }

  lemma FreeKeeps(m: Mem, p: Ptr)
    requires MemOk(m) && p in m.ptrs && !m.ptrs[p].shared
    ensures MemOk(Free(m, p)) && View(Free(m, p)) == View(m) - {p}
  {
    FreeTouches(m, p);
    OneChanged(m, Free(m, p), p);
  }

  lemma AliasStays(m: Mem, p: Ptr, q: Ptr, r: Ptr)
    requires MemOk(m) && p in m.ptrs && q !in m.ptrs && r in m.ptrs
    ensures var m' := Alias(m, p, q);
            PtrOk(m', r) && KeyOf(m', r) == KeyOf(m, r) && Content(m', r) == Content(m, r)
  {
    assert PtrOk(m, r);
    if m.ptrs[r].Local? {
      PtrStays(m, Alias(m, p, q), r);
    }
  }

  lemma AliasKeeps(m: Mem, p: Ptr, q: Ptr)
    requires MemOk(m) && p in m.ptrs && m.ptrs[p].shared && q !in m.ptrs
    ensures MemOk(Alias(m, p, q))
    ensures View(Alias(m, p, q)) == View(m)[q := Content(m, p)]
  {
    var m' := Alias(m, p, q);
    forall r | r in m'.ptrs
      ensures PtrOk(m', r) && KeyOf(m', r) == KeyOf(m, if r == q then p else r)
    {
      AliasStays(m, p, q, if r == q then p else r);
    }
    forall r, w | r in m'.ptrs && w in m'.ptrs && r != w ensures Agree(m', r, w) {
      var r', w' := if r == q then p else r, if w == q then p else w;
      assert r' == w' || Agree(m, r', w');
    }
    forall r | r in m.ptrs ensures Content(m', r) == Content(m, r) {
      AliasStays(m, p, q, r);
    }
    ViewChanged(m, m', q);
  }

  // Setting flags of a local word, as long as D is not cleared.
  lemma FlagsKeep(m: Mem, p: Ptr, w: Meta<nat>)
    requires MemOk(m) && p in m.ptrs && m.ptrs[p].Local? && w.Local?
    requires w.addr == m.ptrs[p].addr && w.shared == m.ptrs[p].shared && (m.ptrs[p].dirty ==> w.dirty)
    ensures MemOk(m.(ptrs := m.ptrs[p := w])) && View(m.(ptrs := m.ptrs[p := w])) == View(m)
  {
    var m' := m.(ptrs := m.ptrs[p := w]);
    forall q | q in m'.ptrs ensures PtrOk(m', q) && Content(m', q) == Content(m, q) && KeyOf(m', q) == KeyOf(m, q) {
      assert PtrOk(m, q);
      if m.ptrs[q].Local? {
        PtrStays(m, m', q);
      }
    }
    StillAgree(m, m');
  }

  // The view after a store: every pointer whose word points there sees it, and no other one does.
  function Seen(m: Mem, v: map<Ptr, Bytes>, a: nat, data: Bytes): map<Ptr, Bytes> {
    map p | p in v :: if IsAt(m, p, a) then data else v[p]
  }

  lemma StoreSeen(m: Mem, a: nat, data: Bytes)
    requires MemOk(m) && a in m.heap
    ensures View(Store(m, a, data)) == Seen(m, View(m), a, data)
  {
  }

  lemma StoreKeeps(m: Mem, a: nat, data: Bytes)
    requires MemOk(m) && a in m.heap && |data| == |m.heap[a].data|
    requires (exists p :: IsAt(m, p, a)) ==> DirtyAt(m, a)
    ensures MemOk(Store(m, a, data)) && View(Store(m, a, data)) == Seen(m, View(m), a, data)
  {
    var m' := Store(m, a, data);
    SameDirt(m, m');
    forall p | p in m'.ptrs ensures PtrOk(m', p) {
      assert PtrOk(m, p);
      if m.ptrs[p].Local? {
        assert IsAt(m', m.heap[m.ptrs[p].addr].owner, m.ptrs[p].addr);
        assert IsAt(m, p, m.ptrs[p].addr);
      }
    }
    StillAgree(m, m');
    StoreSeen(m, a, data);
  }

  // Once nothing points into a region, handing its memory out again is invisible.
  lemma RecycledKeeps(m: Mem, r: nat)
    requires MemOk(m) && forall p :: p in m.ptrs && m.ptrs[p].Local? ==> m.ptrs[p].addr / SIZE != r
    ensures Invisible(m, Recycled(m, r))
  {
    var m' := Recycled(m, r);
    forall p | p in m'.ptrs ensures PtrOk(m', p) && Content(m', p) == Content(m, p) && KeyOf(m', p) == KeyOf(m, p) {
      assert PtrOk(m, p);
      if m.ptrs[p].Local? {
        PtrStays(m, m', p);
      }
    }
    StillAgree(m, m');
  }

  // ---------- the object behind each pointer ----------

  lemma AliasKeys(m: Mem, p: Ptr, q: Ptr)
    requires MemOk(m) && p in m.ptrs && q !in m.ptrs
    ensures Keys(Alias(m, p, q)) == Keys(m)[q := KeyOf(m, p)]
  {
  }

  lemma AllocateKeys(m: Mem, p: Ptr, shared: bool, k: Key, data: Bytes, a: nat)
    requires MemOk(m) && p !in m.ptrs && a !in m.heap
    ensures Keys(Allocate(m, p, shared, k, data, a)) == Keys(m)[p := k]
  {
  }

  lemma ReallocateKeys(m: Mem, p: Ptr, k: Key, data: Bytes, a: nat)
    requires MemOk(m) && p in m.ptrs && m.ptrs[p].Local? && !m.ptrs[p].shared
    requires a !in m.heap && m.ptrs[p].addr in m.heap
    ensures Keys(Reallocate(m, p, k, data, a)) == Keys(m)[p := k]
  {
  }

  lemma FreeForgets(m: Mem, p: Ptr)
    requires MemOk(m) && p in m.ptrs && !m.ptrs[p].shared
    ensures Keys(Free(m, p)) == Keys(m) - {p}
  {
  }

  // Flags and stores leave every pointer with its object.
  lemma AccessKeys(m: Mem, p: Ptr, hot: bool)
    requires p in m.ptrs && m.ptrs[p].Local?
    ensures Keys(DerefMut(m, p)) == Keys(m) && Keys(SetHot(m, p, hot)) == Keys(m)
  {
  }

  lemma StoreMovesNothing(m: Mem, a: nat, data: Bytes)
    requires a in m.heap
    ensures Keys(Store(m, a, data)) == Keys(m)
  {
  }

  lemma InvisibleKeys(m: Mem, m': Mem)
    requires Invisible(m, m')
    ensures Keys(m') == Keys(m)
  {
  }
}
