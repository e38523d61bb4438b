/**
 The DynamicSwap pager (src/dswap.cpp) on top of the far-memory manager: registration, one pass of
 the pager thread, one pass of the memory thread, and the array constructor that registers every
 element (aifm_changes/array.cpp).  Registration and both passes hold one mutex.
 */
module Pagers {
  import opened PtrMeta
  import opened Regions
  import opened RegionManagers
  import opened RegionManagement
  import opened FarMemory
  import opened Evacuation
  import opened CacheHeaps
  import opened FarMemManagers
  import opened ObjRefs

  function Present(m: Mem, p: Ptr): bool {
    p in m.ptrs && m.ptrs[p].Local?
  }

  // The sizes of the present registered objects, with so many bytes on top of each.
  function Total(refs: seq<ObjRef>, m: Mem, extra: nat): nat {
    if refs == [] then 0
    else
      var last := refs[|refs| - 1];
      Total(refs[..|refs| - 1], m, extra) + if Present(m, last.ptr) then last.size + extra else 0
  }

  // ---------- disjoint spans fit into the space they lie in ----------

  datatype Span = Span(start: nat, len: nat)

  function Sum(spans: seq<Span>): nat {
    if spans == [] then 0 else Sum(spans[..|spans| - 1]) + spans[|spans| - 1].len
  }

  ghost predicate Apart(spans: seq<Span>) {
    forall i, j :: 0 <= i < |spans| && 0 <= j < |spans| && i != j ==>
      spans[i].start + spans[i].len <= spans[j].start || spans[j].start + spans[j].len <= spans[i].start
  }

  lemma {:induction false} SumSplits(a: seq<Span>, b: seq<Span>)
    ensures Sum(a + b) == Sum(a) + Sum(b)
  {
    if b == [] {
      assert a + b == a;
    } else {
      assert (a + b)[..|a + b| - 1] == a + b[..|b| - 1];
      SumSplits(a, b[..|b| - 1]);
    }
  }

  lemma SumAppend(a: seq<Span>, x: Span)
    ensures Sum(a + [x]) == Sum(a) + x.len
  {
  }

  lemma {:induction false} Highest(spans: seq<Span>) returns (k: nat)
    requires spans != []
    ensures k < |spans| && forall i :: 0 <= i < |spans| ==> spans[i].start <= spans[k].start
    decreases |spans|
  {
    k := 0;
    if |spans| > 1 {
      var last := |spans| - 1;
      var j := Highest(spans[..last]);
      assert forall i :: 0 <= i < last ==> spans[..last][i] == spans[i];
      k := if spans[j].start <= spans[last].start then last else j;
    }
  }

  lemma {:induction false} SpansFit(spans: seq<Span>, n: nat)
    requires Apart(spans) && forall i :: 0 <= i < |spans| ==> 0 < spans[i].len && spans[i].start + spans[i].len <= n
    ensures Sum(spans) <= n
    decreases |spans|
  {
    if spans != [] {
      var k := Highest(spans);
      var rest := spans[..k] + spans[k + 1..];
      assert forall i :: 0 <= i < |rest| ==> rest[i] == spans[if i < k then i else i + 1];
      assert Apart(rest);
      SpansFit(rest, spans[k].start);
      assert spans == spans[..k] + [spans[k]] + spans[k + 1..];
      SumSplits(spans[..k] + [spans[k]], spans[k + 1..]);
      SumAppend(spans[..k], spans[k]);
      SumSplits(spans[..k], spans[k + 1..]);
    }
  }

  // ---------- the accounting ----------

  // Distinct unshared pointers, none registered with more than its object's length.
  ghost predicate Registered(refs: seq<ObjRef>, m: Mem) {
    && (forall i, j :: 0 <= i < j < |refs| ==> refs[i].ptr != refs[j].ptr)
    && (forall r <- refs :: r.ptr in m.ptrs && !m.ptrs[r.ptr].shared && r.size <= |Content(m, r.ptr)|)
  }

  // Steps nobody can see keep the registration.
  lemma RegisteredStays(refs: seq<ObjRef>, m: Mem, m': Mem)
    requires Registered(refs, m) && Invisible(m, m')
    ensures Registered(refs, m')
  {
    forall r <- refs ensures r.ptr in m'.ptrs && !m'.ptrs[r.ptr].shared && r.size <= |Content(m', r.ptr)| {
      assert View(m')[r.ptr] == View(m)[r.ptr];
    }
  }

  // Where the present registered objects lie in the cache.
  function Spans(refs: seq<ObjRef>, m: Mem): seq<Span> {
    if refs == [] then []
    else
      var init, p := refs[..|refs| - 1], refs[|refs| - 1].ptr;
      if Present(m, p) then Spans(init, m) + [Span(m.ptrs[p].addr, Align(SizeOf(m.header, Content(m, p))))]
      else Spans(init, m)
  }

  lemma {:induction false} SpanOf(refs: seq<ObjRef>, m: Mem, i: nat) returns (p: Ptr)
    requires i < |Spans(refs, m)|
    ensures Present(m, p) && (exists r :: r in refs && r.ptr == p)
    ensures Spans(refs, m)[i] == Span(m.ptrs[p].addr, Align(SizeOf(m.header, Content(m, p))))
    decreases |refs|
  {
    var init := refs[..|refs| - 1];
    if i < |Spans(init, m)| {
      p := SpanOf(init, m, i);
      var r :| r in init && r.ptr == p;
      assert r in refs;
    } else {
      p := refs[|refs| - 1].ptr;
      assert refs[|refs| - 1] in refs;
    }
  }

  // Every present registered object takes more room than it is counted for: its header and its id.
  lemma {:induction false} TotalWithinSpans(refs: seq<ObjRef>, m: Mem)
    requires forall r <- refs :: r.ptr in m.ptrs && r.size <= |Content(m, r.ptr)|
    ensures Total(refs, m, 0) <= Total(refs, m, m.header + ID_LEN) <= Sum(Spans(refs, m))
    decreases |refs|
  {
    hide Content;
    if refs != [] {
      var init, last := refs[..|refs| - 1], refs[|refs| - 1];
      assert last in refs && forall r <- init :: r in refs;
      TotalWithinSpans(init, m);
      if Present(m, last.ptr) {
        var len := Align(SizeOf(m.header, Content(m, last.ptr)));
        assert last.size + m.header + ID_LEN <= len;
        SumAppend(Spans(init, m), Span(m.ptrs[last.ptr].addr, len));
      }
    }
  }

  // A present pointer's object lies inside the cache's regions.
  lemma PresentHolds(s: Sys, c: Mgr, f: Mgr, next: map<Ptr, Ptr>, rings: map<Ptr, seq<Ptr>>, p: Ptr)
    requires Sound(s, c, f, next, rings) && Present(s.mem, p)
    ensures var a, size := s.mem.ptrs[p].addr, SizeOf(s.mem.header, Content(s.mem, p));
            Holds(c, a, size) && 0 < size && a + Align(size) <= |c.regs| * SIZE
  {
    assert PtrOk(s.mem, p);
    hide MemOk, WordOk, ObjOk, ScopeOk, TodoOk, Rings, IdsLive, RegionManagers.ValidBut, Holds;
    LiveObjectIsInside(c, s.mem.ptrs[p].addr, SizeOf(s.mem.header, Content(s.mem, p)));
  }

  // And no other pointer's object overlaps that of an unshared one.
  lemma TwoApart(s: Sys, c: Mgr, f: Mgr, next: map<Ptr, Ptr>, rings: map<Ptr, seq<Ptr>>, p: Ptr, q: Ptr)
    requires Sound(s, c, f, next, rings) && Present(s.mem, p) && Present(s.mem, q) && p != q && !s.mem.ptrs[p].shared
    ensures var a, z := s.mem.ptrs[p].addr, Align(SizeOf(s.mem.header, Content(s.mem, p)));
            var b, y := s.mem.ptrs[q].addr, Align(SizeOf(s.mem.header, Content(s.mem, q)));
            a + z <= b || b + y <= a
  {
    PresentHolds(s, c, f, next, rings, p);
    PresentHolds(s, c, f, next, rings, q);
    NotSharedWith(s.mem, p, q);
    hide Linked, MemOk, WordOk, ObjOk, ScopeOk, TodoOk, Rings, IdsLive, RegionManagers.ValidBut, Holds;
    LiveObjectsAreDisjoint(
      c, s.mem.ptrs[p].addr, SizeOf(s.mem.header, Content(s.mem, p)),
      s.mem.ptrs[q].addr, SizeOf(s.mem.header, Content(s.mem, q)));
  }

  // The spans of distinct registered pointers come from distinct pointers.
  lemma {:induction false} SpansApart(s: Sys, c: Mgr, f: Mgr, next: map<Ptr, Ptr>, rings: map<Ptr, seq<Ptr>>,
      refs: seq<ObjRef>)
    requires Sound(s, c, f, next, rings) && Registered(refs, s.mem)
    ensures var spans := Spans(refs, s.mem);
            && Apart(spans)
            && forall i :: 0 <= i < |spans| ==> 0 < spans[i].len && spans[i].start + spans[i].len <= |c.regs| * SIZE
    decreases |refs|
  {
    hide Sound, Content;
    if refs != [] {
      var init, last := refs[..|refs| - 1], refs[|refs| - 1];
      assert last in refs && forall r <- init :: r in refs;
      SpansApart(s, c, f, next, rings, init);
      if Present(s.mem, last.ptr) {
        PresentHolds(s, c, f, next, rings, last.ptr);
        var old' := Spans(init, s.mem);
        forall i | 0 <= i < |old'|
          ensures var z := old'[i];
                  var y := Span(s.mem.ptrs[last.ptr].addr, Align(SizeOf(s.mem.header, Content(s.mem, last.ptr))));
                  z.start + z.len <= y.start || y.start + y.len <= z.start
        {
          var p := SpanOf(init, s.mem, i);
          TwoApart(s, c, f, next, rings, last.ptr, p);
        }
      }
    }
  }

  // The registered objects present at one moment fit into the cache, headers and ids included.
  lemma PresentFit(s: Sys, c: Mgr, f: Mgr, next: map<Ptr, Ptr>, rings: map<Ptr, seq<Ptr>>, refs: seq<ObjRef>)
    requires Sound(s, c, f, next, rings) && Registered(refs, s.mem)
    ensures Total(refs, s.mem, 0) <= Total(refs, s.mem, s.mem.header + ID_LEN) <= |c.regs| * SIZE
  {
    hide Sound, Apart, Sum, Spans, Total, Content;
    SpansApart(s, c, f, next, rings, refs);
    SpansFit(Spans(refs, s.mem), |c.regs| * SIZE);
    TotalWithinSpans(refs, s.mem);
  }

  lemma RegisteredIsLive(refs: seq<ObjRef>, m: Mem, i: nat)
    requires Registered(refs, m) && i < |refs|
    ensures refs[i].ptr in m.ptrs
  {
  }

  // A new object and its registration.
  lemma RegisteredGrows(refs: seq<ObjRef>, m: Mem, m': Mem, r: ObjRef, data: Bytes)
    requires r.ptr !in m.ptrs && r.ptr in m'.ptrs && !m'.ptrs[r.ptr].shared
    requires m'.ptrs == m.ptrs[r.ptr := m'.ptrs[r.ptr]] && View(m') == View(m)[r.ptr := data]
    ensures Registered(refs + [r], m') <==> Registered(refs, m) && r.size <= |data|
  {
    var all := refs + [r];
    assert View(m')[r.ptr] == data;
    assert all[|refs|] == r && forall i :: 0 <= i < |refs| ==> all[i] == refs[i];
    forall q <- refs | q.ptr in m'.ptrs && q.ptr != r.ptr
      ensures q.ptr in m.ptrs && m'.ptrs[q.ptr] == m.ptrs[q.ptr] && Content(m', q.ptr) == Content(m, q.ptr)
    {
      assert View(m')[q.ptr] == View(m)[q.ptr];
    }
    hide Content;
    if Registered(refs, m) && r.size <= |data| {
      assert Registered(all, m');
    }
    if Registered(all, m') {
      assert r in all && forall q <- refs :: q in all && q.ptr != r.ptr;
      assert Registered(refs, m);
    }
  }

  // Rounding the region count up leaves the regions within the cache size only for whole regions.
  lemma WholeRegions(size: nat)
    ensures RegionCount(size) * SIZE <= size <==> size % SIZE == 0
  {
  }

  // The 64-bit difference of a cache size and a 64-bit sum.
  lemma RestOf(cacheSize: nat, total: nat)
    requires cacheSize < WORD
    ensures (cacheSize + WORD - total % WORD) % WORD == (cacheSize - total) % WORD
    ensures (cacheSize - total) % WORD == cacheSize - total <==> total <= cacheSize
    ensures cacheSize < total <= cacheSize + WORD ==> (cacheSize - total) % WORD == WORD - (total - cacheSize)
  {
    Shift(cacheSize - total, total / WORD + 1);
  }

  class Pager {
    const cacheSize: nat
    const swapThreshold: nat
    var refs: seq<ObjRef>    // object_refs
    var availableMem: nat

    // init_dynamic_pager: a tenth of the cache, rounded up.
    constructor (cacheSize: nat)
      requires cacheSize < WORD
      ensures this.cacheSize == cacheSize && refs == [] && availableMem == 0
      ensures 10 * swapThreshold - 10 < cacheSize <= 10 * swapThreshold
    {
      this.cacheSize, swapThreshold := cacheSize, (cacheSize + 9) / 10;
      refs, availableMem := [], 0;
    }

    method RegisterObject(p: Ptr, size: nat)
      modifies `refs
      ensures refs == old(refs) + [ObjRef(p, size)]
    {
      refs := refs + [ObjRef(p, size)];
    }

    // The sum of dynamic_memory's scan, in 64-bit arithmetic.
    method Scan(m: Mem) returns (total: nat)
      ensures total == Total(refs, m, 0) % WORD
    {
      total := 0;
      for i := 0 to |refs|
        invariant total == Total(refs[..i], m, 0) % WORD
      {
        assert refs[..i + 1][..i] == refs[..i];
        if Present(m, refs[i].ptr) {
          total := (total + refs[i].size) % WORD;
        }
      }
      assert refs[..|refs|] == refs;
    }

    // One pass of dynamic_memory over one state of memory.
    method MemoryPass(manager: FarMemManager)
      requires manager.Valid() && cacheSize < WORD
      modifies `availableMem
      ensures availableMem == (cacheSize - Total(refs, manager.mem, 0)) % WORD
      // It wraps exactly when the registered sizes exceed the cache; it is then close to 2^64, and the
      // pager sees room.
      ensures availableMem == cacheSize - Total(refs, manager.mem, 0) <==> Total(refs, manager.mem, 0) <= cacheSize
      ensures cacheSize < Total(refs, manager.mem, 0) <= cacheSize + WORD ==>
                availableMem == WORD - (Total(refs, manager.mem, 0) - cacheSize)
      // For distinct objects in a cache of whole regions the difference does not wrap.
      ensures Registered(refs, manager.mem) && |manager.cache.regs| * SIZE <= cacheSize ==>
                && availableMem == cacheSize - Total(refs, manager.mem, 0)
                && Total(refs, manager.mem, manager.header + ID_LEN) <= cacheSize
    {
      hide Total, Registered;
      if Registered(refs, manager.mem) {
        RegisteredFit(manager, refs);
      }
      var total := Scan(manager.mem);
      RestOf(cacheSize, Total(refs, manager.mem, 0));
      availableMem := (cacheSize + WORD - total) % WORD;
    }

    // One turn of dynamic_pager's loop, when there is memory to spare.
    method PageIn(manager: FarMemManager, core: nat, p: Ptr) returns (blocked: bool)
      requires manager.Valid() && core < manager.cache.cores && p in manager.mem.ptrs && Registered(refs, manager.mem)
      modifies manager`mem, manager.cache
      ensures manager.Valid() && Invisible(old(manager.mem), manager.mem) && Registered(refs, manager.mem)
      ensures forall q :: Present(old(manager.mem), q) ==> Present(manager.mem, q)
      ensures if blocked then manager.cache.free == [] else Present(manager.mem, p)
      // An absent object comes into a temporal region.
      ensures !Present(old(manager.mem), p) && !blocked ==> manager.LandedIn(core, false, manager.mem.ptrs[p].addr)
      ensures Present(old(manager.mem), p) ==> !blocked && manager.mem == old(manager.mem)
      ensures !Present(old(manager.mem), p)
              && HEADER + Align(SizeOf(manager.header, old(Content(manager.mem, p)))) <= SIZE ==>
                var size := SizeOf(manager.header, old(Content(manager.mem, p)));
                blocked <==> !old(Available(manager.cache.Value(), 2 * core, size))
    {
      hide Registered, Available, Align, SizeOf, RegionManagers.ValidBut, Sound, View;
      ghost var m := manager.mem;
      blocked := manager.SwapInObject(core, false, p);
      hide MemOk;
      RegisteredStays(refs, m, manager.mem);
    }

    // One pass of dynamic_pager that nothing interferes with: it swaps in every absent registered
    // object or none (module PagerThreads has the mutex, the other threads and the evictions).
    // `blocked`: the thread waits for the collector.
    method PagerPass(manager: FarMemManager, core: nat) returns (blocked: bool)
      requires manager.Valid() && core < manager.cache.cores && Registered(refs, manager.mem)
      modifies manager`mem, manager.cache
      ensures manager.Valid() && View(manager.mem) == View(old(manager.mem)) && Registered(refs, manager.mem)
      ensures availableMem < swapThreshold ==> !blocked && manager.mem == old(manager.mem)
      ensures availableMem >= swapThreshold && !blocked ==> forall r <- refs :: Present(manager.mem, r.ptr)
      ensures blocked ==> manager.cache.free == []
    {
      hide Sound, RegionManagers.ValidBut, MemOk, SameKeys, Registered, View, Content;
      blocked := false;
      for i := 0 to |refs|
        invariant manager.Valid() && View(manager.mem) == View(old(manager.mem)) && Registered(refs, manager.mem)
        invariant availableMem < swapThreshold ==> manager.mem == old(manager.mem)
        invariant availableMem >= swapThreshold ==> forall j :: 0 <= j < i ==> Present(manager.mem, refs[j].ptr)
      {
        if availableMem < swapThreshold {
          break;
        }
        RegisteredIsLive(refs, manager.mem, i);
        if Present(manager.mem, refs[i].ptr) {
          continue;
        }
        blocked := PageIn(manager, core, refs[i].ptr);
        if blocked {
          return;
        }
      }
    }
  }

  lemma RegisteredFit(manager: FarMemManager, refs: seq<ObjRef>)
    requires manager.Valid() && Registered(refs, manager.mem)
    ensures var most := |manager.cache.regs| * SIZE;
            Total(refs, manager.mem, 0) <= Total(refs, manager.mem, manager.header + ID_LEN) <= most
  {
    hide Sound, Registered, Total;
    PresentFit(manager.S(), manager.cache.Value(), manager.far.Value(), manager.next, manager.rings, refs);
  }

  const ITEM_SIZES: nat := 0x1_0000  // what a uint16_t holds

  function Elements(base: Ptr, size: nat, n: nat): seq<ObjRef> {
    if n == 0 then [] else Elements(base, size, n - 1) + [ObjRef(base + n - 1, size)]
  }

  function WithElements(v: map<Ptr, Bytes>, base: Ptr, contents: seq<Bytes>): map<Ptr, Bytes> {
    if contents == [] then v
    else WithElements(v, base, contents[..|contents| - 1])[base + |contents| - 1 := contents[|contents| - 1]]
  }

  // After n elements, from memory m0 and registrations refs0: every element is present with its bytes.
  // The elements with the sizes they have are within their objects; as registered they are, and the
  // pager's accounting stays sound, exactly when the cut loses nothing.
  ghost predicate Built(m0: Mem, refs0: seq<ObjRef>, m: Mem, refs: seq<ObjRef>, base: Ptr, itemSize: nat,
      contents: seq<Bytes>, n: nat)
    requires n <= |contents|
  {
    && refs == refs0 + Elements(base, itemSize, n)
    && View(m) == WithElements(View(m0), base, contents[..n])
    && (forall p :: base + n <= p < base + |contents| ==> p !in m.ptrs)
    && (forall p :: base <= p < base + n ==> Present(m, p))
    && Registered(Elements(base, itemSize % ITEM_SIZES, n), m)
    && (Registered(refs, m) <==> Registered(refs0, m0) && (n == 0 || itemSize < ITEM_SIZES))
  }

  lemma BuiltNone(m: Mem, refs: seq<ObjRef>, base: Ptr, itemSize: nat, contents: seq<Bytes>)
    requires forall p :: base <= p < base + |contents| ==> p !in m.ptrs
    ensures Built(m, refs, m, refs, base, itemSize, contents, 0)
  {
    assert contents[..0] == [] && refs + [] == refs;
  }

  lemma BuiltOneMore(m0: Mem, refs0: seq<ObjRef>, m: Mem, refs: seq<ObjRef>, base: Ptr, itemSize: nat,
      contents: seq<Bytes>, n: nat, m': Mem)
    requires n < |contents| && |contents[n]| == itemSize % ITEM_SIZES
    requires Built(m0, refs0, m, refs, base, itemSize, contents, n)
    requires View(m') == View(m)[base + n := contents[n]] && Present(m', base + n)
    requires forall q :: q != base + n ==> (Present(m', q) <==> Present(m, q))
    requires var r := ObjRef(base + n, itemSize);
             Registered(refs + [r], m') <==> Registered(refs, m) && itemSize <= |contents[n]|
    requires Registered(Elements(base, itemSize % ITEM_SIZES, n) + [ObjRef(base + n, |contents[n]|)], m')
    ensures Built(m0, refs0, m', refs + [ObjRef(base + n, itemSize)], base, itemSize, contents, n + 1)
  {
    hide Registered, Content;
    assert contents[..n + 1][..n] == contents[..n];
    assert refs + [ObjRef(base + n, itemSize)] == refs0 + Elements(base, itemSize, n + 1);
    assert m'.ptrs.Keys == View(m').Keys && m.ptrs.Keys == View(m).Keys;
  }

  lemma NextIsNew(m0: Mem, refs0: seq<ObjRef>, m: Mem, refs: seq<ObjRef>, base: Ptr, itemSize: nat,
      contents: seq<Bytes>, n: nat)
    requires n < |contents| && Built(m0, refs0, m, refs, base, itemSize, contents, n)
    ensures base + n !in m.ptrs && Registered(Elements(base, itemSize % ITEM_SIZES, n), m)
  {
  }

  // One turn of the array constructor's loop.
  method AddElement(manager: FarMemManager, pager: Pager, core: nat, ds: nat, p: Ptr, itemSize: nat, data: Bytes,
      ghost sized: seq<ObjRef>)
    returns (outcome: Outcome)
    requires manager.Valid() && core < manager.cache.cores && core < manager.far.cores && p !in manager.mem.ptrs
    modifies pager`refs, manager`mem, manager.cache, manager.far
    ensures !outcome.Stuck? ==> manager.Valid()
    ensures outcome.Done? ==> pager.refs == old(pager.refs) + [ObjRef(p, itemSize)]
    ensures outcome.Done? ==> View(manager.mem) == View(old(manager.mem))[p := data]
    ensures outcome.Done? ==> Present(manager.mem, p)
    ensures outcome.Done? ==> forall q :: q != p ==> (Present(manager.mem, q) <==> Present(old(manager.mem), q))
    ensures HEADER + Align(SizeOf(manager.header, data)) <= SIZE ==>
              (outcome.Done? <==> old(Available(manager.cache.Value(), 2 * core, SizeOf(manager.header, data)))
                                  && old(Available(manager.far.Value(), 2 * core, SizeOf(manager.header, data))))
    ensures !outcome.Done? ==> pager.refs == old(pager.refs) && manager.mem == old(manager.mem)
    ensures outcome.Done? ==>
              (Registered(pager.refs, manager.mem) <==>
                   && Registered(old(pager.refs), old(manager.mem))
                   && itemSize <= |data|)
    ensures outcome.Done? && Registered(sized, old(manager.mem)) ==>
              Registered(sized + [ObjRef(p, |data|)], manager.mem)
  {
    hide Registered, View, MemOk, Available, Sound, RegionManagers.ValidBut;
    ghost var m, refs := manager.mem, pager.refs;
    outcome := manager.AllocateUniqueNb(core, p, ds, data);
    if outcome.Done? {
      pager.RegisterObject(p, itemSize);
      RegisteredGrows(refs, m, manager.mem, ObjRef(p, itemSize), data);
      RegisteredGrows(sized, m, manager.mem, ObjRef(p, |data|), data);
    }
  }

  // The same, in terms of what has been built.
  method BuildNext(manager: FarMemManager, pager: Pager, core: nat, ds: nat, base: Ptr, itemSize: nat,
      contents: seq<Bytes>, n: nat, ghost m0: Mem, ghost refs0: seq<ObjRef>)
    returns (outcome: Outcome)
    requires manager.Valid() && core < manager.cache.cores && core < manager.far.cores
    requires n < |contents| && |contents[n]| == itemSize % ITEM_SIZES
    requires Built(m0, refs0, manager.mem, pager.refs, base, itemSize, contents, n)
    modifies pager`refs, manager`mem, manager.cache, manager.far
    ensures !outcome.Stuck? ==> manager.Valid()
    ensures Built(m0, refs0, manager.mem, pager.refs, base, itemSize, contents, if outcome.Done? then n + 1 else n)
    ensures HEADER + Align(SizeOf(manager.header, contents[n])) <= SIZE ==>
              (outcome.Done? <==> old(Available(manager.cache.Value(), 2 * core, SizeOf(manager.header, contents[n])))
                                  && old(Available(manager.far.Value(), 2 * core, SizeOf(manager.header, contents[n]))))
  {
    hide FarMemManager.Valid, Available, Align, Elements, Present, Registered, View, Built;
    ghost var m, refs, sized := manager.mem, pager.refs, Elements(base, itemSize % ITEM_SIZES, n);
    NextIsNew(m0, refs0, m, refs, base, itemSize, contents, n);
    outcome := AddElement(manager, pager, core, ds, base + n, itemSize, contents[n], sized);
    if outcome.Done? {
      BuiltOneMore(m0, refs0, m, refs, base, itemSize, contents, n, manager.mem);
    }
  }

  // The constructor of GenericArray.  The element size is a 32-bit number where it is registered
  // and is cut to 16 bits where the element is allocated.  `contents` is what the fresh objects
  // happen to hold.
  method ConstructArray(manager: FarMemManager, pager: Pager, core: nat, ds: nat, base: Ptr, itemSize: nat,
      contents: seq<Bytes>)
    returns (built: nat, outcome: Outcome)
    requires manager.Valid() && core < manager.cache.cores && core < manager.far.cores
    requires forall i :: 0 <= i < |contents| ==> |contents[i]| == itemSize % ITEM_SIZES
    requires forall p :: base <= p < base + |contents| ==> p !in manager.mem.ptrs
    modifies pager`refs, manager`mem, manager.cache, manager.far
    ensures built <= |contents| && (outcome.Done? <==> built == |contents|)
    ensures !outcome.Stuck? ==> manager.Valid()
    ensures Built(old(manager.mem), old(pager.refs), manager.mem, pager.refs, base, itemSize, contents, built)
    ensures 0 < |contents| && HEADER + Align(SizeOf(manager.header, contents[0])) <= SIZE ==>
              (0 < built <==> old(Available(manager.cache.Value(), 2 * core, SizeOf(manager.header, contents[0])))
                              && old(Available(manager.far.Value(), 2 * core, SizeOf(manager.header, contents[0]))))
  {
    ghost var m0, refs0, c, f := manager.mem, pager.refs, manager.cache.Value(), manager.far.Value();
    ghost var first := if contents == [] then 0 else SizeOf(manager.header, contents[0]);
    ghost var room := Available(c, 2 * core, first) && Available(f, 2 * core, first);
    BuiltNone(m0, refs0, base, itemSize, contents);
    hide FarMemManager.Valid, Available, Align, Elements, WithElements, Present, Registered, View, Built;
    built, outcome := 0, Done;
    while built < |contents|
      invariant built <= |contents| && outcome.Done? && manager.Valid()
      invariant Built(m0, refs0, manager.mem, pager.refs, base, itemSize, contents, built)
      invariant 0 < built && HEADER + Align(first) <= SIZE ==> room
      invariant built == 0 ==> manager.cache.Value() == c && manager.far.Value() == f
    {
      outcome := BuildNext(manager, pager, core, ds, base, itemSize, contents, built, m0, refs0);
      if !outcome.Done? {
        break;
      }
      built := built + 1;
    }
  }

  // ---------- what the cut does to the accounting ----------

  lemma {:induction false} ElementsTotal(base: Ptr, size: nat, n: nat, m: Mem)
    requires forall p :: base <= p < base + n ==> Present(m, p)
    ensures Total(Elements(base, size, n), m, 0) == n * size
  {
    if n > 0 {
      ElementsTotal(base, size, n - 1, m);
      assert Elements(base, size, n)[..|Elements(base, size, n)| - 1] == Elements(base, size, n - 1);
    }
  }

  // The bytes that the present registered objects really hold.
  function ContentTotal(refs: seq<ObjRef>, m: Mem): nat {
    if refs == [] then 0
    else
      var last := refs[|refs| - 1];
      ContentTotal(refs[..|refs| - 1], m) + if Present(m, last.ptr) then |Content(m, last.ptr)| else 0
  }

  lemma {:induction false} ElementsContent(base: Ptr, size: nat, n: nat, m: Mem, len: nat)
    requires forall p :: base <= p < base + n ==> Present(m, p) && |Content(m, p)| == len
    ensures ContentTotal(Elements(base, size, n), m) == n * len
  {
    if n > 0 {
      assert (n - 1) * len + len == n * len;
      hide Content;
      ElementsContent(base, size, n - 1, m, len);
      assert Elements(base, size, n)[..|Elements(base, size, n)| - 1] == Elements(base, size, n - 1);
    }
  }

  lemma {:induction false} WithElementsAt(v: map<Ptr, Bytes>, base: Ptr, contents: seq<Bytes>, i: nat)
    requires i < |contents|
    ensures base + i in WithElements(v, base, contents) && WithElements(v, base, contents)[base + i] == contents[i]
    decreases |contents|
  {
    if i + 1 < |contents| {
      WithElementsAt(v, base, contents[..|contents| - 1], i);
    }
  }

  lemma ElementLengths(v: map<Ptr, Bytes>, m: Mem, base: Ptr, contents: seq<Bytes>, len: nat)
    requires View(m) == WithElements(v, base, contents)
    requires forall i :: 0 <= i < |contents| ==> |contents[i]| == len
    ensures forall p :: base <= p < base + |contents| ==> p in m.ptrs && |Content(m, p)| == len
  {
    forall p | base <= p < base + |contents| ensures p in m.ptrs && |Content(m, p)| == len {
      WithElementsAt(v, base, contents, p - base);
      assert p in View(m) && View(m)[p] == Content(m, p);
    }
  }

  // The cut-off part of all elements together is what makes the difference, modulo 2^64.
  lemma CutShows(c: nat, counted: nat, used: nat)
    requires used <= c < WORD
    ensures (c - counted) % WORD == c - used <==> (counted - used) % WORD == 0
    ensures used <= counted < WORD ==> ((c - counted) % WORD == c - used <==> counted == used)
  {
    ModZero(c - counted, c - used);
    ModZero(counted, used);
  }

  lemma ModZero(a: int, b: int)
    ensures 0 <= b < WORD ==> (a % WORD == b <==> (b - a) % WORD == 0)
  {
  }

  lemma CutIsLost(n: nat, size: nat)
    ensures n * size - n * (size % ITEM_SIZES) == n * (size - size % ITEM_SIZES) >= 0
    ensures n * size == n * (size % ITEM_SIZES) <==> n == 0 || size < ITEM_SIZES
  {
    assert n * size == n * (size % ITEM_SIZES) + n * (size - size % ITEM_SIZES);
  }

  // What is stored for n elements is right.
  ghost predicate StoredRight(cacheSize: nat, n: nat, size: nat) {
    (cacheSize - n * size) % WORD == cacheSize - n * (size % ITEM_SIZES)
  }

  lemma StoredRightIff(cacheSize: nat, n: nat, size: nat)
    requires n * (size % ITEM_SIZES) <= cacheSize < WORD
    ensures StoredRight(cacheSize, n, size) <==> n * (size - size % ITEM_SIZES) % WORD == 0
    ensures n * size < WORD ==> (StoredRight(cacheSize, n, size) <==> n == 0 || size < ITEM_SIZES)
  {
    CutIsLost(n, size);
    CutShows(cacheSize, n * size, n * (size % ITEM_SIZES));
  }

  // What an array in an empty registry holds, and what it counts for.
  lemma ArrayHolds(m0: Mem, m: Mem, refs: seq<ObjRef>, base: Ptr, size: nat, contents: seq<Bytes>, n: nat)
    requires n <= |contents| && Built(m0, [], m, refs, base, size, contents, n)
    requires forall i :: 0 <= i < |contents| ==> |contents[i]| == size % ITEM_SIZES
    ensures ContentTotal(refs, m) == n * (size % ITEM_SIZES) && Total(refs, m, 0) == n * size
    ensures var sized := Elements(base, size % ITEM_SIZES, n);
            Registered(sized, m) && Total(sized, m, 0) == n * (size % ITEM_SIZES)
  {
    hide Registered, Content, View, WithElements, Total, ContentTotal;
    assert refs == Elements(base, size, n);
    ElementLengths(View(m0), m, base, contents[..n], size % ITEM_SIZES);
    ElementsContent(base, size, n, m, size % ITEM_SIZES);
    ElementsTotal(base, size, n, m);
    ElementsTotal(base, size % ITEM_SIZES, n, m);
  }

  lemma SizedFits(manager: FarMemManager, sized: seq<ObjRef>, most: nat)
    requires manager.Valid() && Registered(sized, manager.mem) && |manager.cache.regs| * SIZE <= most
    ensures Total(sized, manager.mem, 0) <= most
  {
    hide FarMemManager.Valid, Registered, Total;
    RegisteredFit(manager, sized);
  }

  // An array and a pass of the memory thread.
  method AccountArray(manager: FarMemManager, pager: Pager, core: nat, ds: nat, base: Ptr, itemSize: nat,
      contents: seq<Bytes>)
    returns (built: nat, outcome: Outcome)
    requires manager.Valid() && core < manager.cache.cores && core < manager.far.cores
    requires pager.refs == [] && pager.cacheSize < WORD
    requires forall i :: 0 <= i < |contents| ==> |contents[i]| == itemSize % ITEM_SIZES
    requires forall p :: base <= p < base + |contents| ==> p !in manager.mem.ptrs
    modifies pager, manager`mem, manager.cache, manager.far
    ensures built <= |contents| && (outcome.Done? <==> built == |contents|)
    ensures !outcome.Stuck? ==> manager.Valid() && pager.availableMem == (pager.cacheSize - built * itemSize) % WORD
    // What the elements hold fits a cache of whole regions ...
    ensures ContentTotal(pager.refs, manager.mem) == built * (itemSize % ITEM_SIZES)
    ensures !outcome.Stuck? && |manager.cache.regs| * SIZE <= pager.cacheSize ==>
              ContentTotal(pager.refs, manager.mem) <= pager.cacheSize
    // ... and the rest of the cache is what is stored if and only if the cut loses nothing: exactly, and
    // in terms of the element size, for an array of less than 2^64 bytes.
    ensures !outcome.Stuck? && ContentTotal(pager.refs, manager.mem) <= pager.cacheSize ==>
              var right := pager.cacheSize - ContentTotal(pager.refs, manager.mem);
              && (pager.availableMem == right <==> built * (itemSize - itemSize % ITEM_SIZES) % WORD == 0)
              && (built * itemSize < WORD ==> (pager.availableMem == right <==> built == 0 || itemSize < ITEM_SIZES))
    ensures 0 < |contents| && HEADER + Align(SizeOf(manager.header, contents[0])) <= SIZE ==>
              (0 < built <==> old(Available(manager.cache.Value(), 2 * core, SizeOf(manager.header, contents[0])))
                              && old(Available(manager.far.Value(), 2 * core, SizeOf(manager.header, contents[0]))))
  {
    hide FarMemManager.Valid, Total, ContentTotal, Built, Available, Align, Elements, Registered;
    ghost var m0 := manager.mem;
    built, outcome := ConstructArray(manager, pager, core, ds, base, itemSize, contents);
    ArrayHolds(m0, manager.mem, pager.refs, base, itemSize, contents, built);
    if built * (itemSize % ITEM_SIZES) <= pager.cacheSize {
      StoredRightIff(pager.cacheSize, built, itemSize);
    }
    if !outcome.Stuck? {
      if |manager.cache.regs| * SIZE <= pager.cacheSize {
        SizedFits(manager, Elements(base, itemSize % ITEM_SIZES, built), pager.cacheSize);
      }
      pager.MemoryPass(manager);
    }
  }

  // A manager for a small cache and 64 KiB of far memory, on one core.
  method SmallManager(cacheSize: nat) returns (manager: FarMemManager)
    requires 2 < RegionCount(cacheSize)
    ensures fresh(manager) && fresh(manager.cache) && fresh(manager.far) && manager.Valid() && manager.header == 16
    ensures manager.cache.cores == manager.far.cores == 1 && manager.mem.ptrs == map[]
    ensures manager.cache.free != [] && manager.far.free != []
    ensures |manager.cache.slots| == |manager.far.slots| == 2
  {
    manager := FarMemManager.Create(16, cacheSize, 0x1_0000, 1, 1, 0);
    assert |manager.cache.free| == RegionCount(cacheSize) - 2 && |manager.far.free| == 62;
    assert manager.mem.ptrs.Keys == View(manager.mem).Keys;
  }

  // One element of 65544 bytes as registered, and of 8 as allocated.
  method CutArray(cacheSize: nat) returns (manager: FarMemManager, pager: Pager)
    requires 2 < RegionCount(cacheSize) && cacheSize < WORD
    ensures pager.cacheSize == cacheSize && ContentTotal(pager.refs, manager.mem) == 8
    ensures pager.availableMem == (cacheSize - 0x1_0008) % WORD
    ensures 10 * pager.swapThreshold - 10 < cacheSize <= 10 * pager.swapThreshold
  {
    hide Total, ContentTotal, Sound, Initial;
    manager := SmallManager(cacheSize);
    pager := new Pager(cacheSize);
    var bytes: Bytes := [0, 0, 0, 0, 0, 0, 0, 0];
    assert SizeOf(16, bytes) == 32 && Align(32) == 32;
    var built, outcome := AccountArray(manager, pager, 0, 0, 0, 0x1_0008, [bytes]);
  }

  // In a cache of 64 KiB the free memory wraps: 2^64 - 8 bytes, and the pager goes on.
  method CutSizeWraps() returns (manager: FarMemManager, pager: Pager)
    ensures pager.cacheSize == 0x1_0000 && ContentTotal(pager.refs, manager.mem) == 8
    ensures pager.availableMem == WORD - 8 && pager.swapThreshold <= pager.availableMem
  {
    manager, pager := CutArray(0x1_0000);
  }

  // In a cache of 65 KiB it does not, but 1016 bytes are stored for the 66552 that are left, and the
  // pager stops.
  method CutSizeStarves() returns (manager: FarMemManager, pager: Pager)
    ensures pager.cacheSize == 0x1_0400 && ContentTotal(pager.refs, manager.mem) == 8
    ensures pager.availableMem == 1016 < pager.swapThreshold
  {
    manager, pager := CutArray(0x1_0400);
  }
}
