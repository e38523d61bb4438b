/**
 The 64-bit metadata word of a far-memory pointer (aifm_changes/pointer.hpp).

 Two formats share one word, least significant bit first:
   local   bit 7 !H   bit 8 = 0   bit 9 S   bit 10 !D   bit 16 E        bits 17.. data address
   remote  bits 0-7 data structure  bit 8 = 1   bit 9 S   bits 10-25 size   bits 26.. object id

 `Meta` is what a word means.  The functions on `Meta` are the metadata operations the
 rest of the project uses; the methods of `FarMemPtrMeta` are the same operations on bits.
 */
module PtrMeta {

  // What a word means, with numbers of type N: bit-vectors here, naturals in module FarMemory.
  datatype Meta<N> =
    | Local(hot: bool, shared: bool, dirty: bool, evac: bool, addr: N)
    | Remote(ds: N, shared: bool, size: N, id: N)

  // ---------- the operations, on meanings ----------

  // A new object has never been written to the device, so it is dirty.
  function InitMeta<N>(shared: bool, addr: N): Meta<N> {
    Local(false, shared, true, false, addr)
  }

  // A swapped-in object equals its device copy, so it is clean.
  function PresentMeta<N>(m: Meta<N>, addr: N): Meta<N> {
    Local(false, m.shared, false, false, addr)
  }

  // A copy to a new address keeps D and S and clears E.
  function CopyMeta<N>(m: Meta<N>, addr: N): Meta<N> {
    Local(false, m.shared, m.Local? && m.dirty, false, addr)
  }

  function MarkMeta<N>(m: Meta<N>): Meta<N> {
    if m.Local? then m.(evac := true) else m
  }

  function SharedMeta<N>(m: Meta<N>): Meta<N> {
    m.(shared := true)
  }

  function WriteBackMeta<N>(m: Meta<N>, ds: N, size: N, id: N): Meta<N> {
    Remote(ds, m.shared, size, id)
  }

  // ---------- the bits ----------

  const HOT_CLEAR: bv64 := 0x80
  const PRESENT_CLEAR: bv64 := 0x100
  const SHARED_SET: bv64 := 0x200
  const DIRTY_CLEAR: bv64 := 0x400
  const EVACUATION_SET: bv64 := 0x1_0000
  const NULL: bv64 := PRESENT_CLEAR
  const NULL_MASK: bv64 := 0xFFFF_FFFF_FFFF_FF00
  const ADDR_LIMIT: bv64 := 0x8000_0000_0000
  const ID_LIMIT: bv64 := 0x40_0000_0000

  function PackLocal(hot: bool, shared: bool, dirty: bool, evac: bool, dataAddr: bv64): bv64 {
    (if hot then 0 else HOT_CLEAR) | (if shared then SHARED_SET else 0)
    | (if dirty then 0 else DIRTY_CLEAR) | (if evac then EVACUATION_SET else 0) | (dataAddr << 17)
  }

  function PackRemote(ds: bv64, shared: bool, size: bv64, id: bv64): bv64 {
    ds | PRESENT_CLEAR | (if shared then SHARED_SET else 0) | (size << 10) | (id << 26)
  }

  predicate Bit(w: bv64, mask: bv64) { w & mask != 0 }

  // A local word holds the address of the object's data, which starts behind the object's header.
  function Decode(w: bv64): Meta<bv64> {
    if !Bit(w, PRESENT_CLEAR) then
      Local(!Bit(w, HOT_CLEAR), Bit(w, SHARED_SET), !Bit(w, DIRTY_CLEAR), Bit(w, EVACUATION_SET), w >> 17)
    else
      Remote(w & 0xFF, Bit(w, SHARED_SET), (w >> 10) & 0xFFFF, w >> 26)
  }

  function WithShared(w: bv64): (v: bv64)
    ensures Decode(v) == SharedMeta(Decode(w))
  {
    w | SHARED_SET
  }

  class FarMemPtrMeta {
    const header: bv64  // Object::kHeaderSize
    var word: bv64

    ghost function Meaning(): Meta<bv64>
      reads this
    {
      Decode(word)
    }

    // A fresh pointer is null.
    constructor (header: bv64)
      ensures this.header == header && word == NULL
    {
      this.header := header;
      word := NULL;
    }

    predicate IsPresent() reads this { !Bit(word, PRESENT_CLEAR) }
    predicate IsShared() reads this { Bit(word, SHARED_SET) }
    predicate IsDirty() reads this { !Bit(word, DIRTY_CLEAR) }
    predicate IsHot() reads this { !Bit(word, HOT_CLEAR) }
    predicate IsEvacuation() reads this { Bit(word, EVACUATION_SET) }
    predicate IsNull() reads this { word & NULL_MASK == NULL }
    function GetObjectDataAddr(): bv64 reads this { word >> 17 }
    function GetDsId(): bv64 reads this { word & 0xFF }
    function GetObjectSize(): bv64 reads this { (word >> 10) & 0xFFFF }
    function GetObjectId(): bv64 reads this { word >> 26 }

    method Init(shared: bool, objectAddr: bv64)
      requires objectAddr + header < ADDR_LIMIT
      modifies this
      ensures Meaning() == InitMeta(shared, objectAddr + header)
      ensures Meaning() == Local(false, shared, true, false, objectAddr + header)
    {
      LocalRoundTrip(false, shared, true, false, objectAddr + header);
      word := PackLocal(false, shared, true, false, objectAddr + header);
    }

    method SetPresent(objectAddr: bv64)
      requires objectAddr + header < ADDR_LIMIT
      modifies this
      ensures Meaning() == PresentMeta(old(Meaning()), objectAddr + header)
      ensures Meaning() == Local(false, old(Meaning()).shared, false, false, objectAddr + header)
    {
      var shared := IsShared();
      LocalRoundTrip(false, shared, false, false, objectAddr + header);
      word := PackLocal(false, shared, false, false, objectAddr + header);
    }

    method SetEvacuation()
      requires IsPresent()
      modifies this
      ensures old(Meaning()).Local? && Meaning() == old(Meaning()).(evac := true)
    {
      RaiseEvacuation(word);
      word := word | EVACUATION_SET;
    }

    method SetDirty()
      requires IsPresent()
      modifies this
      ensures old(Meaning()).Local? && Meaning() == old(Meaning()).(dirty := true)
    {
      RaiseDirty(word);
      word := word & !DIRTY_CLEAR;
    }

    method ClearDirty()
      requires IsPresent()
      modifies this
      ensures old(Meaning()).Local? && Meaning() == old(Meaning()).(dirty := false)
    {
      LowerDirty(word);
      word := word | DIRTY_CLEAR;
    }

    method SetHot()
      requires IsPresent()
      modifies this
      ensures old(Meaning()).Local? && Meaning() == old(Meaning()).(hot := true)
    {
      RaiseHot(word);
      word := word & !HOT_CLEAR;
    }

    // S lies in the same bit of both formats, so this works on either.
    method SetShared()
      modifies this
      ensures Meaning() == SharedMeta(old(Meaning()))
      ensures Meaning().shared && Meaning().Local? == old(Meaning()).Local?
    {
      word := WithShared(word);
    }

    method Nullify()
      modifies this
      ensures IsNull() && !IsPresent()
    {
      word := NULL;
    }

    method GcCopy(newObjectAddr: bv64)
      requires IsPresent() && newObjectAddr + header < ADDR_LIMIT
      modifies this
      ensures old(Meaning()).Local? && Meaning() == CopyMeta(old(Meaning()), newObjectAddr + header)
      ensures Meaning() == Local(false, old(Meaning()).shared, old(Meaning()).dirty, false, newObjectAddr + header)
    {
      var shared, dirty := IsShared(), IsDirty();
      LocalRoundTrip(false, shared, dirty, false, newObjectAddr + header);
      word := PackLocal(false, shared, dirty, false, newObjectAddr + header);
    }

    // What `swap_in` reads back is the same data structure, size, id and shared bit, provided
    // the 64-bit id fits the 38-bit field (RemoteIds.WriteBackFits proves that it does).
    method GcWb(ds: bv64, objectSize: bv64, objectId: bv64)
      requires ds < 0x100 && objectSize < 0x1_0000 && objectId < ID_LIMIT
      modifies this
      ensures Meaning() == WriteBackMeta(old(Meaning()), ds, objectSize, objectId)
      ensures !IsPresent() && IsShared() == old(IsShared())
      ensures GetDsId() == ds && GetObjectSize() == objectSize && GetObjectId() == objectId
    {
      var shared := IsShared();
      RemoteRoundTrip(ds, shared, objectSize, objectId);
      word := PackRemote(ds, shared, objectSize, objectId);
    }
  }

  // ---------- properties of the layout ----------

  // The getters read the fields of the word's own format.
  lemma GettersRead(p: FarMemPtrMeta)
    ensures p.IsPresent() ==>
              p.Meaning() == Local(p.IsHot(), p.IsShared(), p.IsDirty(), p.IsEvacuation(), p.GetObjectDataAddr())
    ensures !p.IsPresent() ==>
              p.Meaning() == Remote(p.GetDsId(), p.IsShared(), p.GetObjectSize(), p.GetObjectId())
  {
  }

  lemma LocalRoundTrip(hot: bool, shared: bool, dirty: bool, evac: bool, dataAddr: bv64)
    requires dataAddr < ADDR_LIMIT
    ensures Decode(PackLocal(hot, shared, dirty, evac, dataAddr)) == Local(hot, shared, dirty, evac, dataAddr)
  {
  }

  lemma RemoteRoundTrip(ds: bv64, shared: bool, size: bv64, id: bv64)
    requires ds < 0x100 && size < 0x1_0000 && id < ID_LIMIT
    ensures Decode(PackRemote(ds, shared, size, id)) == Remote(ds, shared, size, id)
  {
  }

  // A 64-bit id survives the 38-bit field exactly when it fits.
  lemma IdFits(ds: bv64, shared: bool, size: bv64, id: bv64)
    requires ds < 0x100 && size < 0x1_0000
    ensures PackRemote(ds, shared, size, id) >> 26 == id <==> id < ID_LIMIT
  {
  }

  // No live word reads as null: not a local one, and a remote one only at size 0, id 0, unshared.
  lemma NullWords(w: bv64, ds: bv64, shared: bool, size: bv64, id: bv64)
    requires ds < 0x100 && size < 0x1_0000 && id < ID_LIMIT
    ensures Decode(w).Local? ==> w & NULL_MASK != NULL
    ensures PackRemote(ds, shared, size, id) & NULL_MASK == NULL <==> size == 0 && id == 0 && !shared
  {
  }

  // E overlays bit 6 of a swapped-out object's size, so E may be asked only of a local word
  // (FarMemManager.SwapOutObject demands it; the invariant of Evacuation supplies it).
  lemma EvacuationBitOverlaysSize(ds: bv64, shared: bool, size: bv64, id: bv64)
    requires ds < 0x100 && size < 0x1_0000 && id < ID_LIMIT
    ensures Bit(PackRemote(ds, shared, size, id), EVACUATION_SET) <==> Bit(size, 0x40)
  {
  }

  // Writing one flag changes that flag's meaning and no other field's.
  lemma RaiseEvacuation(w: bv64)
    requires Decode(w).Local?
    ensures Decode(w | EVACUATION_SET) == Decode(w).(evac := true)
  {
  }

  lemma RaiseDirty(w: bv64)
    requires Decode(w).Local?
    ensures Decode(w & !DIRTY_CLEAR) == Decode(w).(dirty := true)
  {
  }

  lemma LowerDirty(w: bv64)
    requires Decode(w).Local?
    ensures Decode(w | DIRTY_CLEAR) == Decode(w).(dirty := false)
  {
  }

  lemma RaiseHot(w: bv64)
    requires Decode(w).Local?
    ensures Decode(w & !HOT_CLEAR) == Decode(w).(hot := true)
  {
  }
}
