/** Weak references of the Avid meta-dictionary: recorded by the identification of their targets while definitions
    are created, and filled in with the targets' instance UIDs at the end. */
module WeakReferences {
  import opened Wrappers
  import opened Bytes
  import opened Ber

  /** An item of a set; an empty value stands for none. */
  class MetadataItem {
    var value: seq<byte>

    constructor (v: seq<byte>)
      ensures value == v
    {
      value := v;
    }

    /** Makes an array item longer by `count` zeroed elements; its value moves.  Zero elements make it empty. */
    method GrowArray(elementLen: nat, count: nat) returns (ok: bool, newElements: nat)
      requires elementLen <= UINT16_MAX && count <= UINT16_MAX
      modifies this
      ensures ok == (count == 0 || ((old(value) == [] || IsArray(old(value), elementLen))
                                    && 8 + (Count(old(value)) + count) * elementLen < 65536))
      ensures !ok ==> value == old(value)
      ensures ok && count == 0 ==> value == ArrayHeader(0, elementLen)
      ensures ok && count > 0 ==>
                && newElements == 8 + Count(old(value)) * elementLen
                && value == ArrayHeader(Count(old(value)) + count, elementLen)
                            + (if old(value) == [] then [] else old(value)[8..]) + Zeros(count * elementLen)
    {
      hide BigEndian, FromBigEndian;
      if count == 0 {
        value := ArrayHeader(0, elementLen);
        return true, 0;
      }
      var arrayLen, elements := count, [];
      if value != [] {
        if |value| < 8 || !IsArray(value, elementLen) {
          return false, 0;
        }
        arrayLen := arrayLen + Count(value);
        elements := value[8..];
      }
      if 8 + arrayLen * elementLen >= 65536 {
        return false, 0;
      }
      value := ArrayHeader(arrayLen, elementLen) + elements + Zeros(count * elementLen);
      return true, 8 + (arrayLen - count) * elementLen;
    }
  }

  function ArrayHeader(n: nat, elementLen: nat): (r: seq<byte>)
    ensures |r| == 8
  {
    BigEndian(4, n) + BigEndian(4, elementLen)
  }

  /** The number of elements in an array item's header. */
  function Count(value: seq<byte>): nat
  {
    if |value| < 8 then 0 else FromBigEndian(value[..4])
  }

  function ElementLen(value: seq<byte>): nat
  {
    if |value| < 8 then 0 else FromBigEndian(value[4..8])
  }

  predicate IsArray(value: seq<byte>, elementLen: nat)
  {
    |value| >= 8 && ElementLen(value) == elementLen && |value| == 8 + Count(value) * elementLen
  }

  lemma HeaderReadBack(n: nat, elementLen: nat, rest: seq<byte>)
    requires n <= UINT32_MAX && elementLen <= UINT32_MAX
    ensures Count(ArrayHeader(n, elementLen) + rest) == n && ElementLen(ArrayHeader(n, elementLen) + rest) == elementLen
  {
    hide BigEndian, FromBigEndian;
    var v := ArrayHeader(n, elementLen) + rest;
    Pow256Table();
    BigEndianRoundTrip(4, n);
    BigEndianRoundTrip(4, elementLen);
    assert v[..4] == BigEndian(4, n) && v[4..8] == BigEndian(4, elementLen);
  }

  /** A definition that can be referred to. */
  datatype MetaDef = MetaDef(identification: seq<byte>, instanceUID: seq<byte>)

  /** A reference to be filled in: the whole value of an item (-1) or a member of an array item. */
  datatype WeakRef = WeakRef(item: MetadataItem, recordMemberIndex: int, targetIdentification: seq<byte>)

  /** The instance UID of the first definition with the identification. */
  function FindTarget(defs: seq<MetaDef>, id: seq<byte>): Option<seq<byte>>
  {
    if defs == [] then None
    else if defs[0].identification == id then Some(defs[0].instanceUID)
    else FindTarget(defs[1..], id)
  }

  lemma {:induction false} FirstDefinition(defs: seq<MetaDef>, id: seq<byte>, i: nat)
    requires i <= |defs| && forall j | 0 <= j < i :: defs[j].identification != id
    ensures FindTarget(defs, id) == FindTarget(defs[i..], id)
    ensures i == |defs| ==> FindTarget(defs, id) == None
    ensures i < |defs| && defs[i].identification == id ==> FindTarget(defs, id) == Some(defs[i].instanceUID)
    decreases i
  {
    if i == 0 {
      assert defs[0..] == defs;
    } else {
      forall j | 0 <= j < i - 1
        ensures defs[1..][j].identification != id
      {
        assert defs[1..][j] == defs[j + 1];
      }
      FirstDefinition(defs[1..], id, i - 1);
      assert defs[1..][i - 1..] == defs[i..];
    }
  }

  /** Definitions have UIDs of 16 bytes. */
  predicate DefsOk(defs: seq<MetaDef>)
  {
    forall i | 0 <= i < |defs| :: |defs[i].instanceUID| == 16
  }

  lemma {:induction false} TargetOk(defs: seq<MetaDef>, id: seq<byte>)
    requires DefsOk(defs)
    ensures FindTarget(defs, id).Some? ==> |FindTarget(defs, id).value| == 16
    decreases |defs|
  {
    if defs != [] {
      assert forall i | 0 <= i < |defs[1..]| :: defs[1..][i] == defs[i + 1];
      TargetOk(defs[1..], id);
    }
  }

  /** Where a reference's slot starts in its item: array elements are 16 bytes long. */
  function Start(r: WeakRef): int
  {
    if r.recordMemberIndex >= 0 then 8 + 16 * r.recordMemberIndex else 0
  }

  /** The slot lies in the item: the whole of it, or a member of an array. */
  predicate InItem(r: WeakRef)
    reads r.item
  {
    if r.recordMemberIndex >= 0 then IsArray(r.item.value, 16) && r.recordMemberIndex < Count(r.item.value)
    else |r.item.value| == 16
  }

  function Slot(r: WeakRef): seq<byte>
    requires InItem(r)
    reads r.item
  {
    r.item.value[Start(r)..Start(r) + 16]
  }

  /** Two references have different slots. */
  predicate Apart(a: WeakRef, b: WeakRef)
  {
    a.item != b.item || (a.recordMemberIndex >= 0 && b.recordMemberIndex >= 0 && a.recordMemberIndex != b.recordMemberIndex)
  }

  predicate AllApart(refs: seq<WeakRef>)
  {
    forall i, j | 0 <= i < j < |refs| :: Apart(refs[i], refs[j])
  }

  function Items(refs: seq<WeakRef>): set<MetadataItem>
  {
    set i | 0 <= i < |refs| :: refs[i].item
  }

  predicate AllInItems(refs: seq<WeakRef>)
    reads Items(refs)
  {
    forall i | 0 <= i < |refs| :: InItem(refs[i])
  }

  /** Byte k of an item belongs to the slot of one of the references all[lo..hi]. */
  predicate Covered(all: seq<WeakRef>, lo: nat, hi: nat, item: MetadataItem, k: int)
    requires lo <= hi <= |all|
  {
    exists i :: lo <= i < hi && all[i].item == item && Start(all[i]) <= k < Start(all[i]) + 16
  }

  /** What a value is after a slot has been filled in. */
  lemma Filled(r: WeakRef, value: seq<byte>, uid: seq<byte>)
    requires |uid| == 16
    requires if r.recordMemberIndex >= 0 then IsArray(value, 16) && r.recordMemberIndex < Count(value) else |value| == 16
    ensures var now := Splice(value, Start(r), uid);
      && |now| == |value| && now[Start(r)..Start(r) + 16] == uid
      && (forall k | 0 <= k < |value| && !(Start(r) <= k < Start(r) + 16) :: now[k] == value[k])
      && (r.recordMemberIndex >= 0 ==> now[..8] == value[..8])
  {
    hide Splice;
  }

  lemma SameHeader(value: seq<byte>, now: seq<byte>)
    requires |now| == |value| && (|value| >= 8 ==> now[..8] == value[..8])
    ensures IsArray(now, 16) == IsArray(value, 16) && Count(now) == Count(value)
  {
    if |value| >= 8 {
      assert now[..4] == now[..8][..4] && value[..4] == value[..8][..4];
      assert now[4..8] == now[..8][4..8] && value[4..8] == value[..8][4..8];
    }
  }

  /** Fills in one slot; all other slots and bytes stay. */
  method FillSlot(r: WeakRef, uid: seq<byte>)
    requires InItem(r) && |uid| == 16
    modifies r.item
    ensures InItem(r) && Slot(r) == uid && |r.item.value| == |old(r.item.value)|
    ensures IsArray(r.item.value, 16) == IsArray(old(r.item.value), 16) || r.recordMemberIndex < 0
    ensures r.recordMemberIndex >= 0 ==> Count(r.item.value) == Count(old(r.item.value))
    ensures forall k | 0 <= k < |r.item.value| && !(Start(r) <= k < Start(r) + 16) :: r.item.value[k] == old(r.item.value)[k]
  {
    hide Splice, IsArray, Count, ElementLen;
    ArrayStart(r.item.value);
    Filled(r, r.item.value, uid);
    var element := if r.recordMemberIndex >= 0 then 8 + r.recordMemberIndex * ElementLen(r.item.value) else 0;
    ghost var was := r.item.value;
    r.item.value := Splice(r.item.value, element, uid);
    if r.recordMemberIndex >= 0 {
      SameHeader(was, r.item.value);
    }
  }

  lemma ArrayStart(value: seq<byte>)
    ensures IsArray(value, 16) ==> |value| >= 8 && ElementLen(value) == 16 && |value| == 8 + 16 * Count(value)
  {
  }

  /** Filling in one slot leaves every other reference's slot as it was. */
  lemma OtherSlot(q: WeakRef, r: WeakRef, was: seq<byte>, now: seq<byte>)
    requires q.recordMemberIndex >= 0 && r.recordMemberIndex >= 0 && q.recordMemberIndex != r.recordMemberIndex
    requires IsArray(was, 16) && IsArray(now, 16) && |now| == |was| && Count(now) == Count(was) && q.recordMemberIndex < Count(was)
    requires forall k | 0 <= k < |now| && !(Start(r) <= k < Start(r) + 16) :: now[k] == was[k]
    ensures Start(q) + 16 <= |now| && now[Start(q)..Start(q) + 16] == was[Start(q)..Start(q) + 16]
  {
  }

  /** The references all[lo..hi] hold their targets' UIDs. */
  predicate Resolved(defs: seq<MetaDef>, all: seq<WeakRef>, lo: nat, hi: nat)
    requires lo <= hi <= |all| && AllInItems(all)
    reads Items(all)
  {
    forall i | lo <= i < hi :: FindTarget(defs, all[i].targetIdentification) == Some(Slot(all[i]))
  }

  function Values(all: seq<WeakRef>): (r: seq<seq<byte>>)
    reads Items(all)
    ensures |r| == |all| && forall i | 0 <= i < |all| :: r[i] == all[i].item.value
  {
    seq(|all|, i requires 0 <= i < |all| reads Items(all) => all[i].item.value)
  }

  /** Values of items have changed in the slots of all[lo..hi] only. */
  predicate OnlyIn(all: seq<WeakRef>, lo: nat, hi: nat, was: seq<seq<byte>>, now: seq<seq<byte>>)
    requires lo <= hi <= |all| == |was| == |now|
  {
    forall i | 0 <= i < |all| ::
      |now[i]| == |was[i]| && forall k | 0 <= k < |now[i]| && !Covered(all, lo, hi, all[i].item, k) :: now[i][k] == was[i][k]
  }

  lemma NothingChanged(all: seq<WeakRef>, lo: nat, was: seq<seq<byte>>)
    requires lo <= |all| == |was|
    ensures OnlyIn(all, lo, lo, was, was)
  {
    hide Covered;
  }

  lemma OnlyInJoin(all: seq<WeakRef>, lo: nat, n: nat, hi: nat, was: seq<seq<byte>>, mid: seq<seq<byte>>, now: seq<seq<byte>>)
    requires lo <= n <= hi <= |all| == |was| == |mid| == |now| && OnlyIn(all, lo, n, was, mid) && OnlyIn(all, n, hi, mid, now)
    ensures OnlyIn(all, lo, hi, was, now)
  {
    hide Covered;
    forall i, k | 0 <= i < |all| && 0 <= k < |now[i]| && !Covered(all, lo, hi, all[i].item, k)
      ensures now[i][k] == was[i][k]
    {
      CoveredMore(all, lo, n, hi, all[i].item, k);
      CoveredLater(all, lo, n, hi, all[i].item, k);
    }
  }

  lemma CoveredLater(all: seq<WeakRef>, lo: nat, n: nat, hi: nat, item: MetadataItem, k: int)
    requires lo <= n <= hi <= |all|
    ensures Covered(all, n, hi, item, k) ==> Covered(all, lo, hi, item, k)
  {
    if Covered(all, n, hi, item, k) {
      var i :| n <= i < hi && all[i].item == item && Start(all[i]) <= k < Start(all[i]) + 16;
      assert lo <= i < hi && all[i].item == item && Start(all[i]) <= k < Start(all[i]) + 16;
    }
  }

  /** One slot covers its own bytes. */
  lemma OneSlot(all: seq<WeakRef>, n: nat, was: seq<seq<byte>>, now: seq<seq<byte>>, before: seq<byte>, after: seq<byte>)
    requires n < |all| == |was| == |now| && |after| == |before|
    requires forall i | 0 <= i < |all| ::
               if all[i].item == all[n].item then was[i] == before && now[i] == after else now[i] == was[i]
    requires forall k | 0 <= k < |before| && !(Start(all[n]) <= k < Start(all[n]) + 16) :: after[k] == before[k]
    ensures OnlyIn(all, n, n + 1, was, now)
  {
    hide Covered, Start;
    forall i, k | 0 <= i < |all| && 0 <= k < |now[i]| && !Covered(all, n, n + 1, all[i].item, k)
      ensures now[i][k] == was[i][k]
    {
      CoveredMore(all, n, n, n + 1, all[i].item, k);
    }
  }

  lemma CoveredMore(all: seq<WeakRef>, lo: nat, n: nat, hi: nat, item: MetadataItem, k: int)
    requires lo <= n <= hi <= |all|
    ensures Covered(all, lo, n, item, k) ==> Covered(all, lo, hi, item, k)
    ensures n < hi && all[n].item == item && Start(all[n]) <= k < Start(all[n]) + 16 ==> Covered(all, lo, hi, item, k)
  {
    if Covered(all, lo, n, item, k) {
      var i :| lo <= i < n && all[i].item == item && Start(all[i]) <= k < Start(all[i]) + 16;
      assert lo <= i < hi && all[i].item == item && Start(all[i]) <= k < Start(all[i]) + 16;
    }
  }

  /** Fills in the references of one list, which are all[lo..lo + |refs|]; the others keep their slots. */
  method Resolve(defs: seq<MetaDef>, refs: seq<WeakRef>, ghost all: seq<WeakRef>, ghost lo: nat) returns (ok: bool)
    requires DefsOk(defs) && AllInItems(all) && AllApart(all) && lo + |refs| <= |all| && refs == all[lo..lo + |refs|]
    modifies Items(all)
    ensures AllInItems(all)
    ensures ok == forall i | 0 <= i < |refs| :: FindTarget(defs, refs[i].targetIdentification).Some?
    ensures ok ==> Resolved(defs, all, lo, lo + |refs|)
    ensures forall i | 0 <= i < |all| && !(lo <= i < lo + |refs|) :: Slot(all[i]) == old(Slot(all[i]))
    ensures OnlyIn(all, lo, lo + |refs|, old(Values(all)), Values(all))
  {
    hide FindTarget, AllApart, InItem, Slot, Covered, OnlyIn, Start;
    var i := 0;
    ghost var was := Values(all);
    NothingChanged(all, lo, was);
    while i < |refs|
      invariant 0 <= i <= |refs| && AllInItems(all)
      invariant Resolved(defs, all, lo, lo + i)
      invariant forall j | 0 <= j < |all| && !(lo <= j < lo + i) :: Slot(all[j]) == old(Slot(all[j]))
      invariant OnlyIn(all, lo, lo + i, was, Values(all))
    {
      var target := FindTarget(defs, refs[i].targetIdentification);
      if target.None? {
        FirstPart(all, lo, i, |refs|, was, Values(all));
        return false;
      }
      TargetOk(defs, refs[i].targetIdentification);
      ghost var mid := Values(all);
      ResolveOne(all, lo + i, refs[i], target.value);
      OnlyInJoin(all, lo, lo + i, lo + i + 1, was, mid, Values(all));
      i := i + 1;
    }
    return true;
  }

  lemma FirstPart(all: seq<WeakRef>, lo: nat, i: nat, n: nat, was: seq<seq<byte>>, now: seq<seq<byte>>)
    requires i <= n && lo + n <= |all| == |was| == |now| && OnlyIn(all, lo, lo + i, was, now)
    ensures OnlyIn(all, lo, lo + n, was, now)
  {
    forall j, k | 0 <= j < |all| && 0 <= k < |now[j]| && !Covered(all, lo, lo + n, all[j].item, k)
      ensures now[j][k] == was[j][k]
    {
      CoveredMore(all, lo, lo + i, lo + n, all[j].item, k);
    }
  }

  /** Fills in the reference all[n]. */
  method ResolveOne(ghost all: seq<WeakRef>, ghost n: nat, r: WeakRef, uid: seq<byte>)
    requires n < |all| && all[n] == r && AllInItems(all) && AllApart(all) && |uid| == 16
    modifies r.item
    ensures AllInItems(all) && Slot(r) == uid
    ensures forall j | 0 <= j < |all| && j != n :: Slot(all[j]) == old(Slot(all[j]))
    ensures OnlyIn(all, n, n + 1, old(Values(all)), Values(all))
  {
    hide IsArray, Count, OnlyIn;
    ghost var was, before := r.item.value, Values(all);
    FillSlot(r, uid);
    OneSlot(all, n, before, Values(all), was, r.item.value);
    forall j | 0 <= j < |all| && j != n
      ensures InItem(all[j]) && Slot(all[j]) == old(Slot(all[j]))
    {
      assert Apart(all[if j < n then j else n], all[if j < n then n else j]);
      if all[j].item == r.item {
        OtherSlot(all[j], r, was, r.item.value);
      }
    }
  }

  /** References still hold the identifications of their targets. */
  predicate Unresolved(refs: seq<WeakRef>)
    requires AllInItems(refs)
    reads Items(refs)
  {
    forall i | 0 <= i < |refs| :: Slot(refs[i]) == refs[i].targetIdentification
  }

  /** An array item with one more element, the last one being `id`. */
  lemma Grown(was: seq<byte>, now: seq<byte>, id: seq<byte>)
    requires |id| == 16 && (was == [] || IsArray(was, 16)) && 8 + (Count(was) + 1) * 16 < 65536
    requires now == Splice(ArrayHeader(Count(was) + 1, 16) + (if was == [] then [] else was[8..]) + Zeros(16),
                           8 + 16 * Count(was), id)
    ensures now == ArrayHeader(Count(was) + 1, 16) + (if was == [] then [] else was[8..]) + id
    ensures IsArray(now, 16) && Count(now) == Count(was) + 1
    ensures now[8 + 16 * Count(was)..8 + 16 * Count(was) + 16] == id
    ensures forall k | 0 <= k < Count(was) :: now[8 + 16 * k..8 + 16 * k + 16] == was[8 + 16 * k..8 + 16 * k + 16]
  {
    hide Splice, BigEndian, FromBigEndian;
    var n := Count(was);
    var old_ := if was == [] then [] else was[8..];
    assert |old_| == 16 * n;
    var v := ArrayHeader(n + 1, 16) + old_ + Zeros(16);
    var r := ArrayHeader(n + 1, 16) + old_ + id;
    assert |now| == |r|;
    assert forall k | 0 <= k < |r| :: now[k] == r[k];
    assert now == r;
    assert r == ArrayHeader(n + 1, 16) + (old_ + id);
    HeaderReadBack(n + 1, 16, old_ + id);
  }

  lemma NoElements()
    ensures Count([]) == 0
  {
  }

  /** References to an item that is an array, or has no value yet, are to members that it has. */
  lemma OnlyMembers(refs: seq<WeakRef>, item: MetadataItem)
    requires AllInItems(refs) && (item.value == [] || IsArray(item.value, 16))
    ensures forall i | 0 <= i < |refs| && refs[i].item == item :: 0 <= refs[i].recordMemberIndex < Count(item.value)
  {
    forall i | 0 <= i < |refs| && refs[i].item == item
      ensures 0 <= refs[i].recordMemberIndex < Count(item.value)
    {
      assert InItem(refs[i]);
    }
  }

  lemma NewMember(refs: seq<WeakRef>, r: WeakRef, n: nat)
    requires AllApart(refs) && r.recordMemberIndex == n
    requires forall i | 0 <= i < |refs| && refs[i].item == r.item :: 0 <= refs[i].recordMemberIndex < n
    ensures AllApart(refs + [r])
  {
  }

  /** The lists kept while a meta-dictionary is being built. */
  class MetaDictionary {
    var classDefs: seq<MetaDef>
    var typeDefs: seq<MetaDef>
    var classRefs: seq<WeakRef>
    var typeRefs: seq<WeakRef>

    constructor ()
      ensures Valid() && classDefs == typeDefs == [] && classRefs == typeRefs == []
    {
      classDefs, typeDefs, classRefs, typeRefs := [], [], [], [];
    }

    function All(): seq<WeakRef>
      reads this
    {
      classRefs + typeRefs
    }

    ghost predicate Valid()
      reads this, Items(All())
    {
      DefsOk(classDefs) && DefsOk(typeDefs) && AllInItems(All()) && AllApart(All()) && Unresolved(All())
    }

    /** A class definition with a reference to its parent's. */
    method CreateClassDef(id: seq<byte>, instanceUID: seq<byte>, parentId: seq<byte>) returns (item: MetadataItem)
      requires Valid() && |instanceUID| == |parentId| == 16
      modifies this
      ensures Valid() && fresh(item) && item.value == parentId
      ensures classDefs == old(classDefs) + [MetaDef(id, instanceUID)] && typeDefs == old(typeDefs)
      ensures classRefs == old(classRefs) + [WeakRef(item, -1, parentId)] && typeRefs == old(typeRefs)
    {
      hide IsArray, Count;
      ghost var a, b := classRefs, typeRefs;
      item := new MetadataItem(parentId);
      var r := WeakRef(item, -1, parentId);
      classRefs := classRefs + [r];
      classDefs := classDefs + [MetaDef(id, instanceUID)];
      assert parentId[0..16] == parentId;
      forall i | 0 <= i < |All()|
        ensures InItem(All()[i]) && Slot(All()[i]) == All()[i].targetIdentification
      {
        assert i < |a| ==> All()[i] == (a + b)[i];
        assert i > |a| ==> All()[i] == (a + b)[i - 1];
      }
      Inserted(a, b, r);
    }

    /** A type definition. */
    method CreateTypeDef(id: seq<byte>, instanceUID: seq<byte>)
      requires Valid() && |instanceUID| == 16
      modifies `typeDefs
      ensures Valid() && typeDefs == old(typeDefs) + [MetaDef(id, instanceUID)]
    {
      typeDefs := typeDefs + [MetaDef(id, instanceUID)];
    }

    /** An item of a type definition that refers to another type. */
    method AddTypeRef(typeId: seq<byte>) returns (item: MetadataItem)
      requires Valid() && |typeId| == 16
      modifies `typeRefs
      ensures Valid() && fresh(item) && item.value == typeId
      ensures typeRefs == old(typeRefs) + [WeakRef(item, -1, typeId)]
    {
      hide IsArray, Count;
      ghost var a, b := classRefs, typeRefs;
      item := new MetadataItem(typeId);
      var r := WeakRef(item, -1, typeId);
      typeRefs := typeRefs + [r];
      assert typeId[0..16] == typeId;
      assert All() == (a + b) + [r];
      Inserted(a + b, [], r);
      assert a + b + [r] + [] == a + b + [r];
      assert (a + b) + [] == a + b;
    }

    /** Adds a member to a record type: its types item grows by one element, which is recorded. */
    method AddRecordMember(item: MetadataItem, typeId: seq<byte>) returns (ok: bool)
      requires Valid() && |typeId| == 16 && (item.value == [] || IsArray(item.value, 16))
      modifies `typeRefs, item
      ensures Valid() && ok == (8 + (Count(old(item.value)) + 1) * 16 < 65536)
      ensures ok ==> typeRefs == old(typeRefs) + [WeakRef(item, Count(old(item.value)), typeId)]
      ensures ok ==> item.value == ArrayHeader(Count(old(item.value)) + 1, 16)
                                   + (if old(item.value) == [] then [] else old(item.value)[8..]) + typeId
      ensures !ok ==> typeRefs == old(typeRefs) && item.value == old(item.value)
    {
      hide IsArray, Count, ElementLen, Splice, BigEndian, AllApart;
      ghost var was, a, b := item.value, classRefs, typeRefs;
      NoElements();
      ArrayStart(was);
      OnlyMembers(a + b, item);
      var element;
      ok, element := item.GrowArray(16, 1);
      if !ok {
        return;
      }
      item.value := Splice(item.value, element, typeId);
      Grown(was, item.value, typeId);
      var memberCount := Count(item.value);
      var r := WeakRef(item, memberCount - 1, typeId);
      typeRefs := typeRefs + [r];
      ArrayStart(item.value);
      assert All() == (a + b) + [r];
      forall i | 0 <= i < |All()|
        ensures InItem(All()[i]) && Slot(All()[i]) == All()[i].targetIdentification
      {
        if i < |a + b| {
          assert All()[i] == (a + b)[i];
        }
      }
      NewMember(a + b, r, Count(was));
    }

    /** Fills in all references.  It succeeds exactly if every target has been defined, and then each slot, scalar or
        member, holds the instance UID of the first definition with its target's identification, and no other byte
        of any item has changed. */
    method Finalise() returns (ok: bool)
      requires Valid()
      modifies Items(All())
      ensures AllInItems(All())
      ensures ok == ((forall i | 0 <= i < |classRefs| :: FindTarget(classDefs, classRefs[i].targetIdentification).Some?)
                     && forall i | 0 <= i < |typeRefs| :: FindTarget(typeDefs, typeRefs[i].targetIdentification).Some?)
      ensures ok ==> Resolved(classDefs, All(), 0, |classRefs|) && Resolved(typeDefs, All(), |classRefs|, |All()|)
      ensures ok ==> OnlyIn(All(), 0, |All()|, old(Values(All())), Values(All()))
    {
      hide FindTarget, AllApart, InItem, Slot;
      ghost var all := All();
      ok := Resolve(classDefs, classRefs, all, 0);
      if ok {
        label Half:
        ok := Resolve(typeDefs, typeRefs, all, |classRefs|);
      }
    }
  }

  lemma Inserted(a: seq<WeakRef>, b: seq<WeakRef>, r: WeakRef)
    requires AllApart(a + b) && r.item !in Items(a + b)
    ensures AllApart(a + [r] + b)
  {
    var s, t := a + b, a + [r] + b;
    assert forall i | 0 <= i < |a| :: t[i] == s[i];
    assert forall i | |a| < i < |t| :: t[i] == s[i - 1];
    forall i, j | 0 <= i < j < |t|
      ensures Apart(t[i], t[j])
    {
    }
  }
}
