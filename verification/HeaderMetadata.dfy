/** Header metadata: sets of items as KLVs, their predicted sizes, and reading them back. */
module MetadataModel {
  import opened Wrappers
  import opened Bytes
  import opened Ber
  import opened LocalSet

  type Key = seq<byte>

  const FILL_KEY: Key :=
    [0x06, 0x0e, 0x2b, 0x34, 0x01, 0x01, 0x01, 0x01, 0x03, 0x01, 0x02, 0x10, 0x01, 0x00, 0x00, 0x00]

  const PREFACE_KEY: Key :=
    [0x06, 0x0e, 0x2b, 0x34, 0x02, 0x53, 0x01, 0x01, 0x0d, 0x01, 0x01, 0x01, 0x01, 0x01, 0x2f, 0x00]

  const INSTANCE_UID_KEY: Key :=
    [0x06, 0x0e, 0x2b, 0x34, 0x01, 0x01, 0x01, 0x01, 0x01, 0x01, 0x15, 0x02, 0x00, 0x00, 0x00, 0x00]

  datatype MetaItem = MetaItem(key: Key, tag: nat, value: seq<byte>)

  datatype MetaSet = MetaSet(key: Key, instanceUID: seq<byte>, items: seq<MetaItem>, fixedSpaceAllocation: nat)

  /** Items as they stand in the file. */
  function Wire(items: seq<MetaItem>): (r: seq<Item>)
    ensures |r| == |items| && forall i | 0 <= i < |r| :: r[i] == Item(items[i].tag, items[i].value)
  {
    seq(|items|, i requires 0 <= i < |items| => Item(items[i].tag, items[i].value))
  }

  function SetValue(s: MetaSet): seq<byte>
  {
    ItemsBytes(Wire(s.items))
  }

  /** The fields are in the ranges of their C types. */
  predicate SetOk(s: MetaSet)
  {
    && |s.key| == 16 && |SetValue(s)| < Pow256(8)
    && forall i | 0 <= i < |s.items| :: s.items[i].tag <= UINT16_MAX && |s.items[i].value| <= UINT16_MAX
  }

  /** A set's length field is 4 bytes long unless that is too short or below the file's minimum. */
  function SetLLen(minLLen: nat, len: nat): nat
  {
    if GetLLen(minLLen, len) <= 4 then 4 else GetLLen(minLLen, len)
  }

  lemma SetLLenFits(minLLen: nat, len: nat)
    requires minLLen <= 9 && len < Pow256(8)
    ensures 1 <= SetLLen(minLLen, len) <= 9 && LengthFits(SetLLen(minLLen, len), len)
  {
    GetLLenIsLeast(minLLen, len);
    Pow256Table();
  }

  /** So it is the least size that holds the length and is not below 4 or the file's minimum. */
  lemma SetLLenIsLeast(minLLen: nat, len: nat)
    requires minLLen <= 9 && len < Pow256(8)
    ensures var llen := SetLLen(minLLen, len);
      && 4 <= llen <= 9 && minLLen <= llen && LengthFits(llen, len)
      && forall l :: 4 <= l < llen && minLLen <= l ==> !LengthFits(l, len)
  {
    GetLLenIsLeast(minLLen, len);
    Pow256Table();
  }

  /** A set without what may fill its fixed space. */
  function SetKlv(minLLen: nat, s: MetaSet): (r: seq<byte>)
    requires minLLen <= 9 && SetOk(s)
    ensures |r| == 16 + SetLLen(minLLen, |SetValue(s)|) + |SetValue(s)|
  {
    SetLLenFits(minLLen, |SetValue(s)|);
    s.key + LengthBytes(SetLLen(minLLen, |SetValue(s)|), |SetValue(s)|) + SetValue(s)
  }

  function MinLLen(minLLen: nat): nat
  {
    if minLLen != 0 then minLLen else 1
  }

  /** The length field chosen for the whole space leaves room for itself and holds what is left. */
  lemma FillLLen(minLLen: nat, fillSize: nat)
    requires minLLen <= 9 && MinLLen(minLLen) <= fillSize <= UINT32_MAX
    ensures var llen := GetLLen(minLLen, fillSize); 1 <= llen <= 9 && llen <= fillSize && LengthFits(llen, fillSize - llen)
    ensures UINT32_MAX < Pow256(8)
  {
    Pow256Table();
    GetLLenIsLeast(minLLen, fillSize);
  }

  /** A filler of `size` bytes in all, if it can be that small. */
  function Fill(minLLen: nat, size: nat): (r: Option<seq<byte>>)
    requires minLLen <= 9 && size <= UINT32_MAX
    ensures r.Some? <==> size >= MinLLen(minLLen) + 16
    ensures r.Some? ==> |r.value| == size
  {
    if size < MinLLen(minLLen) + 16 then None
    else
      FillLLen(minLLen, size - 16);
      var llen := GetLLen(minLLen, size - 16);
      Some(FILL_KEY + LengthBytes(llen, size - 16 - llen) + Zeros(size - 16 - llen))
  }

  /** It is a KLV of its own with the fill key and nothing but zeros. */
  lemma FillIsZeros(minLLen: nat, size: nat)
    requires minLLen <= 9 && size <= UINT32_MAX && Fill(minLLen, size).Some?
    ensures var b := Fill(minLLen, size).value;
      && |b| == size > 16 && b[..16] == FILL_KEY
      && ParseLength(b, 16).Some? && var l := ParseLength(b, 16).value;
         16 + l.0 + l.1 == size && forall i | 16 + l.0 <= i < size :: b[i] == 0
  {
    hide LengthBytes, LengthFits, ParseLength, GetLLen, Pow256;
    FillLLen(minLLen, size - 16);
    var llen := GetLLen(minLLen, size - 16);
    LengthRoundTrip(FILL_KEY, llen, size - 16 - llen, Zeros(size - 16 - llen));
  }

  /** What follows a set to make up its fixed space: the difference is cast to 32 bits. */
  function SetFill(minLLen: nat, s: MetaSet): Option<seq<byte>>
    requires minLLen <= 9 && SetOk(s)
  {
    var setSize := |SetKlv(minLLen, s)|;
    if s.fixedSpaceAllocation == 0 || setSize == s.fixedSpaceAllocation then Some([])
    else if setSize < s.fixedSpaceAllocation && setSize + MinLLen(minLLen) + 16 <= s.fixedSpaceAllocation
    then Fill(minLLen, (s.fixedSpaceAllocation - setSize) % 0x1_0000_0000)
    else None
  }

  /** The bytes of a set, if its fixed space can be met. */
  function SetBytes(minLLen: nat, s: MetaSet): (r: Option<seq<byte>>)
    requires minLLen <= 9 && SetOk(s)
    ensures r.Some? <==> SetFill(minLLen, s).Some?
    ensures r.Some? ==> r.value == SetKlv(minLLen, s) + SetFill(minLLen, s).value
  {
    match SetFill(minLLen, s)
    case None => None
    case Some(f) => Some(SetKlv(minLLen, s) + f)
  }

  /** The size predicted for a set. */
  function SetSize(minLLen: nat, s: MetaSet): nat
  {
    if s.fixedSpaceAllocation > 0 then s.fixedSpaceAllocation
    else 16 + |SetValue(s)| + Max(4, GetLLen(minLLen, |SetValue(s)|))
  }

  /** A set that can be written takes the predicted size, exactly as long as the fill does not pass 32 bits. */
  lemma SetSizeExact(minLLen: nat, s: MetaSet)
    requires minLLen <= 9 && SetOk(s) && SetBytes(minLLen, s).Some?
    ensures |SetBytes(minLLen, s).value| == SetSize(minLLen, s)
            <==> s.fixedSpaceAllocation - |SetKlv(minLLen, s)| <= UINT32_MAX
  {
    hide SetOk, SetValue, GetLLen, Pow256;
    if s.fixedSpaceAllocation == 0 {
      assert |SetBytes(minLLen, s).value| == |SetKlv(minLLen, s)|;
    }
  }

  /* ---- Reading ---- */

  const NULL_UUID: seq<byte> := Zeros(16)

  /** The primer pack (item keys by tag) and the data model (items known to a set). */
  datatype Catalog = Catalog(tags: map<nat, Key>, defs: map<Key, set<Key>>)

  /** Fill keys may differ in the registry version, their eighth byte. */
  predicate IsFiller(key: Key)
  {
    |key| == 16 && key[..7] == FILL_KEY[..7] && key[8..] == FILL_KEY[8..]
  }

  predicate Known(c: Catalog, known: set<Key>, tag: nat)
  {
    tag in c.tags && c.tags[tag] in known
  }

  /** The items of a set of `len` bytes, at least one of them, behind those read so far. */
  function ReadSetItems(c: Catalog, known: set<Key>, data: seq<byte>, pos: nat, total: nat, len: nat, acc: seq<MetaItem>):
      Option<seq<MetaItem>>
    decreases len - total
  {
    match Get(data, pos, 4)
    case None => None
    case Some(h) =>
      var tag, itemLen := FromBigEndian(h[..2]), FromBigEndian(h[2..]);
      if Known(c, known, tag) && Get(data, pos + 4, itemLen).None? then None
      else
        var next := if Known(c, known, tag) then acc + [MetaItem(c.tags[tag], tag, Get(data, pos + 4, itemLen).value)] else acc;
        if total + 4 + itemLen < len then ReadSetItems(c, known, data, pos + 4 + itemLen, total + 4 + itemLen, len, next)
        else if total + 4 + itemLen == len then Some(next)
        else None
  }

  /** The value of the last InstanceUID item. */
  function UidOf(items: seq<MetaItem>): Option<seq<byte>>
  {
    if items == [] then None
    else if items[|items| - 1].key == INSTANCE_UID_KEY then Some(items[|items| - 1].value)
    else UidOf(items[..|items| - 1])
  }

  /** It is the value of an item with that key behind which there is none. */
  lemma {:induction false} UidIs(items: seq<MetaItem>)
    ensures UidOf(items).Some? ==> exists i :: 0 <= i < |items| && items[i].key == INSTANCE_UID_KEY
                                               && items[i].value == UidOf(items).value
                                               && forall j | i < j < |items| :: items[j].key != INSTANCE_UID_KEY
    ensures UidOf(items).None? ==> forall i | 0 <= i < |items| :: items[i].key != INSTANCE_UID_KEY
  {
    if items != [] && items[|items| - 1].key != INSTANCE_UID_KEY {
      var f := items[..|items| - 1];
      UidIs(f);
      if UidOf(f).Some? {
        var i :| 0 <= i < |f| && f[i].key == INSTANCE_UID_KEY && f[i].value == UidOf(f).value
                 && forall j | i < j < |f| :: f[j].key != INSTANCE_UID_KEY;
        assert items[i].key == INSTANCE_UID_KEY && items[i].value == UidOf(items).value;
      }
    }
  }

  lemma {:induction false} UidAt(items: seq<MetaItem>, i: nat)
    requires i < |items| && items[i].key == INSTANCE_UID_KEY && forall j | i < j < |items| :: items[j].key != INSTANCE_UID_KEY
    ensures UidOf(items) == Some(items[i].value)
    decreases |items|
  {
    if i < |items| - 1 {
      UidAt(items[..|items| - 1], i);
    }
  }

  /** The set with its value at `pos`; Some(None) if its key is not known. */
  function ReadSet(c: Catalog, data: seq<byte>, pos: nat, key: Key, len: nat): Option<Option<MetaSet>>
  {
    if key !in c.defs then Some(None)
    else match ReadSetItems(c, c.defs[key], data, pos, 0, len, [])
      case None => None
      case Some(items) =>
        match UidOf(items)
        case None => None
        case Some(uid) => if |uid| < 16 || uid[..16] == NULL_UUID then None else Some(Some(MetaSet(key, uid[..16], items, 0)))
  }

  /** All sets up to `headerByteCount`, of which `count` bytes lie before `pos`, behind those read so far. */
  function ReadSets(c: Catalog, data: seq<byte>, pos: nat, count: nat, headerByteCount: nat, acc: seq<MetaSet>):
      Option<seq<MetaSet>>
    decreases headerByteCount - count
  {
    if count >= headerByteCount then if count == headerByteCount then Some(acc) else None
    else match Get(data, pos, 16)
      case None => None
      case Some(key) =>
        match ParseLength(data, pos + 16)
        case None => None
        case Some(l) =>
          var body, n := pos + 16 + l.0, 16 + l.0 + l.1;
          if IsFiller(key) then ReadSets(c, data, body + l.1, count + n, headerByteCount, acc)
          else match ReadSet(c, data, body, key, l.1)
            case None => None
            case Some(None) => ReadSets(c, data, body + l.1, count + n, headerByteCount, acc)
            case Some(Some(s)) => ReadSets(c, data, body + l.1, count + n, headerByteCount, acc + [s])
  }

  /* ---- What the reader makes of any bytes ---- */

  /** How far a set has been read: the bytes accounted for and the items. */
  datatype ItemsSoFar = ItemsSoFar(total: nat, items: seq<MetaItem>)

  /** An item stands behind a.total bytes of the set at `pos`: it joins the items if its tag is registered for a key that
      the set's definition knows, and is skipped otherwise. */
  predicate ItemStep(c: Catalog, known: set<Key>, data: seq<byte>, pos: nat, a: ItemsSoFar, b: ItemsSoFar)
  {
    var p := pos + a.total;
    && p + 4 <= |data|
    && var tag, len := FromBigEndian(data[p..p + 2]), FromBigEndian(data[p + 2..p + 4]);
    && b.total == a.total + 4 + len
    && if tag in c.tags && c.tags[tag] in known
       then p + 4 + len <= |data| && b.items == a.items + [MetaItem(c.tags[tag], tag, data[p + 4..p + 4 + len])]
       else b.items == a.items
  }

  /** Item by item, the first one in any case, as long as the length is not used up. */
  predicate ItemSteps(c: Catalog, known: set<Key>, data: seq<byte>, pos: nat, len: nat, steps: seq<ItemsSoFar>)
  {
    && steps != [] && steps[0] == ItemsSoFar(0, [])
    && forall i | 0 <= i < |steps| - 1 ::
         (i == 0 || steps[i].total < len) && ItemStep(c, known, data, pos, steps[i], steps[i + 1])
  }

  lemma ItemTaken(c: Catalog, known: set<Key>, data: seq<byte>, pos: nat, a: ItemsSoFar, len: nat)
      returns (b: ItemsSoFar)
    ensures ItemStep(c, known, data, pos, a, b) || forall b :: !ItemStep(c, known, data, pos, a, b)
    ensures var r := ReadSetItems(c, known, data, pos + a.total, a.total, len, a.items);
      if ItemStep(c, known, data, pos, a, b)
      then a.total < b.total
           && r == if b.total < len then ReadSetItems(c, known, data, pos + b.total, b.total, len, b.items)
                   else if b.total == len then Some(b.items) else None
      else r == None
  {
    hide FromBigEndian;
    var p := pos + a.total;
    b := a;
    if p + 4 <= |data| {
      assert data[p + 4..p + 4] == [];
      PartOf(data, p, 4, 0, 2);
      PartOf(data, p, 4, 2, 4);
      var tag, n := FromBigEndian(data[p..p + 2]), FromBigEndian(data[p + 2..p + 4]);
      if !Known(c, known, tag) {
        b := ItemsSoFar(a.total + 4 + n, a.items);
      } else if p + 4 + n <= |data| {
        b := ItemsSoFar(a.total + 4 + n, a.items + [MetaItem(c.tags[tag], tag, data[p + 4..p + 4 + n])]);
      }
    }
  }

  lemma {:induction false} ItemsTaken(c: Catalog, known: set<Key>, data: seq<byte>, pos: nat, len: nat, before: seq<ItemsSoFar>)
      returns (steps: seq<ItemsSoFar>)
    requires ItemSteps(c, known, data, pos, len, before) && (|before| == 1 || before[|before| - 1].total < len)
    ensures ItemSteps(c, known, data, pos, len, steps)
    ensures var a, end := before[|before| - 1], steps[|steps| - 1];
      var r := ReadSetItems(c, known, data, pos + a.total, a.total, len, a.items);
      && (r.Some? <==> |steps| > 1 && end.total == len) && (r.Some? ==> r.value == end.items)
      && (r.None? ==> (|steps| > 1 && end.total > len) || forall b :: !ItemStep(c, known, data, pos, end, b))
    decreases if |before| == 1 then 1 else 0, len - before[|before| - 1].total
  {
    hide ItemStep, ReadSetItems;
    var a := before[|before| - 1];
    var b := ItemTaken(c, known, data, pos, a, len);
    steps := before;
    if ItemStep(c, known, data, pos, a, b) {
      steps := before + [b];
      if b.total < len {
        steps := ItemsTaken(c, known, data, pos, len, steps);
      }
    }
  }

  /** A known set's value of `len` bytes stands at `pos`: its items add up to the length, and its UID, which is not null,
      is the start of the last InstanceUID item's value. */
  ghost predicate SetStands(c: Catalog, data: seq<byte>, pos: nat, key: Key, len: nat, s: MetaSet)
  {
    && key in c.defs && s.key == key && s.fixedSpaceAllocation == 0 && s.instanceUID != NULL_UUID
    && (exists steps :: ItemSteps(c, c.defs[key], data, pos, len, steps) && |steps| > 1
                        && steps[|steps| - 1] == ItemsSoFar(len, s.items))
    && exists i :: && 0 <= i < |s.items| && s.items[i].key == INSTANCE_UID_KEY
                   && |s.items[i].value| >= 16 && s.instanceUID == s.items[i].value[..16]
                   && forall j | i < j < |s.items| :: s.items[j].key != INSTANCE_UID_KEY
  }

  lemma ItemStepIs(c: Catalog, known: set<Key>, data: seq<byte>, pos: nat, a: ItemsSoFar, b: ItemsSoFar, len: nat)
    requires ItemStep(c, known, data, pos, a, b)
    ensures ReadSetItems(c, known, data, pos + a.total, a.total, len, a.items)
         == if b.total < len then ReadSetItems(c, known, data, pos + b.total, b.total, len, b.items)
            else if b.total == len then Some(b.items) else None
  {
    hide FromBigEndian;
    var p := pos + a.total;
    PartOf(data, p, 4, 0, 2);
    PartOf(data, p, 4, 2, 4);
    assert data[p + 4..p + 4] == [];
  }

  lemma {:induction false} StepsRead(c: Catalog, known: set<Key>, data: seq<byte>, pos: nat, len: nat, steps: seq<ItemsSoFar>, k: nat)
    requires ItemSteps(c, known, data, pos, len, steps) && k < |steps| - 1 && steps[|steps| - 1].total == len
    ensures ReadSetItems(c, known, data, pos + steps[k].total, steps[k].total, len, steps[k].items) == Some(steps[|steps| - 1].items)
    decreases |steps| - k
  {
    hide ItemStep, ReadSetItems;
    ItemStepIs(c, known, data, pos, steps[k], steps[k + 1], len);
    if k + 1 < |steps| - 1 {
      StepsRead(c, known, data, pos, len, steps, k + 1);
    }
  }

  /** Such a set is what the reader makes of the bytes. */
  lemma SetIs(c: Catalog, data: seq<byte>, pos: nat, key: Key, len: nat, s: MetaSet)
    requires key in c.defs
    ensures SetStands(c, data, pos, key, len, s) <==> ReadSet(c, data, pos, key, len) == Some(Some(s))
  {
    hide ReadSetItems, UidOf, ItemSteps;
    if SetStands(c, data, pos, key, len, s) {
      var steps :| ItemSteps(c, c.defs[key], data, pos, len, steps) && |steps| > 1
                   && steps[|steps| - 1] == ItemsSoFar(len, s.items);
      FirstStep(c, c.defs[key], data, pos, len, steps);
      StepsRead(c, c.defs[key], data, pos, len, steps, 0);
      var i :| && 0 <= i < |s.items| && s.items[i].key == INSTANCE_UID_KEY
               && |s.items[i].value| >= 16 && s.instanceUID == s.items[i].value[..16]
               && forall j | i < j < |s.items| :: s.items[j].key != INSTANCE_UID_KEY;
      UidAt(s.items, i);
    }
    if ReadSet(c, data, pos, key, len) == Some(Some(s)) {
      NoStep(c, c.defs[key], data, pos, len);
      var steps := ItemsTaken(c, c.defs[key], data, pos, len, [ItemsSoFar(0, [])]);
      assert steps[|steps| - 1] == ItemsSoFar(len, s.items);
      UidIs(s.items);
    }
  }

  lemma FirstStep(c: Catalog, known: set<Key>, data: seq<byte>, pos: nat, len: nat, steps: seq<ItemsSoFar>)
    requires ItemSteps(c, known, data, pos, len, steps)
    ensures steps != [] && steps[0] == ItemsSoFar(0, [])
  {
  }

  lemma NoStep(c: Catalog, known: set<Key>, data: seq<byte>, pos: nat, len: nat)
    ensures ItemSteps(c, known, data, pos, len, [ItemsSoFar(0, [])])
  {
  }

  /** How far a header has been read. */
  datatype SetsSoFar = SetsSoFar(pos: nat, count: nat, sets: seq<MetaSet>)

  /** A KLV stands at a.pos: fillers, whatever their version, and sets that are not known are skipped, and a known set
      that can be read joins the others. */
  ghost predicate SetStep(c: Catalog, data: seq<byte>, a: SetsSoFar, b: SetsSoFar)
  {
    && a.pos + 16 <= |data| && ParseLength(data, a.pos + 16).Some?
    && var key, l := data[a.pos..a.pos + 16], ParseLength(data, a.pos + 16).value;
    && b.pos == a.pos + 16 + l.0 + l.1 && b.count == a.count + 16 + l.0 + l.1
    && if (key[..7] == FILL_KEY[..7] && key[8..] == FILL_KEY[8..]) || key !in c.defs then b.sets == a.sets
       else exists s :: SetStands(c, data, a.pos + 16 + l.0, key, l.1, s) && b.sets == a.sets + [s]
  }

  /** KLV by KLV as long as the header's bytes are not used up. */
  ghost predicate SetSteps(c: Catalog, data: seq<byte>, headerByteCount: nat, steps: seq<SetsSoFar>)
  {
    && steps != []
    && forall i | 0 <= i < |steps| - 1 :: steps[i].count < headerByteCount && SetStep(c, data, steps[i], steps[i + 1])
  }

  lemma {:induction false} SetsTaken(c: Catalog, data: seq<byte>, a: SetsSoFar, headerByteCount: nat) returns (steps: seq<SetsSoFar>)
    ensures SetSteps(c, data, headerByteCount, steps) && steps[0] == a
    ensures var end, r := steps[|steps| - 1], ReadSets(c, data, a.pos, a.count, headerByteCount, a.sets);
      && (r.Some? <==> end.count == headerByteCount) && (r.Some? ==> r.value == end.sets)
      && (r.None? ==> end.count > headerByteCount || forall b :: !SetStep(c, data, end, b))
    decreases headerByteCount - a.count
  {
    hide SetStep, ReadSets;
    steps := [a];
    SetTaken(c, data, a, headerByteCount, a);
    if a.count < headerByteCount {
      if b :| SetStep(c, data, a, b) {
        SetTaken(c, data, a, headerByteCount, b);
        var rest := SetsTaken(c, data, b, headerByteCount);
        steps := [a] + rest;
        forall i | 0 <= i < |steps| - 1
          ensures steps[i].count < headerByteCount && SetStep(c, data, steps[i], steps[i + 1])
        {
          if i > 0 {
            assert steps[i] == rest[i - 1] && steps[i + 1] == rest[i];
          }
        }
      }
    }
  }

  lemma SetTaken(c: Catalog, data: seq<byte>, a: SetsSoFar, headerByteCount: nat, b: SetsSoFar)
    ensures var r := ReadSets(c, data, a.pos, a.count, headerByteCount, a.sets);
      && (a.count == headerByteCount ==> r == Some(a.sets)) && (a.count > headerByteCount ==> r.None?)
      && (a.count < headerByteCount && SetStep(c, data, a, b) ==>
            a.count < b.count && r == ReadSets(c, data, b.pos, b.count, headerByteCount, b.sets))
      && (a.count < headerByteCount && (forall b :: !SetStep(c, data, a, b)) ==> r.None?)
  {
    hide ReadSet, ParseLength, SetStands;
    if a.count < headerByteCount && a.pos + 16 <= |data| && ParseLength(data, a.pos + 16).Some? {
      var key, l := data[a.pos..a.pos + 16], ParseLength(data, a.pos + 16).value;
      var n, body := 16 + l.0 + l.1, a.pos + 16 + l.0;
      UnknownIs(c, data, body, key, l.1);
      if IsFiller(key) || key !in c.defs {
        assert SetStep(c, data, a, SetsSoFar(a.pos + n, a.count + n, a.sets));
      } else {
        if SetStep(c, data, a, b) {
          var s :| SetStands(c, data, body, key, l.1, s) && b.sets == a.sets + [s];
          SetIs(c, data, body, key, l.1, s);
        }
        if ReadSet(c, data, body, key, l.1).Some? {
          var s := ReadSet(c, data, body, key, l.1).value.value;
          SetIs(c, data, body, key, l.1, s);
          assert SetStep(c, data, a, SetsSoFar(a.pos + n, a.count + n, a.sets + [s]));
        }
      }
    }
  }

  lemma UnknownIs(c: Catalog, data: seq<byte>, pos: nat, key: Key, len: nat)
    ensures key !in c.defs ==> ReadSet(c, data, pos, key, len) == Some(None)
    ensures key in c.defs && ReadSet(c, data, pos, key, len).Some? ==> ReadSet(c, data, pos, key, len).value.Some?
  {
  }

  /* ---- Round trip ---- */

  /** The set can be read back: its items are registered and known, and its last InstanceUID item is its UID. */
  predicate Registered(c: Catalog, s: MetaSet)
  {
    && s.key in c.defs && !IsFiller(s.key)
    && (forall i | 0 <= i < |s.items| ::
          s.items[i].tag in c.tags && c.tags[s.items[i].tag] == s.items[i].key && s.items[i].key in c.defs[s.key])
    && |s.instanceUID| == 16 && s.instanceUID != NULL_UUID
    && exists i :: 0 <= i < |s.items| && s.items[i].key == INSTANCE_UID_KEY && s.items[i].value == s.instanceUID
                   && forall j | i < j < |s.items| :: s.items[j].key != INSTANCE_UID_KEY
  }

  lemma ItemHeaderAt(data: seq<byte>, pos: nat, it: Item)
    requires it.tag <= UINT16_MAX && |it.value| <= UINT16_MAX && At(data, pos, ItemBytes(it))
    ensures Get(data, pos, 4).Some? && |Get(data, pos, 4).value| == 4
    ensures FromBigEndian(Get(data, pos, 4).value[..2]) == it.tag && FromBigEndian(Get(data, pos, 4).value[2..]) == |it.value|
    ensures Get(data, pos + 4, |it.value|) == Some(it.value)
  {
    hide BigEndian, FromBigEndian, At, Get;
    var h := BigEndian(2, it.tag) + BigEndian(2, |it.value|);
    AtParts(data, pos, h, it.value);
    GetAt(data, pos, h);
    GetAt(data, pos + 4, it.value);
    Pow256Table();
    BigEndianRoundTrip(2, it.tag);
    BigEndianRoundTrip(2, |it.value|);
    assert h[..2] == BigEndian(2, it.tag) && h[2..] == BigEndian(2, |it.value|);
  }

  lemma ItemsFront(items: seq<Item>)
    requires items != []
    ensures ItemsBytes(items) == ItemBytes(items[0]) + ItemsBytes(items[1..])
  {
    hide ItemsBytes, ItemBytes;
    NoItems();
    ItemsNext([], items[0]);
    ItemsJoin([items[0]], items[1..]);
    assert [] + [items[0]] == [items[0]];
    assert [items[0]] + items[1..] == items;
  }

  /** Known items read back as they are. */
  lemma {:induction false} ItemsReadBack(c: Catalog, known: set<Key>, data: seq<byte>, pos: nat, total: nat, len: nat,
                                         items: seq<MetaItem>, acc: seq<MetaItem>)
    requires items != [] && At(data, pos, ItemsBytes(Wire(items))) && total + |ItemsBytes(Wire(items))| == len
    requires forall i | 0 <= i < |items| :: items[i].tag <= UINT16_MAX && |items[i].value| <= UINT16_MAX
    requires forall i | 0 <= i < |items| :: items[i].tag in c.tags && c.tags[items[i].tag] == items[i].key && items[i].key in known
    ensures ReadSetItems(c, known, data, pos, total, len, acc) == Some(acc + items)
    decreases |items|
  {
    hide At, Get, FromBigEndian, ItemsBytes, Wire;
    var w := Wire(items);
    assert w[1..] == Wire(items[1..]);
    ItemsFront(w);
    AtParts(data, pos, ItemBytes(w[0]), ItemsBytes(w[1..]));
    ItemHeaderAt(data, pos, w[0]);
    assert MetaItem(c.tags[w[0].tag], w[0].tag, w[0].value) == items[0];
    assert acc + [items[0]] + items[1..] == acc + items;
    if |items| == 1 {
      NoItems();
      assert w[1..] == [];
      assert acc + [items[0]] == acc + items;
    } else {
      ItemsFront(w[1..]);
      ItemsReadBack(c, known, data, pos + 4 + |items[0].value|, total + 4 + |items[0].value|, len, items[1..], acc + [items[0]]);
    }
  }

  /** Of the first n items those that are registered and known have been read, in their order and as they are. */
  ghost predicate ReadSoFar(c: Catalog, known: set<Key>, all: seq<Item>, n: nat, idx: seq<nat>, acc: seq<MetaItem>)
    requires n <= |all|
  {
    && Places(idx, n) && |acc| == |idx|
    && (forall i | 0 <= i < n :: i in idx <==> all[i].tag in c.tags && c.tags[all[i].tag] in known)
    && forall j | 0 <= j < |idx| ::
         all[idx[j]].tag in c.tags && acc[j] == MetaItem(c.tags[all[idx[j]].tag], all[idx[j]].tag, all[idx[j]].value)
  }

  lemma OneMoreRead(c: Catalog, known: set<Key>, all: seq<Item>, n: nat, idx: seq<nat>, acc: seq<MetaItem>)
    requires n < |all| && ReadSoFar(c, known, all, n, idx, acc)
    ensures if Known(c, known, all[n].tag)
            then ReadSoFar(c, known, all, n + 1, idx + [n], acc + [MetaItem(c.tags[all[n].tag], all[n].tag, all[n].value)])
            else ReadSoFar(c, known, all, n + 1, idx, acc)
  {
    NextPlace(idx, n);
  }

  /** Any items, known or not. */
  lemma {:induction false} ItemsRead(c: Catalog, known: set<Key>, data: seq<byte>, pos: nat, total: nat, len: nat,
                                     all: seq<Item>, n: nat, idx: seq<nat>, acc: seq<MetaItem>)
      returns (places: seq<nat>, r: seq<MetaItem>)
    requires n < |all| && At(data, pos, ItemsBytes(all[n..])) && total + |ItemsBytes(all[n..])| == len
    requires forall i | 0 <= i < |all| :: all[i].tag <= UINT16_MAX && |all[i].value| <= UINT16_MAX
    requires ReadSoFar(c, known, all, n, idx, acc)
    ensures ReadSetItems(c, known, data, pos, total, len, acc) == Some(r)
    ensures ReadSoFar(c, known, all, |all|, places, r)
    decreases |all| - n
  {
    hide At, Get, FromBigEndian, ItemsBytes, ReadSoFar;
    var w := all[n..];
    assert w[0] == all[n] && w[1..] == all[n + 1..];
    ItemsFront(w);
    AtParts(data, pos, ItemBytes(w[0]), ItemsBytes(w[1..]));
    ItemHeaderAt(data, pos, w[0]);
    OneMoreRead(c, known, all, n, idx, acc);
    var isKnown := Known(c, known, all[n].tag);
    places := if isKnown then idx + [n] else idx;
    r := if isKnown then acc + [MetaItem(c.tags[all[n].tag], all[n].tag, all[n].value)] else acc;
    if n + 1 == |all| {
      NoItems();
      assert w[1..] == [];
    } else {
      ItemsFront(w[1..]);
      places, r := ItemsRead(c, known, data, pos + 4 + |all[n].value|, total + 4 + |all[n].value|, len, all, n + 1, places, r);
    }
  }

  /** Whatever items a set has in a file, reading it yields those whose tag is registered for a key that the set's
      definition knows, in their order, each with its key, tag and value. */
  lemma SetItemsRead(c: Catalog, known: set<Key>, data: seq<byte>, pos: nat, all: seq<Item>) returns (idx: seq<nat>, r: seq<MetaItem>)
    requires all != [] && At(data, pos, ItemsBytes(all))
    requires forall i | 0 <= i < |all| :: all[i].tag <= UINT16_MAX && |all[i].value| <= UINT16_MAX
    ensures ReadSetItems(c, known, data, pos, 0, |ItemsBytes(all)|, []) == Some(r)
    ensures Places(idx, |all|) && forall i | 0 <= i < |all| :: i in idx <==> all[i].tag in c.tags && c.tags[all[i].tag] in known
    ensures |r| == |idx| && forall j | 0 <= j < |idx| ::
              all[idx[j]].tag in c.tags && r[j] == MetaItem(c.tags[all[idx[j]].tag], all[idx[j]].tag, all[idx[j]].value)
  {
    hide At, ItemsBytes, ReadSetItems;
    assert all[0..] == all;
    idx, r := ItemsRead(c, known, data, pos, 0, |ItemsBytes(all)|, all, 0, [], []);
  }

  /** Fillers, whatever their version, and sets that are not known are passed over to where their length says. */
  lemma PassedOver(c: Catalog, data: seq<byte>, pos: nat, llen: nat, len: nat, count: nat, total: nat, acc: seq<MetaSet>)
    requires count < total && pos + 16 <= |data| && ParseLength(data, pos + 16) == Some((llen, len))
    requires var key := data[pos..pos + 16]; key !in c.defs || (key[..7] == FILL_KEY[..7] && key[8..] == FILL_KEY[8..])
    ensures ReadSets(c, data, pos, count, total, acc)
         == ReadSets(c, data, pos + 16 + llen + len, count + 16 + llen + len, total, acc)
  {
    hide ParseLength, ReadSetItems, UidOf;
  }

  /** The sets as a reader has them: without their fixed space. */
  function Bare(s: MetaSet): MetaSet
  {
    s.(fixedSpaceAllocation := 0)
  }

  lemma SetReadsBack(c: Catalog, data: seq<byte>, pos: nat, s: MetaSet)
    requires SetOk(s) && Registered(c, s) && At(data, pos, SetValue(s))
    ensures ReadSet(c, data, pos, s.key, |SetValue(s)|) == Some(Some(Bare(s)))
  {
    hide At, ItemsBytes, Wire, ReadSetItems, UidOf;
    RegisteredUid(c, s);
    ItemsReadBack(c, c.defs[s.key], data, pos, 0, |SetValue(s)|, s.items, []);
    assert [] + s.items == s.items;
    assert s.instanceUID[..16] == s.instanceUID;
  }

  lemma RegisteredUid(c: Catalog, s: MetaSet)
    requires Registered(c, s)
    ensures UidOf(s.items) == Some(s.instanceUID) && s.items != []
  {
    var i :| 0 <= i < |s.items| && s.items[i].key == INSTANCE_UID_KEY && s.items[i].value == s.instanceUID
             && forall j | i < j < |s.items| :: s.items[j].key != INSTANCE_UID_KEY;
    UidAt(s.items, i);
  }

  /** One KLV of a header: a set or a filler. */
  lemma KlvHeaderAt(data: seq<byte>, pos: nat, key: Key, llen: nat, value: seq<byte>)
    requires |key| == 16 && 1 <= llen <= 9 && |value| < Pow256(8) && LengthFits(llen, |value|)
    requires At(data, pos, key + LengthBytes(llen, |value|) + value)
    ensures Get(data, pos, 16) == Some(key) && ParseLength(data, pos + 16) == Some((llen, |value|))
    ensures At(data, pos + 16 + llen, value)
  {
    hide LengthBytes, LengthFits, ParseLength, Pow256, At, Get;
    AtParts(data, pos, key + LengthBytes(llen, |value|), value);
    AtParts(data, pos, key, LengthBytes(llen, |value|));
    GetAt(data, pos, key);
    LengthAt(data, pos + 16, llen, |value|);
  }

  lemma FillerIsFiller()
    ensures IsFiller(FILL_KEY)
  {
  }

  lemma FillReadsBack(c: Catalog, minLLen: nat, data: seq<byte>, pos: nat, size: nat, count: nat, total: nat, acc: seq<MetaSet>)
    requires minLLen <= 9 && size <= UINT32_MAX && Fill(minLLen, size).Some? && At(data, pos, Fill(minLLen, size).value)
    requires count + size <= total
    ensures ReadSets(c, data, pos, count, total, acc) == ReadSets(c, data, pos + size, count + size, total, acc)
  {
    hide At, Get, ParseLength, LengthBytes, LengthFits, GetLLen, Pow256, IsFiller, ReadSet;
    FillLLen(minLLen, size - 16);
    var llen := GetLLen(minLLen, size - 16);
    KlvHeaderAt(data, pos, FILL_KEY, llen, Zeros(size - 16 - llen));
    FillerIsFiller();
  }

  lemma SetBytesReadBack(c: Catalog, minLLen: nat, data: seq<byte>, pos: nat, s: MetaSet, count: nat, total: nat, acc: seq<MetaSet>)
    requires minLLen <= 9 && SetOk(s) && Registered(c, s) && SetBytes(minLLen, s).Some?
    requires At(data, pos, SetBytes(minLLen, s).value) && count + |SetBytes(minLLen, s).value| <= total
    ensures ReadSets(c, data, pos, count, total, acc)
         == ReadSets(c, data, pos + |SetBytes(minLLen, s).value|, count + |SetBytes(minLLen, s).value|, total, acc + [Bare(s)])
  {
    hide At, Get, ParseLength, LengthBytes, LengthFits, GetLLen, Pow256, IsFiller, SetValue, ReadSet, Fill, ReadSets, SetLLen;
    var klv, f := SetKlv(minLLen, s), SetFill(minLLen, s).value;
    AtParts(data, pos, klv, f);
    SetLLenFits(minLLen, |SetValue(s)|);
    var llen := SetLLen(minLLen, |SetValue(s)|);
    KlvHeaderAt(data, pos, s.key, llen, SetValue(s));
    SetReadsBack(c, data, pos + 16 + llen, s);
    ReadOneSet(c, data, pos, s.key, llen, |SetValue(s)|, Bare(s), count, total, acc);
    if f != [] {
      FillReadsBack(c, minLLen, data, pos + |klv|, |f|, count + |klv|, total, acc + [Bare(s)]);
    }
  }

  lemma ReadOneSet(c: Catalog, data: seq<byte>, pos: nat, key: Key, llen: nat, len: nat, s: MetaSet, count: nat, total: nat, acc: seq<MetaSet>)
    requires count < total && Get(data, pos, 16) == Some(key) && ParseLength(data, pos + 16) == Some((llen, len))
    requires !IsFiller(key) && ReadSet(c, data, pos + 16 + llen, key, len) == Some(Some(s))
    ensures ReadSets(c, data, pos, count, total, acc)
         == ReadSets(c, data, pos + 16 + llen + len, count + 16 + llen + len, total, acc + [s])
  {
    hide Get, ParseLength, IsFiller, ReadSet;
  }

  predicate SetsOk(sets: seq<MetaSet>)
  {
    forall i | 0 <= i < |sets| :: SetOk(sets[i])
  }

  predicate AllRegistered(c: Catalog, sets: seq<MetaSet>)
  {
    forall i | 0 <= i < |sets| :: Registered(c, sets[i])
  }

  lemma Tail(c: Catalog, sets: seq<MetaSet>)
    requires sets != [] && SetsOk(sets) && AllRegistered(c, sets)
    ensures SetOk(sets[0]) && Registered(c, sets[0]) && SetsOk(sets[1..]) && AllRegistered(c, sets[1..])
  {
  }

  /** Sets one after the other. */
  function SetsBytes(minLLen: nat, sets: seq<MetaSet>): Option<seq<byte>>
    requires minLLen <= 9 && SetsOk(sets)
  {
    if sets == [] then Some([])
    else match SetBytes(minLLen, sets[0])
      case None => None
      case Some(b) =>
        match SetsBytes(minLLen, sets[1..])
        case None => None
        case Some(rest) => Some(b + rest)
  }

  function Bares(sets: seq<MetaSet>): (r: seq<MetaSet>)
    ensures |r| == |sets| && forall i | 0 <= i < |sets| :: r[i] == Bare(sets[i])
  {
    seq(|sets|, i requires 0 <= i < |sets| => Bare(sets[i]))
  }

  /** Whatever was written is read back, in order and with nothing left over, fillers and all. */
  lemma {:induction false} SetsReadBack(c: Catalog, minLLen: nat, data: seq<byte>, pos: nat, sets: seq<MetaSet>,
                                        count: nat, acc: seq<MetaSet>)
    requires minLLen <= 9 && SetsOk(sets) && AllRegistered(c, sets)
    requires SetsBytes(minLLen, sets).Some? && At(data, pos, SetsBytes(minLLen, sets).value)
    ensures ReadSets(c, data, pos, count, count + |SetsBytes(minLLen, sets).value|, acc) == Some(acc + Bares(sets))
    decreases |sets|
  {
    hide At, SetBytes, SetsBytes, ReadSets, SetOk, Registered, Bares, Bare, SetsOk, AllRegistered;
    if sets == [] {
      NoSetsBytes(c, minLLen, data, pos, count, acc);
    } else {
      Tail(c, sets);
      SetsBytesStep(minLLen, sets);
      var b, rest := SetBytes(minLLen, sets[0]).value, SetsBytes(minLLen, sets[1..]).value;
      AtParts(data, pos, b, rest);
      SetBytesReadBack(c, minLLen, data, pos, sets[0], count, count + |b| + |rest|, acc);
      SetsReadBack(c, minLLen, data, pos + |b|, sets[1..], count + |b|, acc + [Bare(sets[0])]);
      BaresNext(sets, acc);
    }
  }

  lemma NoSetsBytes(c: Catalog, minLLen: nat, data: seq<byte>, pos: nat, count: nat, acc: seq<MetaSet>)
    requires minLLen <= 9
    ensures SetsOk([]) && SetsBytes(minLLen, []) == Some([]) && acc + Bares([]) == acc
    ensures ReadSets(c, data, pos, count, count, acc) == Some(acc)
  {
    hide ReadSets;
    ReadNothing(c, data, pos, count, acc);
  }

  lemma SetsBytesStep(minLLen: nat, sets: seq<MetaSet>)
    requires minLLen <= 9 && sets != [] && SetsOk(sets) && SetsBytes(minLLen, sets).Some?
    ensures SetOk(sets[0]) && SetsOk(sets[1..]) && SetBytes(minLLen, sets[0]).Some? && SetsBytes(minLLen, sets[1..]).Some?
    ensures SetsBytes(minLLen, sets).value == SetBytes(minLLen, sets[0]).value + SetsBytes(minLLen, sets[1..]).value
  {
    hide SetOk, SetBytes;
  }

  lemma BaresNext(sets: seq<MetaSet>, acc: seq<MetaSet>)
    requires sets != []
    ensures acc + [Bare(sets[0])] + Bares(sets[1..]) == acc + Bares(sets)
  {
  }

  lemma ReadNothing(c: Catalog, data: seq<byte>, pos: nat, count: nat, acc: seq<MetaSet>)
    ensures ReadSets(c, data, pos, count, count, acc) == Some(acc)
  {
  }
}

/** The order in which a header's sets are written, and the total of their sizes. */
module HeaderOrder {
  import opened Wrappers
  import opened Bytes
  import opened Ber
  import opened LocalSet
  import opened MetadataModel

  function WithKey(sets: seq<MetaSet>, key: Key): (r: seq<MetaSet>)
  {
    if sets == [] then []
    else WithKey(sets[..|sets| - 1], key) + if sets[|sets| - 1].key == key then [sets[|sets| - 1]] else []
  }

  function WithoutKey(sets: seq<MetaSet>, key: Key): (r: seq<MetaSet>)
  {
    if sets == [] then []
    else WithoutKey(sets[..|sets| - 1], key) + if sets[|sets| - 1].key == key then [] else [sets[|sets| - 1]]
  }

  /** The only Preface set, then all other sets in their order. */
  function WriteOrder(sets: seq<MetaSet>): Option<seq<MetaSet>>
  {
    if |WithKey(sets, PREFACE_KEY)| == 1 then Some(WithKey(sets, PREFACE_KEY) + WithoutKey(sets, PREFACE_KEY)) else None
  }

  lemma {:induction false} Partition(sets: seq<MetaSet>, key: Key)
    ensures forall s :: s in WithKey(sets, key) <==> s in sets && s.key == key
    ensures forall s :: s in WithoutKey(sets, key) <==> s in sets && s.key != key
  {
    if sets != [] {
      var f, x := sets[..|sets| - 1], sets[|sets| - 1];
      Partition(f, key);
      assert sets == f + [x];
    }
  }

  /** The sets with a key, in their order. */
  lemma {:induction false} WithKeyInOrder(sets: seq<MetaSet>, key: Key) returns (idx: seq<nat>)
    ensures Picks(sets, idx, WithKey(sets, key)) && forall i | 0 <= i < |sets| :: i in idx <==> sets[i].key == key
  {
    hide Picks;
    if sets == [] {
      idx := [];
      assert Picks(sets, idx, []) by { NothingPicked(sets); }
    } else {
      var n := |sets| - 1;
      idx := WithKeyInOrder(sets[..n], key);
      assert WithKey(sets[..n], key) + [] == WithKey(sets[..n], key);
      NextPick(sets, n, idx, WithKey(sets[..n], key));
      assert sets[..n + 1] == sets;
      assert forall i | 0 <= i < n :: sets[..n][i] == sets[i];
      if sets[n].key == key {
        idx := idx + [n];
      }
    }
  }

  /** A set is the only one with its key. */
  predicate OnlyAt(sets: seq<MetaSet>, key: Key, i: nat)
  {
    i < |sets| && sets[i].key == key && forall j | 0 <= j < |sets| && j != i :: sets[j].key != key
  }

  lemma OneWithKey(sets: seq<MetaSet>, key: Key)
    ensures |WithKey(sets, key)| == 1 ==> exists i: nat :: OnlyAt(sets, key, i) && WithKey(sets, key)[0] == sets[i]
    ensures |WithKey(sets, key)| != 1 ==> forall i: nat :: !OnlyAt(sets, key, i)
  {
    hide WithKey;
    var idx := WithKeyInOrder(sets, key);
    assert forall j | 0 <= j < |idx| :: idx[j] in idx && sets[idx[j]].key == key;
    if |idx| == 1 {
      assert OnlyAt(sets, key, idx[0]);
    }
    if |idx| > 1 {
      assert idx[0] < idx[1] && idx[0] in idx && idx[1] in idx;
    }
  }

  /** And the others in theirs. */
  lemma {:induction false} WithoutKeyInOrder(sets: seq<MetaSet>, key: Key) returns (idx: seq<nat>)
    ensures Picks(sets, idx, WithoutKey(sets, key)) && forall i | 0 <= i < |sets| :: i in idx <==> sets[i].key != key
  {
    hide Picks;
    if sets == [] {
      idx := [];
      assert Picks(sets, idx, []) by { NothingPicked(sets); }
    } else {
      var n := |sets| - 1;
      idx := WithoutKeyInOrder(sets[..n], key);
      assert WithoutKey(sets[..n], key) + [] == WithoutKey(sets[..n], key);
      NextPick(sets, n, idx, WithoutKey(sets[..n], key));
      assert sets[..n + 1] == sets;
      assert forall i | 0 <= i < n :: sets[..n][i] == sets[i];
      if sets[n].key != key {
        idx := idx + [n];
      }
    }
  }

  lemma AddedToMultiset(s: seq<MetaSet>, x: MetaSet)
    ensures multiset(s + [x]) == multiset(s) + multiset{x} && s + [] == s
  {
  }

  lemma {:induction false} PartitionKeepsAll(sets: seq<MetaSet>, key: Key)
    ensures multiset(WithKey(sets, key)) + multiset(WithoutKey(sets, key)) == multiset(sets)
  {
    if sets != [] {
      var f, x := sets[..|sets| - 1], sets[|sets| - 1];
      PartitionKeepsAll(f, key);
      AddedToMultiset(f, x);
      AddedToMultiset(WithKey(f, key), x);
      AddedToMultiset(WithoutKey(f, key), x);
      assert sets == f + [x];
    }
  }

  /** Every set is written exactly once, the Preface first; and there is such an order exactly if there is
      exactly one Preface. */
  lemma OrderIsComplete(sets: seq<MetaSet>)
    ensures WriteOrder(sets).Some? <==> |WithKey(sets, PREFACE_KEY)| == 1
    ensures WriteOrder(sets).Some? ==>
              && multiset(WriteOrder(sets).value) == multiset(sets)
              && WriteOrder(sets).value[0].key == PREFACE_KEY
              && forall i | 1 <= i < |WriteOrder(sets).value| :: WriteOrder(sets).value[i].key != PREFACE_KEY
  {
    hide WithKey, WithoutKey;
    Partition(sets, PREFACE_KEY);
    PartitionKeepsAll(sets, PREFACE_KEY);
    if WriteOrder(sets).Some? {
      var p, o := WithKey(sets, PREFACE_KEY), WithoutKey(sets, PREFACE_KEY);
      assert (p + o)[0] == p[0] && p[0] in p;
      forall i | 1 <= i < |p + o|
        ensures (p + o)[i].key != PREFACE_KEY
      {
        assert (p + o)[i] == o[i - 1] && o[i - 1] in o;
      }
    }
  }

  /** Behind the Preface stand all other sets in the order of the header. */
  lemma OrderKept(sets: seq<MetaSet>) returns (others: seq<nat>)
    requires WriteOrder(sets).Some?
    ensures Places(others, |sets|) && forall i | 0 <= i < |sets| :: i in others <==> sets[i].key != PREFACE_KEY
    ensures |WriteOrder(sets).value| == 1 + |others|
    ensures forall j | 0 <= j < |others| :: WriteOrder(sets).value[1 + j] == sets[others[j]]
  {
    hide WithKey, WithoutKey;
    others := WithoutKeyInOrder(sets, PREFACE_KEY);
  }

  function SumSizes(minLLen: nat, sets: seq<MetaSet>): nat
  {
    if sets == [] then 0 else SumSizes(minLLen, sets[..|sets| - 1]) + SetSize(minLLen, sets[|sets| - 1])
  }

  lemma {:induction false} SumSplit(minLLen: nat, sets: seq<MetaSet>, key: Key)
    ensures SumSizes(minLLen, WithKey(sets, key)) + SumSizes(minLLen, WithoutKey(sets, key)) == SumSizes(minLLen, sets)
  {
    hide SetSize;
    if sets != [] {
      var f, x := sets[..|sets| - 1], sets[|sets| - 1];
      SumSplit(minLLen, f, key);
      SumNext(minLLen, WithKey(f, key), x);
      SumNext(minLLen, WithoutKey(f, key), x);
    }
  }

  lemma SumNext(minLLen: nat, sets: seq<MetaSet>, x: MetaSet)
    ensures SumSizes(minLLen, sets + [x]) == SumSizes(minLLen, sets) + SetSize(minLLen, x)
    ensures sets + [] == sets
  {
    assert (sets + [x])[..|sets|] == sets;
  }

  lemma {:induction false} SumJoin(minLLen: nat, a: seq<MetaSet>, b: seq<MetaSet>)
    ensures SumSizes(minLLen, a + b) == SumSizes(minLLen, a) + SumSizes(minLLen, b)
  {
    hide SetSize;
    if b == [] {
      assert a + b == a;
    } else {
      var f, x := b[..|b| - 1], b[|b| - 1];
      SumJoin(minLLen, a, f);
      SumNext(minLLen, a + f, x);
      assert a + b == (a + f) + [x];
    }
  }

  /** No set's fill passes 32 bits. */
  predicate FillsBelow32(minLLen: nat, sets: seq<MetaSet>)
    requires minLLen <= 9 && SetsOk(sets)
  {
    forall i | 0 <= i < |sets| :: sets[i].fixedSpaceAllocation - |SetKlv(minLLen, sets[i])| <= UINT32_MAX
  }

  lemma {:induction false} BytesAreSizes(minLLen: nat, sets: seq<MetaSet>)
    requires minLLen <= 9 && SetsOk(sets) && SetsBytes(minLLen, sets).Some? && FillsBelow32(minLLen, sets)
    ensures |SetsBytes(minLLen, sets).value| == SumSizes(minLLen, sets)
    decreases |sets|
  {
    hide SetOk, SetSize, SetBytes, SetKlv;
    if sets != [] {
      SetSizeExact(minLLen, sets[0]);
      BytesAreSizes(minLLen, sets[1..]);
      SumJoin(minLLen, [sets[0]], sets[1..]);
      SumNext(minLLen, [], sets[0]);
      assert [] + [sets[0]] == [sets[0]];
      assert [sets[0]] + sets[1..] == sets;
    }
  }

  /** The sets of a header are written in as many bytes as their predicted sizes add up to. */
  lemma HeaderSizeExact(minLLen: nat, sets: seq<MetaSet>)
    requires minLLen <= 9 && SetsOk(sets) && WriteOrder(sets).Some? && FillsBelow32(minLLen, sets)
    ensures SetsOk(WriteOrder(sets).value)
    ensures SetsBytes(minLLen, WriteOrder(sets).value).Some? ==>
              |SetsBytes(minLLen, WriteOrder(sets).value).value| == SumSizes(minLLen, sets)
  {
    hide SetOk, SetSize, SetsBytes, WithKey, WithoutKey, SetKlv;
    var order := WriteOrder(sets).value;
    Partition(sets, PREFACE_KEY);
    forall i | 0 <= i < |order|
      ensures SetOk(order[i]) && order[i].fixedSpaceAllocation - |SetKlv(minLLen, order[i])| <= UINT32_MAX
    {
      assert order[i] in order;
    }
    SumSplit(minLLen, sets, PREFACE_KEY);
    SumJoin(minLLen, WithKey(sets, PREFACE_KEY), WithoutKey(sets, PREFACE_KEY));
    if SetsBytes(minLLen, order).Some? {
      BytesAreSizes(minLLen, order);
    }
  }

  /** A header written and read back: the Preface, then the other sets in order, each with its key, instance UID and
      items, and the count of bytes is right. */
  lemma HeaderReadsBack(c: Catalog, minLLen: nat, sets: seq<MetaSet>, data: seq<byte>, pos: nat, count: nat)
    requires minLLen <= 9 && SetsOk(sets) && AllRegistered(c, sets) && FillsBelow32(minLLen, sets)
    requires WriteOrder(sets).Some? && SetsOk(WriteOrder(sets).value) && SetsBytes(minLLen, WriteOrder(sets).value).Some?
    requires At(data, pos, SetsBytes(minLLen, WriteOrder(sets).value).value)
    ensures ReadSets(c, data, pos, count, count + SumSizes(minLLen, sets), []) == Some(Bares(WriteOrder(sets).value))
    ensures var order, r := WriteOrder(sets).value, Bares(WriteOrder(sets).value);
            |r| == |order| && forall i | 0 <= i < |r| :: r[i] == MetaSet(order[i].key, order[i].instanceUID, order[i].items, 0)
  {
    hide SetOk, SetsBytes, WithKey, WithoutKey, FillsBelow32, Registered, ReadSets, At, Bares, SumSizes;
    var order := WriteOrder(sets).value;
    HeaderSizeExact(minLLen, sets);
    Partition(sets, PREFACE_KEY);
    forall i | 0 <= i < |order|
      ensures Registered(c, order[i])
    {
      assert order[i] in order;
    }
    SetsReadBack(c, minLLen, data, pos, order, count, []);
    assert [] + Bares(order) == Bares(order);
  }
}

module HeaderMetadata {
  import opened Wrappers
  import opened Bytes
  import opened Grid
  import opened Ber
  import opened MxfFile
  import opened LocalSet
  import opened MetadataModel
  import opened HeaderOrder

  const MAX_ZEROS_BUFFER_SIZE: nat := 16384

  const ZEROS_BUFFER_INCREMENT: nat := 2048

  lemma ZerosJoin(a: nat, b: nat)
    ensures Zeros(a) + Zeros(b) == Zeros(a + b)
  {
  }

  /** Zeros in blocks of the file's zeros buffer, which grows with need; its new size is returned. */
  method WriteZeros(file: FlatFile, len: nat, bufferSize: nat, ghost d: seq<byte>, ghost p: nat, ghost out: seq<byte>)
      returns (newSize: nat)
    requires Emitted(d, p, out, file.data, file.pos)
    modifies file
    ensures Emitted(d, p, out + Zeros(len), file.data, file.pos)
    ensures newSize >= bufferSize
  {
    hide Emitted, Pos, Zeros;
    assert out + Zeros(0) == out;
    newSize := bufferSize;
    if len == 0 {
      return;
    }
    if bufferSize < len && bufferSize < MAX_ZEROS_BUFFER_SIZE {
      if len >= MAX_ZEROS_BUFFER_SIZE {
        newSize := MAX_ZEROS_BUFFER_SIZE;
      } else {
        newSize := len + (ZEROS_BUFFER_INCREMENT - len % ZEROS_BUFFER_INCREMENT);
      }
    }
    var completeCount, partialCount := len / newSize, len % newSize;
    Locate(len, newSize);
    PosZero(newSize);
    var i := 0;
    while i < completeCount
      invariant 0 <= i <= completeCount
      invariant Emitted(d, p, out + Zeros(Pos(i, newSize)), file.data, file.pos)
    {
      Emit(file, Zeros(newSize), d, p, out + Zeros(Pos(i, newSize)));
      PosNext(i, newSize);
      ZerosJoin(Pos(i, newSize), newSize);
      assert out + Zeros(Pos(i, newSize)) + Zeros(newSize) == out + Zeros(Pos(i + 1, newSize));
      i := i + 1;
    }
    if partialCount > 0 {
      Emit(file, Zeros(partialCount), d, p, out + Zeros(Pos(i, newSize)));
      ZerosJoin(Pos(i, newSize), partialCount);
      assert out + Zeros(Pos(i, newSize)) + Zeros(partialCount) == out + Zeros(len);
    }
  }

  /** Writes a filler of exactly `size` bytes. */
  method WriteFill(file: FlatFile, minLLen: nat, size: nat, ghost d: seq<byte>, ghost p: nat, ghost out: seq<byte>) returns (ok: bool)
    requires Emitted(d, p, out, file.data, file.pos) && minLLen <= 9 && size <= UINT32_MAX
    modifies file
    ensures ok == Fill(minLLen, size).Some?
    ensures ok ==> Emitted(d, p, out + Fill(minLLen, size).value, file.data, file.pos)
    ensures !ok ==> Emitted(d, p, out, file.data, file.pos)
  {
    hide Emitted, LengthBytes, Pow256, GetLLen, LengthFits, Zeros;
    if size < MinLLen(minLLen) + 16 {
      return false;
    }
    var fillSize := size - 16;
    FillLLen(minLLen, fillSize);
    var llen := GetLLen(minLLen, fillSize);
    fillSize := fillSize - llen;
    ok := WriteFixedKL(file, FILL_KEY, llen, fillSize, d, p, out);
    var newSize := WriteZeros(file, fillSize, 0, d, p, out + FILL_KEY + LengthBytes(llen, fillSize));
    assert out + FILL_KEY + LengthBytes(llen, fillSize) + Zeros(fillSize) == out + Fill(minLLen, size).value;
  }

  lemma SetLen(items: seq<MetaItem>)
    ensures items != [] ==> |ItemsBytes(Wire(items))| == |ItemsBytes(Wire(items[..|items| - 1]))| + 4 + |items[|items| - 1].value|
    ensures items == [] ==> ItemsBytes(Wire(items)) == []
  {
    if items != [] {
      assert Wire(items)[..|items| - 1] == Wire(items[..|items| - 1]);
    }
  }

  /** The length of a set's value, counted item by item. */
  method CountItems(items: seq<MetaItem>) returns (len: nat)
    ensures len == |ItemsBytes(Wire(items))|
  {
    hide ItemsBytes, Wire;
    SetLen([]);
    assert items[..0] == [];
    len := 0;
    var i := 0;
    while i < |items|
      invariant 0 <= i <= |items| && len == |ItemsBytes(Wire(items[..i]))|
    {
      SetLen(items[..i + 1]);
      assert items[..i + 1][..i] == items[..i];
      len := len + |items[i].value| + 4;
      i := i + 1;
    }
    assert items[..i] == items;
  }

  method GetSetSize(minLLen: nat, s: MetaSet) returns (size: nat)
    ensures size == SetSize(minLLen, s)
  {
    if s.fixedSpaceAllocation > 0 {
      return s.fixedSpaceAllocation;
    }
    var len := CountItems(s.items);
    var llen := GetLLen(minLLen, len);
    if llen < 4 {
      llen := 4;
    }
    return 16 + len + llen;
  }

  /** The predicted size of all sets. */
  method GetSetsSize(minLLen: nat, sets: seq<MetaSet>) returns (size: nat)
    ensures size == SumSizes(minLLen, sets)
  {
    hide SetSize;
    size := 0;
    var i := 0;
    while i < |sets|
      invariant 0 <= i <= |sets| && size == SumSizes(minLLen, sets[..i])
    {
      var n := GetSetSize(minLLen, sets[i]);
      SumNext(minLLen, sets[..i], sets[i]);
      assert sets[..i] + [sets[i]] == sets[..i + 1];
      size := size + n;
      i := i + 1;
    }
    assert sets[..i] == sets;
  }

  method WriteItems(file: FlatFile, items: seq<MetaItem>, ghost d: seq<byte>, ghost p: nat, ghost head: seq<byte>)
    requires Emitted(d, p, head, file.data, file.pos)
    modifies file
    ensures Emitted(d, p, head + ItemsBytes(Wire(items)), file.data, file.pos)
  {
    hide Emitted, ItemsBytes, Wire;
    NoItems();
    assert head + [] == head && Wire(items)[..0] == [];
    var i := 0;
    while i < |items|
      invariant 0 <= i <= |items|
      invariant Emitted(d, p, head + ItemsBytes(Wire(items)[..i]), file.data, file.pos)
    {
      WriteItem(file, Item(items[i].tag, items[i].value), d, p, head, Wire(items)[..i]);
      assert Wire(items)[..i] + [Wire(items)[i]] == Wire(items)[..i + 1];
      i := i + 1;
    }
    assert Wire(items)[..i] == Wire(items);
  }

  /** Writes a set; fails if its fixed space cannot be met. */
  method WriteSet(file: FlatFile, minLLen: nat, s: MetaSet, ghost d: seq<byte>, ghost p: nat, ghost out: seq<byte>) returns (ok: bool)
    requires Emitted(d, p, out, file.data, file.pos) && minLLen <= 9 && SetOk(s)
    modifies file
    ensures ok == SetBytes(minLLen, s).Some?
    ensures ok ==> Emitted(d, p, out + SetBytes(minLLen, s).value, file.data, file.pos)
  {
    hide Emitted, LengthBytes, Pow256, GetLLen, LengthFits, ItemsBytes, Wire, Fill;
    SetLLenFits(minLLen, |SetValue(s)|);
    var setLen := CountItems(s.items);
    var setSize;
    if GetLLen(minLLen, setLen) <= 4 {
      ok := WriteFixedKL(file, s.key, 4, setLen, d, p, out);
      setSize := 16 + 4 + setLen;
    } else {
      WriteKL(file, s.key, minLLen, setLen, d, p, out);
      setSize := 16 + GetLLen(minLLen, setLen) + setLen;
    }
    ghost var head := out + s.key + LengthBytes(SetLLen(minLLen, setLen), setLen);
    WriteItems(file, s.items, d, p, head);
    ghost var klv := SetKlv(minLLen, s);
    assert head + SetValue(s) == out + klv && setSize == |klv|;
    if s.fixedSpaceAllocation > 0 {
      if !(setSize == s.fixedSpaceAllocation
           || (setSize < s.fixedSpaceAllocation && setSize + MinLLen(minLLen) + 16 <= s.fixedSpaceAllocation)) {
        return false;
      }
      if setSize < s.fixedSpaceAllocation {
        var size := (s.fixedSpaceAllocation - setSize) % 0x1_0000_0000;
        ok := WriteFill(file, minLLen, size, d, p, out + klv);
        if ok {
          assert out + klv + Fill(minLLen, size).value == out + (klv + Fill(minLLen, size).value);
        }
        return;
      }
    }
    assert out + klv == out + (klv + []);
    return true;
  }

  /** The only set with the given key. */
  method FindSingularSetByKey(sets: seq<MetaSet>, key: Key) returns (r: Option<MetaSet>)
    ensures r == if |WithKey(sets, key)| == 1 then Some(WithKey(sets, key)[0]) else None
    ensures r.Some? ==> exists i: nat :: OnlyAt(sets, key, i) && r.value == sets[i]
    ensures r.None? ==> forall i: nat :: !OnlyAt(sets, key, i)
  {
    OneWithKey(sets, key);
    var list: seq<MetaSet> := [];
    var i := 0;
    while i < |sets|
      invariant 0 <= i <= |sets| && list == WithKey(sets[..i], key)
    {
      assert sets[..i + 1][..i] == sets[..i];
      if sets[i].key == key {
        list := list + [sets[i]];
      }
      i := i + 1;
    }
    assert sets[..i] == sets;
    r := if |list| == 1 then Some(list[0]) else None;
  }

  lemma OkFront(sets: seq<MetaSet>)
    requires sets != [] && SetsOk(sets)
    ensures SetOk(sets[0]) && SetsOk(sets[1..])
  {
  }

  lemma OkJoin(a: seq<MetaSet>, b: seq<MetaSet>)
    requires SetsOk(a) && SetsOk(b)
    ensures SetsOk(a + b)
  {
  }

  lemma OkOne(x: MetaSet)
    requires SetOk(x)
    ensures SetsOk([x])
  {
  }

  lemma {:induction false} SetsNext(minLLen: nat, sets: seq<MetaSet>, x: MetaSet)
    requires minLLen <= 9 && SetsOk(sets) && SetOk(x)
    ensures SetsOk(sets + [x])
    ensures SetsBytes(minLLen, sets + [x]).Some? <==> SetsBytes(minLLen, sets).Some? && SetBytes(minLLen, x).Some?
    ensures SetsBytes(minLLen, sets + [x]).Some? ==>
              SetsBytes(minLLen, sets + [x]).value == SetsBytes(minLLen, sets).value + SetBytes(minLLen, x).value
    decreases |sets|
  {
    hide SetOk, SetBytes, SetsOk;
    OkOne(x);
    OkJoin(sets, [x]);
    if sets == [] {
      assert sets + [x] == [x] && [x][1..] == [];
    } else {
      OkFront(sets);
      SetsNext(minLLen, sets[1..], x);
      assert (sets + [x])[1..] == sets[1..] + [x];
    }
  }

  lemma {:induction false} SetsPrefix(minLLen: nat, a: seq<MetaSet>, b: seq<MetaSet>)
    requires minLLen <= 9 && SetsOk(a) && SetsOk(b) && SetsBytes(minLLen, a).None? && a != []
    ensures SetsOk(a + b) && SetsBytes(minLLen, a + b).None?
    decreases |a|
  {
    hide SetOk, SetBytes, SetsOk, SetsBytes;
    OkJoin(a, b);
    FirstDecides(minLLen, a);
    FirstDecides(minLLen, a + b);
    assert (a + b)[0] == a[0];
    assert (a + b)[1..] == a[1..] + b;
    if SetBytes(minLLen, a[0]).Some? {
      SetsPrefix(minLLen, a[1..], b);
    }
  }

  lemma FirstDecides(minLLen: nat, sets: seq<MetaSet>)
    requires minLLen <= 9 && sets != [] && SetsOk(sets)
    ensures SetOk(sets[0]) && SetsOk(sets[1..])
    ensures SetsBytes(minLLen, sets).None? <==> SetBytes(minLLen, sets[0]).None? || SetsBytes(minLLen, sets[1..]).None?
    ensures sets[1..] == [] ==> SetsBytes(minLLen, sets[1..]).Some?
  {
    hide SetOk, SetBytes;
  }

  /** Dropping sets from the end of the list drops them from the end of the others. */
  lemma {:induction false} OthersPrefix(sets: seq<MetaSet>, i: nat)
    requires i <= |sets|
    ensures WithoutKey(sets[..i], PREFACE_KEY) <= WithoutKey(sets, PREFACE_KEY)
    decreases |sets| - i
  {
    if i == |sets| {
      assert sets[..i] == sets;
    } else {
      var f := sets[..|sets| - 1];
      OthersPrefix(f, i);
      assert f[..i] == sets[..i];
    }
  }

  lemma NoOthers(sets: seq<MetaSet>)
    ensures WithoutKey(sets[..0], PREFACE_KEY) == []
  {
  }

  lemma OthersNext(sets: seq<MetaSet>, i: nat)
    requires i < |sets|
    ensures WithoutKey(sets[..i + 1], PREFACE_KEY)
         == WithoutKey(sets[..i], PREFACE_KEY) + if sets[i].key == PREFACE_KEY then [] else [sets[i]]
  {
    assert sets[..i + 1][..i] == sets[..i];
  }

  lemma OrderOk(sets: seq<MetaSet>)
    requires SetsOk(sets)
    ensures forall s :: s in WithKey(sets, PREFACE_KEY) ==> SetOk(s)
    ensures SetsOk(WithoutKey(sets, PREFACE_KEY))
    ensures WriteOrder(sets).Some? ==> SetsOk(WriteOrder(sets).value)
  {
    hide SetOk, SetsOk, WithKey, WithoutKey;
    Partition(sets, PREFACE_KEY);
    SomeSetsOk(sets, WithKey(sets, PREFACE_KEY));
    SomeSetsOk(sets, WithoutKey(sets, PREFACE_KEY));
    SetsOkJoin(WithKey(sets, PREFACE_KEY), WithoutKey(sets, PREFACE_KEY));
  }

  lemma SomeSetsOk(sets: seq<MetaSet>, some: seq<MetaSet>)
    requires SetsOk(sets) && forall s :: s in some ==> s in sets
    ensures SetsOk(some) && forall s :: s in some ==> SetOk(s)
  {
    hide SetOk;
    forall i | 0 <= i < |some|
      ensures SetOk(some[i])
    {
      assert some[i] in some;
    }
  }

  lemma SetsOkJoin(a: seq<MetaSet>, b: seq<MetaSet>)
    requires SetsOk(a) && SetsOk(b)
    ensures SetsOk(a + b)
  {
    hide SetOk;
  }

  lemma NothingWritten(minLLen: nat, x: MetaSet)
    requires minLLen <= 9 && SetOk(x)
    ensures SetsOk([x]) && SetsBytes(minLLen, [x]) == SetBytes(minLLen, x)
  {
    hide SetOk, SetBytes;
    assert [x][1..] == [];
    if SetBytes(minLLen, x).Some? {
      assert SetBytes(minLLen, x).value + [] == SetBytes(minLLen, x).value;
    }
  }

  lemma SetOkAt(sets: seq<MetaSet>, i: nat)
    requires SetsOk(sets) && i < |sets|
    ensures SetOk(sets[i])
  {
  }

  /** A set that cannot be written stops everything that would follow. */
  lemma WriteStops(minLLen: nat, order: seq<MetaSet>, all: seq<MetaSet>)
    requires minLLen <= 9 && order <= all && order != [] && SetsOk(all) && SetsOk(order) && SetsBytes(minLLen, order).None?
    ensures SetsBytes(minLLen, all).None?
  {
    hide SetOk, SetsBytes;
    assert all == order + all[|order|..];
    SetsPrefix(minLLen, order, all[|order|..]);
  }

  /** Writes the Preface set and then all other sets. */
  method WriteHeaderSets(file: FlatFile, minLLen: nat, sets: seq<MetaSet>) returns (ok: bool)
    requires minLLen <= 9 && SetsOk(sets)
    modifies file
    ensures WriteOrder(sets).Some? ==> SetsOk(WriteOrder(sets).value)
    ensures ok == (WriteOrder(sets).Some? && SetsBytes(minLLen, WriteOrder(sets).value).Some?)
    ensures ok ==> var b := SetsBytes(minLLen, WriteOrder(sets).value).value;
              file.data == Splice(old(file.data), old(file.pos), b) && file.pos == old(file.pos) + |b|
  {
    hide Emitted, SetOk, SetBytes, SetsOk, SetsBytes, WithKey, WithoutKey, Splice;
    ghost var d, p := file.data, file.pos;
    NothingEmitted(d, p);
    OrderOk(sets);
    var prefaceSet := FindSingularSetByKey(sets, PREFACE_KEY);
    if prefaceSet.None? {
      return false;
    }
    ghost var first, all := WithKey(sets, PREFACE_KEY), WriteOrder(sets).value;
    assert first == [prefaceSet.value] && prefaceSet.value in first;
    NothingWritten(minLLen, prefaceSet.value);
    ok := WriteSet(file, minLLen, prefaceSet.value, d, p, []);
    if !ok {
      WriteStops(minLLen, first, all);
      return;
    }
    assert [] + SetsBytes(minLLen, first).value == SetsBytes(minLLen, first).value;
    NoOthers(sets);
    assert first + [] == first;
    ghost var order := first;
    var i := 0;
    while i < |sets|
      invariant 0 <= i <= |sets| && ok && SetsOk(order) && order != []
      invariant order == first + WithoutKey(sets[..i], PREFACE_KEY)
      invariant SetsBytes(minLLen, order).Some? && Emitted(d, p, SetsBytes(minLLen, order).value, file.data, file.pos)
    {
      OthersNext(sets, i);
      OthersPrefix(sets, i + 1);
      SetOkAt(sets, i);
      if sets[i].key != PREFACE_KEY {
        SetsNext(minLLen, order, sets[i]);
        ghost var out := SetsBytes(minLLen, order).value;
        ok := WriteSet(file, minLLen, sets[i], d, p, out);
        order := order + [sets[i]];
        assert order == first + WithoutKey(sets[..i + 1], PREFACE_KEY);
        if !ok {
          WriteStops(minLLen, order, all);
          return;
        }
      }
      i := i + 1;
    }
    assert sets[..i] == sets;
    EmittedIs(d, p, SetsBytes(minLLen, all).value, file.data, file.pos);
  }

  /* ---- Readers ---- */

  lemma UidNext(items: seq<MetaItem>, x: MetaItem)
    ensures UidOf(items + [x]) == if x.key == INSTANCE_UID_KEY then Some(x.value) else UidOf(items)
    ensures UidOf([]) == None
  {
    assert (items + [x])[..|items|] == items;
  }

  /** Reads a set's items, at least one, noting the value of the last InstanceUID item. */
  method ReadItems(file: FlatFile, c: Catalog, known: set<Key>, len: nat)
      returns (r: Option<(seq<MetaItem>, Option<seq<byte>>)>, ghost steps: seq<ItemsSoFar>)
    modifies file`pos
    ensures var spec := ReadSetItems(c, known, file.data, old(file.pos), 0, len, []);
      && r.Some? == spec.Some?
      && (r.Some? ==> r.value.0 == spec.value && r.value.1 == UidOf(spec.value) && file.pos == old(file.pos) + len)
    // item by item, the first in any case, as long as the length is not used up; it succeeds exactly if they add up to it
    ensures steps != [] && steps[0] == ItemsSoFar(0, [])
    ensures forall i | 0 <= i < |steps| - 1 ::
              (i == 0 || steps[i].total < len) && ItemStep(c, known, file.data, old(file.pos), steps[i], steps[i + 1])
    ensures var end := steps[|steps| - 1];
      && (r.Some? <==> |steps| > 1 && end.total == len) && (r.Some? ==> r.value.0 == end.items)
      && (r.None? ==> (|steps| > 1 && end.total > len) || forall b :: !ItemStep(c, known, file.data, old(file.pos), end, b))
    // the value noted is that of the last InstanceUID item
    ensures r.Some? && r.value.1.Some? ==> exists i :: 0 <= i < |r.value.0| && r.value.0[i].key == INSTANCE_UID_KEY
                                                      && r.value.1.value == r.value.0[i].value
                                                      && forall j | i < j < |r.value.0| :: r.value.0[j].key != INSTANCE_UID_KEY
    ensures r.Some? && r.value.1.None? ==> forall i | 0 <= i < |r.value.0| :: r.value.0[i].key != INSTANCE_UID_KEY
  {
    hide Get, FromBigEndian, UidOf, ItemStep;
    ghost var p := file.pos;
    NoStep(c, known, file.data, p, len);
    steps := ItemsTaken(c, known, file.data, p, len, [ItemsSoFar(0, [])]);
    var items: seq<MetaItem>, totalLen, uid := [], 0, None;
    UidNext([], MetaItem([], 0, []));
    var first := true;
    while first || totalLen < len
      invariant totalLen >= 0 && file.pos == p + totalLen && uid == UidOf(items)
      invariant first ==> totalLen == 0 && items == []
      invariant ReadSetItems(c, known, file.data, p, 0, len, [])
             == if first || totalLen < len then ReadSetItems(c, known, file.data, file.pos, totalLen, len, items)
                else if totalLen == len then Some(items)
                else None
      decreases first, len - totalLen
    {
      first := false;
      var tl := ReadBytes(file, 4);
      if tl.None? {
        return None, steps;
      }
      var itemTag, itemLen := FromBigEndian(tl.value[..2]), FromBigEndian(tl.value[2..]);
      if Known(c, known, itemTag) {
        var value := ReadBytes(file, itemLen);
        if value.None? {
          return None, steps;
        }
        UidNext(items, MetaItem(c.tags[itemTag], itemTag, value.value));
        items := items + [MetaItem(c.tags[itemTag], itemTag, value.value)];
        if c.tags[itemTag] == INSTANCE_UID_KEY {
          uid := Some(value.value);
        }
      } else {
        Skip(file, itemLen);
      }
      totalLen := totalLen + 4 + itemLen;
    }
    if totalLen != len {
      return None, steps;
    }
    UidIs(items);
    return Some((items, uid)), steps;
  }

  lemma SetsAre(c: Catalog, data: seq<byte>, pos: nat, key: Key, len: nat)
    requires key in c.defs
    ensures forall s :: SetStands(c, data, pos, key, len, s) <==> ReadSet(c, data, pos, key, len) == Some(Some(s))
  {
    hide SetStands, ReadSet;
    forall s
      ensures SetStands(c, data, pos, key, len, s) <==> ReadSet(c, data, pos, key, len) == Some(Some(s))
    {
      SetIs(c, data, pos, key, len, s);
    }
  }

  /** Reads a set's items and its instance UID. */
  method ReadKnownSet(file: FlatFile, c: Catalog, key: Key, len: nat) returns (r: Option<MetaSet>)
    requires key in c.defs
    modifies file`pos
    ensures var spec := ReadSet(c, file.data, old(file.pos), key, len);
      && r.Some? == spec.Some? && (r.Some? ==> spec.value == Some(r.value) && file.pos == old(file.pos) + len)
    // the UID is the first 16 bytes of the last InstanceUID item
    ensures r.Some? ==> exists i :: 0 <= i < |r.value.items| && r.value.items[i].key == INSTANCE_UID_KEY
                                    && |r.value.items[i].value| >= 16 && r.value.instanceUID == r.value.items[i].value[..16]
                                    && forall j | i < j < |r.value.items| :: r.value.items[j].key != INSTANCE_UID_KEY
    // it succeeds exactly if such a set stands there
    ensures r.Some? ==> SetStands(c, file.data, old(file.pos), key, len, r.value)
    ensures r.None? ==> forall s :: !SetStands(c, file.data, old(file.pos), key, len, s)
  {
    hide ReadSetItems, UidOf, SetStands, ItemStep;
    SetsAre(c, file.data, file.pos, key, len);
    var read;
    ghost var steps;
    read, steps := ReadItems(file, c, c.defs[key], len);
    if read.None? || read.value.1.None? {
      return None;
    }
    var uid := read.value.1.value;
    if |uid| < 16 || uid[..16] == NULL_UUID {
      return None;
    }
    UidIs(read.value.0);
    return Some(MetaSet(key, uid[..16], read.value.0, 0));
  }

  /** Reads the sets of a header of `headerByteCount` bytes, of which `count` have been read. */
  method ReadHeaderSets(file: FlatFile, c: Catalog, headerByteCount: nat, start: nat)
      returns (r: Option<seq<MetaSet>>, ghost steps: seq<SetsSoFar>)
    modifies file`pos
    ensures r == ReadSets(c, file.data, old(file.pos), start, headerByteCount, [])
    // KLV by KLV as long as the bytes are not used up; it succeeds exactly if the KLVs add up to them
    ensures steps != [] && steps[0] == SetsSoFar(old(file.pos), start, [])
    ensures forall i | 0 <= i < |steps| - 1 ::
              steps[i].count < headerByteCount && SetStep(c, file.data, steps[i], steps[i + 1])
    ensures var end := steps[|steps| - 1];
      && (r.Some? <==> end.count == headerByteCount) && (r.Some? ==> r.value == end.sets)
      && (r.None? ==> end.count > headerByteCount || forall b :: !SetStep(c, file.data, end, b))
  {
    hide Get, ParseLength, ReadSet, IsFiller, SetStep, SetStands;
    ghost var p := file.pos;
    steps := SetsTaken(c, file.data, SetsSoFar(p, start, []), headerByteCount);
    var sets: seq<MetaSet>, count := [], start;
    while count < headerByteCount
      invariant count >= 0
      invariant ReadSets(c, file.data, p, start, headerByteCount, [])
             == ReadSets(c, file.data, file.pos, count, headerByteCount, sets)
    {
      var key := ReadBytes(file, 16);
      if key.None? {
        return None, steps;
      }
      var l := ReadL(file);
      if l.None? {
        return None, steps;
      }
      var len := l.value.1;
      if IsFiller(key.value) {
        Skip(file, len);
      } else if key.value !in c.defs {
        UnknownIs(c, file.data, file.pos, key.value, len);
        Skip(file, len);
      } else {
        var s := ReadKnownSet(file, c, key.value, len);
        if s.None? {
          return None, steps;
        }
        sets := sets + [s.value];
      }
      count := count + 16 + l.value.0 + len;
    }
    r := if count == headerByteCount then Some(sets) else None;
  }

  /** A header's sets written to a file and read back from there. */
  method WriteThenRead(file: FlatFile, minLLen: nat, sets: seq<MetaSet>, c: Catalog) returns (size: nat, r: Option<seq<MetaSet>>)
    requires minLLen <= 9 && SetsOk(sets) && AllRegistered(c, sets) && FillsBelow32(minLLen, sets)
    requires WriteOrder(sets).Some? && SetsOk(WriteOrder(sets).value) && SetsBytes(minLLen, WriteOrder(sets).value).Some?
    modifies file
    ensures size == SumSizes(minLLen, sets) && r.Some? && |r.value| == |WriteOrder(sets).value|
    ensures forall i | 0 <= i < |r.value| ::
              var s := WriteOrder(sets).value[i]; r.value[i] == MetaSet(s.key, s.instanceUID, s.items, 0)
  {
    hide SetOk, SetsBytes, WithKey, WithoutKey, FillsBelow32, Registered, ReadSets, At, Bares, SumSizes, Splice, WriteOrder, SetSize;
    var p := file.pos;
    ghost var d, b := file.data, SetsBytes(minLLen, WriteOrder(sets).value).value;
    size := GetSetsSize(minLLen, sets);
    var ok := WriteHeaderSets(file, minLLen, sets);
    SomeWritten(minLLen, sets);
    SplicedAt(d, p, b);
    HeaderReadsBack(c, minLLen, sets, file.data, p, 0);
    ok := file.Seek(p, SeekSet);
    ghost var steps;
    r, steps := ReadHeaderSets(file, c, size, 0);
  }

  lemma SomeWritten(minLLen: nat, sets: seq<MetaSet>)
    requires minLLen <= 9 && WriteOrder(sets).Some? && SetsOk(WriteOrder(sets).value)
    requires SetsBytes(minLLen, WriteOrder(sets).value).Some?
    ensures SetsBytes(minLLen, WriteOrder(sets).value).value != []
  {
  }
}
