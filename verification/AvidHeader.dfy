/** Header metadata as Avid files hold it: a root set, the sets in two passes, and a directory of where they are. */
module AvidModel {
  import opened Wrappers
  import opened Bytes
  import opened Ber
  import opened LocalSet
  import opened MetadataModel
  import opened HeaderOrder
  import Definitions

  const OBJECT_DIRECTORY_KEY: Key :=
    [0x96, 0x13, 0xb3, 0x8a, 0x87, 0x34, 0x87, 0x46, 0xf1, 0x02, 0x96, 0xf0, 0x56, 0xe0, 0x4d, 0x2a]

  const METADATA_ROOT_KEY: Key :=
    [0x80, 0x53, 0x08, 0x00, 0x36, 0x21, 0x08, 0x04, 0xb3, 0xb3, 0x98, 0xa5, 0x1c, 0x90, 0x11, 0xd4]

  const META_DICTIONARY_KEY: Key :=
    [0x06, 0x0e, 0x2b, 0x34, 0x02, 0x53, 0x01, 0x01, 0x0d, 0x01, 0x01, 0x01, 0x02, 0x25, 0x00, 0x00]

  /** The keys of the subclasses of MetaDictionary and of MetaDefinition, as the data model has them. */
  datatype Classes = Classes(metaDictionaries: set<Key>, metaDefinitions: set<Key>)

  const META_DEFINITION_KEY: Key :=
    [0x06, 0x0e, 0x2b, 0x34, 0x02, 0x53, 0x01, 0x01, 0x0d, 0x01, 0x01, 0x01, 0x02, 0x24, 0x00, 0x00]

  /** The sets that a data model says are or descend from another. */
  function Descendants(m: Definitions.SetDefs, chains: map<Key, seq<Key>>, key: Key): (r: set<Key>)
    requires forall k | k in m :: k in chains && chains[k] != [] && Definitions.InAll(m, chains[k])
  {
    {key} + set k | k in m && Definitions.IsSubclass(m, chains[k], key)
  }

  function ClassesOf(m: Definitions.SetDefs, chains: map<Key, seq<Key>>): (r: Classes)
    requires forall k | k in m :: k in chains && chains[k] != [] && Definitions.InAll(m, chains[k])
  {
    Classes(Descendants(m, chains, META_DICTIONARY_KEY), Descendants(m, chains, META_DEFINITION_KEY))
  }

  /** The four parts of the output. */
  datatype Part = MetaDictionary | MetaDefinitions | Preface | Others

  predicate InPart(c: Classes, p: Part, key: Key)
  {
    match p
    case MetaDictionary => key == META_DICTIONARY_KEY
    case MetaDefinitions => key in c.metaDefinitions
    case Preface => key == PREFACE_KEY
    case Others => key !in c.metaDictionaries && key !in c.metaDefinitions && key != PREFACE_KEY
  }

  function Select(c: Classes, p: Part, sets: seq<MetaSet>): seq<MetaSet>
  {
    if sets == [] then []
    else Select(c, p, sets[..|sets| - 1]) + if InPart(c, p, sets[|sets| - 1].key) then [sets[|sets| - 1]] else []
  }

  lemma {:induction false} SelectIsWithKey(c: Classes, sets: seq<MetaSet>)
    ensures Select(c, MetaDictionary, sets) == WithKey(sets, META_DICTIONARY_KEY)
    ensures Select(c, Preface, sets) == WithKey(sets, PREFACE_KEY)
  {
    if sets != [] {
      SelectIsWithKey(c, sets[..|sets| - 1]);
    }
  }

  lemma {:induction false} SelectCount(c: Classes, p: Part, sets: seq<MetaSet>, s: MetaSet)
    ensures multiset(Select(c, p, sets))[s] == if InPart(c, p, s.key) then multiset(sets)[s] else 0
  {
    if sets != [] {
      var f, x := sets[..|sets| - 1], sets[|sets| - 1];
      SelectCount(c, p, f, s);
      assert sets == f + [x];
    }
  }

  /** The sets of a part are those whose key belongs to it, in the order of the header. */
  lemma {:induction false} SelectInOrder(c: Classes, p: Part, sets: seq<MetaSet>) returns (idx: seq<nat>)
    ensures Picks(sets, idx, Select(c, p, sets))
    ensures forall i | 0 <= i < |sets| :: i in idx <==> InPart(c, p, sets[i].key)
  {
    hide InPart;
    if sets == [] {
      idx := [];
      NothingPicked(sets);
    } else {
      var n := |sets| - 1;
      idx := SelectInOrder(c, p, sets[..n]);
      NextPick(sets, n, idx, Select(c, p, sets[..n]));
      assert sets[..n + 1] == sets;
      if InPart(c, p, sets[n].key) {
        idx := idx + [n];
      }
    }
  }

  /** The order of the sets in the file. */
  function DictionarySets(c: Classes, sets: seq<MetaSet>): seq<MetaSet>
  {
    Select(c, MetaDictionary, sets) + Select(c, MetaDefinitions, sets)
  }

  function PrefaceSets(c: Classes, sets: seq<MetaSet>): seq<MetaSet>
  {
    Select(c, Preface, sets) + Select(c, Others, sets)
  }

  /** In how many parts sets with a key are written. */
  function Times(c: Classes, key: Key): nat
  {
    (if InPart(c, MetaDictionary, key) then 1 else 0) + (if InPart(c, MetaDefinitions, key) then 1 else 0)
    + (if InPart(c, Preface, key) then 1 else 0) + if InPart(c, Others, key) then 1 else 0
  }

  /** Every set of the header is written exactly once if and only if every set's key belongs to exactly one part. */
  lemma WrittenOnce(c: Classes, sets: seq<MetaSet>)
    ensures (forall s | s in sets ::
               multiset(DictionarySets(c, sets) + PrefaceSets(c, sets))[s] == multiset(sets)[s])
            <==> forall s | s in sets :: Times(c, s.key) == 1
  {
    hide Select, InPart;
    forall s | s in sets
      ensures multiset(DictionarySets(c, sets) + PrefaceSets(c, sets))[s] == multiset(sets)[s] <==> Times(c, s.key) == 1
    {
      SelectCount(c, MetaDictionary, sets, s);
      SelectCount(c, MetaDefinitions, sets, s);
      SelectCount(c, Preface, sets, s);
      SelectCount(c, Others, sets, s);
      TimesMatter(multiset(sets)[s], Times(c, s.key));
    }
  }

  lemma TimesMatter(n: nat, times: nat)
    requires n > 0
    ensures times == 0 || times == 1 || times == 2 || times == 3 || times == 4 ==> (n * times == n <==> times == 1)
  {
  }

  /** Then the output holds the header's sets and no others. */
  lemma AllWritten(c: Classes, sets: seq<MetaSet>)
    requires forall s | s in sets :: Times(c, s.key) == 1
    ensures multiset(DictionarySets(c, sets) + PrefaceSets(c, sets)) == multiset(sets)
  {
    hide Select, InPart, Times;
    WrittenOnce(c, sets);
    var all := DictionarySets(c, sets) + PrefaceSets(c, sets);
    forall s
      ensures multiset(all)[s] == multiset(sets)[s]
    {
      if s !in sets {
        SelectCount(c, MetaDictionary, sets, s);
        SelectCount(c, MetaDefinitions, sets, s);
        SelectCount(c, Preface, sets, s);
        SelectCount(c, Others, sets, s);
        assert multiset(all)[s] == 0;
      }
    }
  }

  /** With the data model as it is, MetaDictionary has no subclasses but itself, and neither it nor Preface defines
      a class: then every key belongs to exactly one part. */
  lemma PartsAreDisjoint(c: Classes, key: Key)
    requires c.metaDictionaries == {META_DICTIONARY_KEY}
    requires META_DICTIONARY_KEY !in c.metaDefinitions && PREFACE_KEY !in c.metaDefinitions
    ensures Times(c, key) == 1
  {
    assert META_DICTIONARY_KEY[13] != PREFACE_KEY[13];
  }

  /** With the classes of a data model, every key belongs to exactly one part if and only if neither MetaDictionary nor
      Preface descends from MetaDefinition, and what else descends from MetaDictionary does. */
  lemma PartsOfModel(m: Definitions.SetDefs, chains: map<Key, seq<Key>>)
    requires forall k | k in m :: k in chains && chains[k] != [] && Definitions.InAll(m, chains[k])
    ensures (forall key: Key :: Times(ClassesOf(m, chains), key) == 1)
            <==> && (forall k | k in m && Definitions.IsSubclass(m, chains[k], META_DICTIONARY_KEY) ::
                       k == META_DICTIONARY_KEY || k == PREFACE_KEY || k in ClassesOf(m, chains).metaDefinitions)
                 && META_DICTIONARY_KEY !in ClassesOf(m, chains).metaDefinitions
                 && PREFACE_KEY !in ClassesOf(m, chains).metaDefinitions
  {
    var c := ClassesOf(m, chains);
    assert META_DICTIONARY_KEY[13] != PREFACE_KEY[13];
    assert META_DICTIONARY_KEY in c.metaDictionaries;
    if forall key: Key :: Times(c, key) == 1 {
      assert Times(c, META_DICTIONARY_KEY) == 1 && Times(c, PREFACE_KEY) == 1;
      forall k | k in m && Definitions.IsSubclass(m, chains[k], META_DICTIONARY_KEY)
        ensures k == META_DICTIONARY_KEY || k == PREFACE_KEY || k in c.metaDefinitions
      {
        assert Times(c, k) == 1;
      }
    }
  }

  /* ---- Bytes ---- */

  datatype Reference = Reference(instanceUID: seq<byte>, offset: nat, flags: byte)

  /** The directory entries of sets written from `at` on, by their predicted sizes. */
  function Entries(minLLen: nat, sets: seq<MetaSet>, at: nat): (r: seq<Reference>)
    ensures |r| == |sets|
  {
    if sets == [] then []
    else [Reference(sets[0].instanceUID, at, 0)] + Entries(minLLen, sets[1..], at + SetSize(minLLen, sets[0]))
  }

  function ReferencesBytes(refs: seq<Reference>): seq<byte>
  {
    if refs == [] then []
    else
      var r := refs[|refs| - 1];
      ReferencesBytes(refs[..|refs| - 1]) + (r.instanceUID + BigEndian(8, r.offset) + BigEndian(1, r.flags))
  }

  function DirectoryBytes(minLLen: nat, refs: seq<Reference>): seq<byte>
    requires minLLen <= 9 && 9 + 25 * |refs| < Pow256(8)
  {
    GetLLenIsLeast(minLLen, 9 + 25 * |refs|);
    OBJECT_DIRECTORY_KEY + LengthBytes(GetLLen(minLLen, 9 + 25 * |refs|), 9 + 25 * |refs|)
    + BigEndian(8, |refs|) + BigEndian(1, 25) + ReferencesBytes(refs)
  }

  datatype Root = Root(id: seq<byte>, directoryOffset: nat, formatVersion: nat,
                       metaDictionaryInstanceUID: seq<byte>, prefaceInstanceUID: seq<byte>)

  predicate RootOk(r: Root)
  {
    |r.id| == 16 && |r.metaDictionaryInstanceUID| == 16 && |r.prefaceInstanceUID| == 16
  }

  function RootItems(r: Root): seq<Item>
  {
    [Item(0x3c0a, r.id), Item(0x0003, NULL_UUID + BigEndian(8, r.directoryOffset)),
     Item(0x0004, BigEndian(4, r.formatVersion)), Item(0x0001, r.metaDictionaryInstanceUID),
     Item(0x0002, r.prefaceInstanceUID)]
  }

  lemma NinetySix(minLLen: nat)
    requires minLLen <= 9
    ensures 96 < Pow256(8) && 1 <= GetLLen(minLLen, 96) <= 9 && LengthFits(GetLLen(minLLen, 96), 96)
  {
    Pow256Table();
    GetLLenIsLeast(minLLen, 96);
  }

  function RootBytes(minLLen: nat, r: Root): seq<byte>
    requires minLLen <= 9
  {
    NinetySix(minLLen);
    METADATA_ROOT_KEY + LengthBytes(GetLLen(minLLen, 96), 96) + ItemsBytes(RootItems(r))
  }

  lemma RootItemsSize(r: Root)
    requires RootOk(r)
    ensures |ItemsBytes(RootItems(r))| == 96
  {
    hide ItemsBytes, BigEndian;
    var i := RootItems(r);
    NoItems();
    ItemsNext([], i[0]);
    ItemsNext(i[..1], i[1]);
    ItemsNext(i[..2], i[2]);
    ItemsNext(i[..3], i[3]);
    ItemsNext(i[..4], i[4]);
    assert [] + [i[0]] == i[..1] && i[..1] + [i[1]] == i[..2] && i[..2] + [i[2]] == i[..3];
    assert i[..3] + [i[3]] == i[..4] && i[..4] + [i[4]] == i;
  }

  /** The declared length of the root set is right, and its size does not depend on what it holds. */
  lemma RootSize(minLLen: nat, r: Root)
    requires minLLen <= 9 && RootOk(r)
    ensures |ItemsBytes(RootItems(r))| == 96 && |RootBytes(minLLen, r)| == 16 + GetLLen(minLLen, 96) + 96
  {
    hide ItemsBytes, RootItems, LengthBytes, GetLLen;
    NinetySix(minLLen);
    RootItemsSize(r);
  }

  /** The root set's bytes before and behind its directory offset. */
  function RootStart(minLLen: nat, r: Root): seq<byte>
    requires minLLen <= 9
  {
    NinetySix(minLLen);
    METADATA_ROOT_KEY + LengthBytes(GetLLen(minLLen, 96), 96) + ItemBytes(Item(0x3c0a, r.id))
    + (BigEndian(2, 0x0003) + BigEndian(2, 24) + NULL_UUID)
  }

  function RootEnd(r: Root): seq<byte>
  {
    ItemBytes(Item(0x0004, BigEndian(4, r.formatVersion))) + ItemBytes(Item(0x0001, r.metaDictionaryInstanceUID))
    + ItemBytes(Item(0x0002, r.prefaceInstanceUID))
  }

  /** The directory offset is 8 bytes of the root set, and nothing around it depends on it. */
  lemma OffsetInRoot(minLLen: nat, r: Root, offset: nat)
    requires minLLen <= 9
    ensures RootBytes(minLLen, r) == RootStart(minLLen, r) + BigEndian(8, r.directoryOffset) + RootEnd(r)
    ensures var s := r.(directoryOffset := offset); RootStart(minLLen, s) == RootStart(minLLen, r) && RootEnd(s) == RootEnd(r)
  {
    hide ItemsBytes, BigEndian, LengthBytes, GetLLen;
    NinetySix(minLLen);
    var i := RootItems(r);
    NoItems();
    ItemsNext([], i[0]);
    ItemsNext(i[..1], i[1]);
    ItemsNext(i[..2], i[2]);
    ItemsNext(i[..3], i[3]);
    ItemsNext(i[..4], i[4]);
    assert [] + [i[0]] == i[..1] && i[..1] + [i[1]] == i[..2] && i[..2] + [i[2]] == i[..3];
    assert i[..3] + [i[3]] == i[..4] && i[..4] + [i[4]] == i;
  }

  /* ---- What stands in the file ---- */

  /** An entry of the directory: a UID, a place and flags, 25 bytes. */
  predicate ReferenceStands(data: seq<byte>, pos: nat, r: Reference)
  {
    && pos + 25 <= |data| && data[pos..pos + 16] == r.instanceUID
    && FromBigEndian(data[pos + 16..pos + 24]) == r.offset && data[pos + 24] == r.flags
  }

  lemma ReferenceIs(data: seq<byte>, pos: nat, r: Reference)
    requires |r.instanceUID| == 16 && r.offset < Pow256(8)
    requires At(data, pos, r.instanceUID + BigEndian(8, r.offset) + BigEndian(1, r.flags))
    ensures ReferenceStands(data, pos, r)
  {
    hide FromBigEndian, Pow256;
    AtParts(data, pos, r.instanceUID + BigEndian(8, r.offset), BigEndian(1, r.flags));
    AtParts(data, pos, r.instanceUID, BigEndian(8, r.offset));
    NumberAt(data, pos + 16, 8, r.offset);
    ByteAt(data, pos + 24, r.flags);
  }

  lemma {:induction false} ReferencesAre(data: seq<byte>, pos: nat, refs: seq<Reference>)
    requires At(data, pos, ReferencesBytes(refs))
    requires forall i | 0 <= i < |refs| :: |refs[i].instanceUID| == 16 && refs[i].offset < Pow256(8)
    ensures |ReferencesBytes(refs)| == 25 * |refs|
    ensures forall i | 0 <= i < |refs| :: ReferenceStands(data, pos + 25 * i, refs[i])
  {
    hide BigEndian, ReferenceStands, Pow256, At;
    if refs != [] {
      var n := |refs| - 1;
      var r := refs[n];
      AtParts(data, pos, ReferencesBytes(refs[..n]), r.instanceUID + BigEndian(8, r.offset) + BigEndian(1, r.flags));
      ReferencesAre(data, pos, refs[..n]);
      ReferenceIs(data, pos + 25 * n, r);
      forall i | 0 <= i < |refs|
        ensures ReferenceStands(data, pos + 25 * i, refs[i])
      {
        if i < n {
          assert ReferenceStands(data, pos + 25 * i, refs[..n][i]);
        }
      }
    }
  }

  /** The directory: its key, a length field that counts the bytes up to `end`, the number of entries, their size, and
      the entries. */
  predicate DirectoryStands(data: seq<byte>, pos: nat, end: nat, refs: seq<Reference>)
  {
    && At(data, pos, OBJECT_DIRECTORY_KEY) && ParseLength(data, pos + 16).Some?
    && var e := pos + 16 + ParseLength(data, pos + 16).value.0;
    && e + ParseLength(data, pos + 16).value.1 == end && end == e + 9 + 25 * |refs| && end <= |data|
    && FromBigEndian(data[e..e + 8]) == |refs| && data[e + 8] == 25
    && forall i | 0 <= i < |refs| :: ReferenceStands(data, e + 9 + 25 * i, refs[i])
  }

  lemma ByteAt(data: seq<byte>, pos: nat, v: byte)
    requires At(data, pos, BigEndian(1, v))
    ensures pos < |data| && data[pos] == v
  {
    assert BigEndian(1, v) == [v];
    assert data[pos] == data[pos..pos + 1][0];
  }

  lemma DirectoryIs(minLLen: nat, data: seq<byte>, pos: nat, refs: seq<Reference>)
    requires minLLen <= 9 && 9 + 25 * |refs| < Pow256(8)
    requires At(data, pos, DirectoryBytes(minLLen, refs))
    requires forall i | 0 <= i < |refs| :: |refs[i].instanceUID| == 16 && refs[i].offset < Pow256(8)
    ensures DirectoryStands(data, pos, pos + |DirectoryBytes(minLLen, refs)|, refs)
  {
    hide LengthBytes, GetLLen, ReferencesBytes, ReferenceStands, ParseLength, LengthFits, FromBigEndian, Pow256, BigEndian, At;
    var len := 9 + 25 * |refs|;
    GetLLenIsLeast(minLLen, len);
    var l := LengthBytes(GetLLen(minLLen, len), len);
    AtEnds(data, pos, DirectoryBytes(minLLen, refs));
    AtParts(data, pos, OBJECT_DIRECTORY_KEY + l + BigEndian(8, |refs|) + BigEndian(1, 25), ReferencesBytes(refs));
    AtParts(data, pos, OBJECT_DIRECTORY_KEY + l + BigEndian(8, |refs|), BigEndian(1, 25));
    AtParts(data, pos, OBJECT_DIRECTORY_KEY + l, BigEndian(8, |refs|));
    AtParts(data, pos, OBJECT_DIRECTORY_KEY, l);
    LengthAt(data, pos + 16, GetLLen(minLLen, len), len);
    var e := pos + 16 + |l|;
    NumberAt(data, e, 8, |refs|);
    ByteAt(data, e + 8, 25);
    ReferencesAre(data, e + 9, refs);
  }

  /** The root set: its key, 96 bytes and in them its own UID, the directory's place, the version, and the UIDs of the
      MetaDictionary and Preface sets. */
  predicate RootStands(data: seq<byte>, pos: nat, r: Root)
  {
    && At(data, pos, METADATA_ROOT_KEY) && ParseLength(data, pos + 16).Some? && ParseLength(data, pos + 16).value.1 == 96
    && var q := pos + 16 + ParseLength(data, pos + 16).value.0;
    && q + 96 <= |data| && ItemAt(data, q, 0x3c0a, r.id)
    && ItemAt(data, q + 20, 0x0003, NULL_UUID + data[q + 40..q + 48]) && FromBigEndian(data[q + 40..q + 48]) == r.directoryOffset
    && ItemAt(data, q + 48, 0x0004, data[q + 52..q + 56]) && FromBigEndian(data[q + 52..q + 56]) == r.formatVersion
    && ItemAt(data, q + 56, 0x0001, r.metaDictionaryInstanceUID)
    && ItemAt(data, q + 76, 0x0002, r.prefaceInstanceUID)
  }

  lemma RootItemsAre(data: seq<byte>, q: nat, r: Root)
    requires RootOk(r) && At(data, q, ItemsBytes(RootItems(r)))
    ensures var i := RootItems(r);
      && ItemAt(data, q, i[0].tag, i[0].value) && ItemAt(data, q + 20, i[1].tag, i[1].value)
      && ItemAt(data, q + 48, i[2].tag, i[2].value) && ItemAt(data, q + 56, i[3].tag, i[3].value)
      && ItemAt(data, q + 76, i[4].tag, i[4].value)
  {
    hide ItemsBytes, ItemBytes, BigEndian, At, ItemAt;
    var i := RootItems(r);
    NoItems();
    ItemsNext([], i[0]);
    ItemsNext(i[..1], i[1]);
    ItemsNext(i[..2], i[2]);
    ItemsNext(i[..3], i[3]);
    ItemsNext(i[..4], i[4]);
    assert [] + [i[0]] == i[..1] && i[..1] + [i[1]] == i[..2] && i[..2] + [i[2]] == i[..3];
    assert i[..3] + [i[3]] == i[..4] && i[..4] + [i[4]] == i;
    AtParts(data, q, ItemsBytes(i[..4]), ItemBytes(i[4]));
    AtParts(data, q, ItemsBytes(i[..3]), ItemBytes(i[3]));
    AtParts(data, q, ItemsBytes(i[..2]), ItemBytes(i[2]));
    AtParts(data, q, ItemsBytes(i[..1]), ItemBytes(i[1]));
    assert ItemsBytes(i[..1]) == ItemBytes(i[0]);
    ItemIsAt(data, q, i[0]);
    ItemIsAt(data, q + 20, i[1]);
    ItemIsAt(data, q + 48, i[2]);
    ItemIsAt(data, q + 56, i[3]);
    ItemIsAt(data, q + 76, i[4]);
  }

  lemma RootIs(minLLen: nat, data: seq<byte>, pos: nat, r: Root)
    requires minLLen <= 9 && RootOk(r) && r.directoryOffset < Pow256(8) && r.formatVersion < Pow256(4)
    requires At(data, pos, RootBytes(minLLen, r))
    ensures RootStands(data, pos, r)
  {
    hide ItemsBytes, LengthBytes, GetLLen, ParseLength, LengthFits, FromBigEndian, Pow256, BigEndian;
    NinetySix(minLLen);
    RootItemsSize(r);
    var l := LengthBytes(GetLLen(minLLen, 96), 96);
    AtParts(data, pos, METADATA_ROOT_KEY + l, ItemsBytes(RootItems(r)));
    AtParts(data, pos, METADATA_ROOT_KEY, l);
    LengthAt(data, pos + 16, GetLLen(minLLen, 96), 96);
    var q := pos + 16 + |l|;
    RootItemsAre(data, q, r);
    assert data[q + 40..q + 48] == data[q + 24..q + 48][16..];
    assert data[q + 40..q + 48] == BigEndian(8, r.directoryOffset);
    BigEndianRoundTrip(8, r.directoryOffset);
    BigEndianRoundTrip(4, r.formatVersion);
  }

  /* ---- What the directory says ---- */

  /** Each entry names a set and the place where that set's key stands. */
  predicate Locates(data: seq<byte>, refs: seq<Reference>, sets: seq<MetaSet>)
  {
    |refs| == |sets| && forall i | 0 <= i < |refs| ::
      refs[i].instanceUID == sets[i].instanceUID && At(data, refs[i].offset, sets[i].key)
  }

  lemma {:induction false} EntriesLocate(minLLen: nat, data: seq<byte>, sets: seq<MetaSet>, at: nat)
    requires minLLen <= 9 && SetsOk(sets) && SetsBytes(minLLen, sets).Some? && FillsBelow32(minLLen, sets)
    requires At(data, at, SetsBytes(minLLen, sets).value)
    ensures Locates(data, Entries(minLLen, sets, at), sets)
    decreases |sets|
  {
    hide SetOk, SetSize, SetBytes, SetKlv, At, SetsOk, FillsBelow32, Locates;
    if sets == [] {
      NothingToLocate(data);
    } else {
      FitFront(minLLen, sets);
      var b, rest := SetBytes(minLLen, sets[0]).value, SetsBytes(minLLen, sets[1..]).value;
      AtParts(data, at, b, rest);
      KeyFirst(minLLen, data, at, sets[0]);
      SetSizeExact(minLLen, sets[0]);
      EntriesLocate(minLLen, data, sets[1..], at + |b|);
      LocatesNext(data, Reference(sets[0].instanceUID, at, 0), Entries(minLLen, sets[1..], at + |b|), sets);
    }
  }

  lemma NothingToLocate(data: seq<byte>)
    ensures Locates(data, [], [])
  {
  }

  lemma FitFront(minLLen: nat, sets: seq<MetaSet>)
    requires minLLen <= 9 && sets != [] && SetsOk(sets) && FillsBelow32(minLLen, sets)
    ensures SetOk(sets[0]) && SetsOk(sets[1..])
    ensures sets[0].fixedSpaceAllocation - |SetKlv(minLLen, sets[0])| <= UINT32_MAX && FillsBelow32(minLLen, sets[1..])
  {
    hide SetOk, SetKlv;
  }

  lemma LocatesNext(data: seq<byte>, r: Reference, refs: seq<Reference>, sets: seq<MetaSet>)
    requires sets != [] && Locates(data, refs, sets[1..]) && r.instanceUID == sets[0].instanceUID && At(data, r.offset, sets[0].key)
    ensures Locates(data, [r] + refs, sets)
  {
    hide At;
    var all := [r] + refs;
    forall i | 0 <= i < |all|
      ensures all[i].instanceUID == sets[i].instanceUID && At(data, all[i].offset, sets[i].key)
    {
      if i > 0 {
        assert all[i] == refs[i - 1] && sets[i] == sets[1..][i - 1];
      }
    }
  }

  lemma KeyFirst(minLLen: nat, data: seq<byte>, at: nat, s: MetaSet)
    requires minLLen <= 9 && SetOk(s) && SetBytes(minLLen, s).Some? && At(data, at, SetBytes(minLLen, s).value)
    ensures At(data, at, s.key)
  {
    hide SetOk, At, LengthBytes, SetValue, SetLLen, SetFill;
    SetLLenIsOk(minLLen, s);
    AtParts(data, at, SetKlv(minLLen, s), SetFill(minLLen, s).value);
    AtParts(data, at, s.key + LengthBytes(SetLLen(minLLen, |SetValue(s)|), |SetValue(s)|), SetValue(s));
    AtParts(data, at, s.key, LengthBytes(SetLLen(minLLen, |SetValue(s)|), |SetValue(s)|));
  }

  lemma SetLLenIsOk(minLLen: nat, s: MetaSet)
    requires minLLen <= 9 && SetOk(s)
    ensures |SetValue(s)| < Pow256(8)
    ensures 1 <= SetLLen(minLLen, |SetValue(s)|) <= 9 && LengthFits(SetLLen(minLLen, |SetValue(s)|), |SetValue(s)|)
  {
    SetLLenFits(minLLen, |SetValue(s)|);
  }
}

module AvidHeader {
  import opened Wrappers
  import opened Bytes
  import opened Ber
  import opened MxfFile
  import opened LocalSet
  import opened MetadataModel
  import opened HeaderOrder
  import opened HeaderMetadata
  import opened AvidModel

  /** Where the sets of the file are. */
  class ObjectDirectory {
    var references: seq<Reference>

    constructor ()
      ensures references == []
    {
      references := [];
    }

    method Add(instanceUID: seq<byte>, offset: nat, flags: byte)
      modifies this
      ensures references == old(references) + [Reference(instanceUID, offset, flags)]
    {
      references := references + [Reference(instanceUID, offset, flags)];
    }
  }

  lemma ReferencesNext(refs: seq<Reference>, r: Reference)
    ensures ReferencesBytes(refs + [r]) == ReferencesBytes(refs) + (r.instanceUID + BigEndian(8, r.offset) + BigEndian(1, r.flags))
  {
    assert (refs + [r])[..|refs|] == refs;
  }

  method WriteObjectDirectory(file: FlatFile, minLLen: nat, directory: ObjectDirectory,
                              ghost d: seq<byte>, ghost p: nat, ghost out: seq<byte>)
    requires Emitted(d, p, out, file.data, file.pos) && minLLen <= 9 && 9 + 25 * |directory.references| < Pow256(8)
    modifies file
    ensures Emitted(d, p, out + DirectoryBytes(minLLen, directory.references), file.data, file.pos)
    // key, a length field that counts the bytes that follow it, the number of entries, their size, and each entry
    ensures var data, at, refs := file.data, old(file.pos), directory.references;
      (forall i | 0 <= i < |refs| :: |refs[i].instanceUID| == 16 && refs[i].offset < Pow256(8)) ==>
        && At(data, at, OBJECT_DIRECTORY_KEY) && ParseLength(data, at + 16).Some?
        && var e := at + 16 + ParseLength(data, at + 16).value.0;
        && e + ParseLength(data, at + 16).value.1 == file.pos == e + 9 + 25 * |refs| && file.pos <= |data|
        && FromBigEndian(data[e..e + 8]) == |refs| && data[e + 8] == 25
        && forall i | 0 <= i < |refs| ::
             var u := e + 9 + 25 * i;
             && data[u..u + 16] == refs[i].instanceUID && FromBigEndian(data[u + 16..u + 24]) == refs[i].offset
             && data[u + 24] == refs[i].flags
  {
    hide Emitted, LengthBytes, Pow256, GetLLen, BigEndian, FromBigEndian, LengthFits, ReferencesBytes, ParseLength, At;
    var refs := directory.references;
    EmittedIs(d, p, out, file.data, file.pos);
    var len := 9 + 25 * |refs|;
    WriteKL(file, OBJECT_DIRECTORY_KEY, minLLen, len, d, p, out);
    ghost var head := out + OBJECT_DIRECTORY_KEY + LengthBytes(GetLLen(minLLen, len), len);
    Emit(file, BigEndian(8, |refs|), d, p, head);
    Emit(file, BigEndian(1, 25), d, p, head + BigEndian(8, |refs|));
    head := head + BigEndian(8, |refs|) + BigEndian(1, 25);
    WriteReferences(file, refs, d, p, head);
    assert head + ReferencesBytes(refs) == out + DirectoryBytes(minLLen, refs);
    DirectoryEmitted(minLLen, refs, d, p, out, file.data, file.pos);
  }

  lemma DirectoryEmitted(minLLen: nat, refs: seq<Reference>, d: seq<byte>, p: nat, out: seq<byte>, data: seq<byte>, pos: nat)
    requires minLLen <= 9 && 9 + 25 * |refs| < Pow256(8) && Emitted(d, p, out + DirectoryBytes(minLLen, refs), data, pos)
    ensures (forall i | 0 <= i < |refs| :: |refs[i].instanceUID| == 16 && refs[i].offset < Pow256(8)) ==>
              DirectoryStands(data, p + |out|, pos, refs)
  {
    hide Emitted, Splice, Pow256, DirectoryStands, ReferencesBytes, LengthBytes, GetLLen, BigEndian, LengthFits, At;
    var b := DirectoryBytes(minLLen, refs);
    EmittedIs(d, p, out + b, data, pos);
    SplicedAt(d, p, out + b);
    AtParts(data, p, out, b);
    if forall i | 0 <= i < |refs| :: |refs[i].instanceUID| == 16 && refs[i].offset < Pow256(8) {
      DirectoryIs(minLLen, data, p + |out|, refs);
    }
  }

  method WriteReferences(file: FlatFile, refs: seq<Reference>, ghost d: seq<byte>, ghost p: nat, ghost out: seq<byte>)
    requires Emitted(d, p, out, file.data, file.pos)
    modifies file
    ensures Emitted(d, p, out + ReferencesBytes(refs), file.data, file.pos)
  {
    hide Emitted, BigEndian;
    assert out + [] == out;
    var i := 0;
    while i < |refs|
      invariant 0 <= i <= |refs| && Emitted(d, p, out + ReferencesBytes(refs[..i]), file.data, file.pos)
    {
      ghost var o := out + ReferencesBytes(refs[..i]);
      var r := refs[i];
      Emit(file, r.instanceUID, d, p, o);
      Emit(file, BigEndian(8, r.offset), d, p, o + r.instanceUID);
      Emit(file, BigEndian(1, r.flags), d, p, o + r.instanceUID + BigEndian(8, r.offset));
      ReferencesNext(refs[..i], r);
      assert refs[..i] + [r] == refs[..i + 1];
      assert o + r.instanceUID + BigEndian(8, r.offset) + BigEndian(1, r.flags) == out + ReferencesBytes(refs[..i + 1]);
      i := i + 1;
    }
    assert refs[..i] == refs;
  }

  method WriteRootSet(file: FlatFile, minLLen: nat, root: Root, ghost d: seq<byte>, ghost p: nat, ghost out: seq<byte>)
    requires Emitted(d, p, out, file.data, file.pos) && minLLen <= 9
    modifies file
    ensures Emitted(d, p, out + RootBytes(minLLen, root), file.data, file.pos)
  {
    hide Emitted, LengthBytes, Pow256, GetLLen, LengthFits, BigEndian, ItemsBytes;
    NinetySix(minLLen);
    NoItems();
    WriteKL(file, METADATA_ROOT_KEY, minLLen, 96, d, p, out);
    ghost var head := out + METADATA_ROOT_KEY + LengthBytes(GetLLen(minLLen, 96), 96);
    ghost var items := RootItems(root);
    assert head + [] == head && items[..0] == [] && items[..0] + [items[0]] == items[..1];
    assert items[..1] + [items[1]] == items[..2] && items[..2] + [items[2]] == items[..3];
    assert items[..3] + [items[3]] == items[..4] && items[..4] + [items[4]] == items;
    WriteItem(file, Item(0x3c0a, root.id), d, p, head, items[..0]);
    WriteItem(file, Item(0x0003, NULL_UUID + BigEndian(8, root.directoryOffset)), d, p, head, items[..1]);
    WriteItem(file, Item(0x0004, BigEndian(4, root.formatVersion)), d, p, head, items[..2]);
    WriteItem(file, Item(0x0001, root.metaDictionaryInstanceUID), d, p, head, items[..3]);
    WriteItem(file, Item(0x0002, root.prefaceInstanceUID), d, p, head, items[..4]);
    assert head + ItemsBytes(items) == out + RootBytes(minLLen, root);
  }

  /** Notes where a set goes, writes it and moves the offset on by its predicted size. */
  method WriteSetAt(file: FlatFile, minLLen: nat, s: MetaSet, offset: nat, directory: ObjectDirectory,
                    ghost d: seq<byte>, ghost p: nat, ghost out: seq<byte>) returns (ok: bool, newOffset: nat)
    requires Emitted(d, p, out, file.data, file.pos) && minLLen <= 9 && SetOk(s)
    modifies file, directory
    ensures ok == SetBytes(minLLen, s).Some?
    ensures directory.references == old(directory.references) + [Reference(s.instanceUID, offset, 0)]
    ensures ok ==> Emitted(d, p, out + SetBytes(minLLen, s).value, file.data, file.pos)
    ensures ok ==> newOffset == offset + SetSize(minLLen, s)
  {
    directory.Add(s.instanceUID, offset, 0);
    newOffset := offset;
    ok := WriteSet(file, minLLen, s, d, p, out);
    if ok {
      var size := GetSetSize(minLLen, s);
      newOffset := offset + size;
    }
  }

  lemma {:induction false} SelectOk(c: Classes, p: Part, sets: seq<MetaSet>)
    requires SetsOk(sets)
    ensures SetsOk(Select(c, p, sets)) && |Select(c, p, sets)| <= |sets|
  {
    hide SetOk, InPart;
    if sets != [] {
      SelectOk(c, p, sets[..|sets| - 1]);
    }
  }

  lemma {:induction false} SelectPrefix(c: Classes, p: Part, sets: seq<MetaSet>, i: nat)
    requires i <= |sets|
    ensures Select(c, p, sets[..i]) <= Select(c, p, sets)
    decreases |sets| - i
  {
    hide InPart;
    if i == |sets| {
      assert sets[..i] == sets;
    } else {
      var f := sets[..|sets| - 1];
      SelectPrefix(c, p, f, i);
      assert f[..i] == sets[..i];
    }
  }

  lemma SelectNext(c: Classes, p: Part, sets: seq<MetaSet>, i: nat)
    requires i < |sets|
    ensures Select(c, p, sets[..i + 1]) == Select(c, p, sets[..i]) + if InPart(c, p, sets[i].key) then [sets[i]] else []
  {
    assert sets[..i + 1][..i] == sets[..i];
  }

  lemma {:induction false} EntriesNext(minLLen: nat, sets: seq<MetaSet>, s: MetaSet, at: nat)
    ensures Entries(minLLen, sets + [s], at)
         == Entries(minLLen, sets, at) + [Reference(s.instanceUID, at + SumSizes(minLLen, sets), 0)]
    decreases |sets|
  {
    hide SetSize, SumSizes;
    NoSizes(minLLen);
    if sets == [] {
      assert [] + [s] == [s] && [s][1..] == [];
    } else {
      EntriesNext(minLLen, sets[1..], s, at + SetSize(minLLen, sets[0]));
      SumJoin(minLLen, [sets[0]], sets[1..]);
      SumNext(minLLen, [], sets[0]);
      assert [] + [sets[0]] == [sets[0]] && [sets[0]] + sets[1..] == sets;
      assert (sets + [s])[1..] == sets[1..] + [s];
    }
  }

  lemma NoSizes(minLLen: nat)
    ensures SumSizes(minLLen, []) == 0
  {
  }

  /** Writes the sets of a part that belong to `order`'s part, behind the sets of `first`. */
  method WriteSelected(file: FlatFile, minLLen: nat, sets: seq<MetaSet>, c: Classes, part: Part, first: MetaSet, offset: nat,
                       directory: ObjectDirectory, ghost d: seq<byte>, ghost p: nat, ghost out: seq<byte>) returns (ok: bool)
    requires Emitted(d, p, out, file.data, file.pos) && minLLen <= 9 && SetsOk(sets) && SetOk(first)
    modifies file, directory
    ensures SetsOk([first] + Select(c, part, sets))
    ensures ok == SetsBytes(minLLen, [first] + Select(c, part, sets)).Some?
    ensures ok ==> Emitted(d, p, out + SetsBytes(minLLen, [first] + Select(c, part, sets)).value, file.data, file.pos)
    ensures ok ==>
              directory.references == old(directory.references) + Entries(minLLen, [first] + Select(c, part, sets), offset)
  {
    hide Emitted, SetOk, SetBytes, SetsOk, SetsBytes, Select, InPart, SetSize, SumSizes, Entries;
    ghost var refs, all := directory.references, [first] + Select(c, part, sets);
    SelectOk(c, part, sets);
    OkOne(first);
    OkJoin([first], Select(c, part, sets));
    NothingWritten(minLLen, first);
    var at;
    ok, at := WriteSetAt(file, minLLen, first, offset, directory, d, p, out);
    ghost var order := [first];
    if !ok {
      WriteStops(minLLen, order, all);
      return;
    }
    OneEntry(minLLen, first, offset);
    NoneSelected(c, part, sets);
    assert order + [] == order;
    var i := 0;
    while i < |sets|
      invariant 0 <= i <= |sets| && ok && SetsOk(order) && order == [first] + Select(c, part, sets[..i])
      invariant SetsBytes(minLLen, order).Some? && Emitted(d, p, out + SetsBytes(minLLen, order).value, file.data, file.pos)
      invariant at == offset + SumSizes(minLLen, order)
      invariant directory.references == refs + Entries(minLLen, order, offset)
    {
      SelectNext(c, part, sets, i);
      SetOkAt(sets, i);
      if InPart(c, part, sets[i].key) {
        SelectPrefix(c, part, sets, i + 1);
        SetsNext(minLLen, order, sets[i]);
        EntriesNext(minLLen, order, sets[i], offset);
        SumNext(minLLen, order, sets[i]);
        ghost var o := SetsBytes(minLLen, order).value;
        ok, at := WriteSetAt(file, minLLen, sets[i], at, directory, d, p, out + o);
        order := order + [sets[i]];
        assert order == [first] + Select(c, part, sets[..i + 1]);
        if !ok {
          WriteStops(minLLen, order, all);
          return;
        }
        assert out + o + SetBytes(minLLen, sets[i]).value == out + SetsBytes(minLLen, order).value;
      } else {
        assert order == [first] + Select(c, part, sets[..i + 1]);
      }
      i := i + 1;
    }
    assert sets[..i] == sets;
  }

  lemma NoneSelected(c: Classes, part: Part, sets: seq<MetaSet>)
    ensures Select(c, part, sets[..0]) == []
  {
  }

  lemma OneEntry(minLLen: nat, s: MetaSet, at: nat)
    ensures Entries(minLLen, [s], at) == [Reference(s.instanceUID, at, 0)] && SumSizes(minLLen, [s]) == SetSize(minLLen, s)
  {
    hide SetSize;
    assert [s][1..] == [];
    SumNext(minLLen, [], s);
    NoSizes(minLLen);
    assert [] + [s] == [s];
  }

  /** Writes the only set of part `one` and then the sets of part `rest`, noting where each of them goes. */
  method WriteSets(file: FlatFile, minLLen: nat, sets: seq<MetaSet>, c: Classes, one: Part, rest: Part,
                   directory: ObjectDirectory, ghost d: seq<byte>, ghost p: nat, ghost out: seq<byte>) returns (ok: bool)
    requires Emitted(d, p, out, file.data, file.pos) && minLLen <= 9 && SetsOk(sets) && one in {MetaDictionary, Preface}
    modifies file, directory
    ensures SetsOk(Select(c, one, sets) + Select(c, rest, sets))
    ensures ok == (|Select(c, one, sets)| == 1 && SetsBytes(minLLen, Select(c, one, sets) + Select(c, rest, sets)).Some?)
    ensures ok ==>
              var all := Select(c, one, sets) + Select(c, rest, sets);
              && Emitted(d, p, out + SetsBytes(minLLen, all).value, file.data, file.pos)
              && directory.references == old(directory.references) + Entries(minLLen, all, p + |out|)
  {
    hide SetOk, SetsOk, SetsBytes, Select, WithKey, Entries, Splice;
    var offset := file.pos;
    SelectIsWithKey(c, sets);
    SelectOk(c, one, sets);
    SelectOk(c, rest, sets);
    OkJoin(Select(c, one, sets), Select(c, rest, sets));
    var first := FindSingularSetByKey(sets, if one == MetaDictionary then META_DICTIONARY_KEY else PREFACE_KEY);
    if first.None? {
      return false;
    }
    assert Select(c, one, sets) == [first.value];
    SetOkAt(Select(c, one, sets), 0);
    ok := WriteSelected(file, minLLen, sets, c, rest, first.value, offset, directory, d, p, out);
  }

  /** The directory of a header whose root set stands at `at`. */
  function Directory(minLLen: nat, c: Classes, sets: seq<MetaSet>, root: Root, at: nat): (r: seq<Reference>)
    requires minLLen <= 9 && SetsOk(DictionarySets(c, sets)) && SetsBytes(minLLen, DictionarySets(c, sets)).Some?
    ensures |r| == 1 + |DictionarySets(c, sets)| + |PrefaceSets(c, sets)|
  {
    var a := at + |RootBytes(minLLen, root)|;
    [Reference(root.id, at, 0)] + Entries(minLLen, DictionarySets(c, sets), a)
    + Entries(minLLen, PrefaceSets(c, sets), a + |SetsBytes(minLLen, DictionarySets(c, sets)).value|)
  }

  predicate Writable(minLLen: nat, c: Classes, sets: seq<MetaSet>)
    requires minLLen <= 9
  {
    && |Select(c, MetaDictionary, sets)| == 1 && |Select(c, Preface, sets)| == 1
    && SetsOk(DictionarySets(c, sets)) && SetsBytes(minLLen, DictionarySets(c, sets)).Some?
    && SetsOk(PrefaceSets(c, sets)) && SetsBytes(minLLen, PrefaceSets(c, sets)).Some?
  }

  /** The root set with the place of the directory filled in. */
  function FinalRoot(minLLen: nat, c: Classes, sets: seq<MetaSet>, id: seq<byte>, at: nat): Root
    requires minLLen <= 9 && Writable(minLLen, c, sets)
  {
    var root := Root(id, 0, 8, Select(c, MetaDictionary, sets)[0].instanceUID, Select(c, Preface, sets)[0].instanceUID);
    root.(directoryOffset := at + |RootBytes(minLLen, root)| + |SetsBytes(minLLen, DictionarySets(c, sets)).value|
                             + |SetsBytes(minLLen, PrefaceSets(c, sets)).value|)
  }

  /** All that is written from the root set's place on. */
  function HeaderBytes(minLLen: nat, c: Classes, sets: seq<MetaSet>, root: Root, at: nat): seq<byte>
    requires minLLen <= 9 && Writable(minLLen, c, sets) && |sets| <= UINT32_MAX
  {
    PartSizes(c, sets);
    RootBytes(minLLen, root) + SetsBytes(minLLen, DictionarySets(c, sets)).value
    + SetsBytes(minLLen, PrefaceSets(c, sets)).value + DirectoryBytes(minLLen, Directory(minLLen, c, sets, root, at))
  }

  lemma {:induction false} SelectSize(c: Classes, p: Part, sets: seq<MetaSet>)
    ensures |Select(c, p, sets)| <= |sets|
  {
    if sets != [] {
      SelectSize(c, p, sets[..|sets| - 1]);
    }
  }

  lemma PartSizes(c: Classes, sets: seq<MetaSet>)
    requires |sets| <= UINT32_MAX
    ensures 9 + 25 * (1 + |DictionarySets(c, sets)| + |PrefaceSets(c, sets)|) < Pow256(8)
  {
    hide Select, Pow256;
    Pow256Table();
    SelectSize(c, MetaDictionary, sets);
    SelectSize(c, MetaDefinitions, sets);
    SelectSize(c, Preface, sets);
    SelectSize(c, Others, sets);
  }

  /** What stands in a file with a header from `at` to `end`: the root set, which names the directory's place, and the
      directory, whose entries, the root's and then one for each set in the order of the file, are where the keys are. */
  predicate HeaderRight(minLLen: nat, c: Classes, sets: seq<MetaSet>, id: seq<byte>, data: seq<byte>, at: nat, end: nat)
    requires minLLen <= 9 && Writable(minLLen, c, sets)
  {
    var root := FinalRoot(minLLen, c, sets, id, at);
    var refs := Directory(minLLen, c, sets, root, at);
    && RootStands(data, at, root) && DirectoryStands(data, root.directoryOffset, end, refs)
    && refs[0] == Reference(id, at, 0) && Unflagged(refs)
    && Locates(data, refs[1..], DictionarySets(c, sets) + PrefaceSets(c, sets))
  }

  predicate Unflagged(refs: seq<Reference>)
  {
    forall i | 0 <= i < |refs| :: refs[i].flags == 0
  }

  lemma {:induction false} EntriesUnflagged(minLLen: nat, sets: seq<MetaSet>, at: nat)
    ensures Unflagged(Entries(minLLen, sets, at))
    decreases |sets|
  {
    hide SetSize;
    if sets != [] {
      EntriesUnflagged(minLLen, sets[1..], at + SetSize(minLLen, sets[0]));
    }
  }

  lemma DirectoryIsRight(minLLen: nat, c: Classes, sets: seq<MetaSet>, id: seq<byte>, data: seq<byte>, at: nat)
    requires minLLen <= 9 && Writable(minLLen, c, sets) && |sets| <= UINT32_MAX && |data| < Pow256(8)
    requires FillsBelow32(minLLen, DictionarySets(c, sets)) && FillsBelow32(minLLen, PrefaceSets(c, sets))
    requires |id| == 16 && forall s | s in sets :: |s.instanceUID| == 16 && |s.key| == 16
    requires RootOk(FinalRoot(minLLen, c, sets, id, at))
    requires At(data, at, HeaderBytes(minLLen, c, sets, FinalRoot(minLLen, c, sets, id, at), at))
    ensures HeaderRight(minLLen, c, sets, id, data, at, at + |HeaderBytes(minLLen, c, sets, FinalRoot(minLLen, c, sets, id, at), at)|)
  {
    hide SetOk, SetsBytes, Select, At, LengthBytes, GetLLen, ReferencesBytes, BigEndian, FillsBelow32, Entries, SetsOk,
         DictionarySets, PrefaceSets, Locates, ItemsBytes, RootItems, RootOk, RootStands, DirectoryStands, Pow256, DirectoryBytes,
         RootBytes, Unflagged;
    var root, first := FinalRoot(minLLen, c, sets, id, at), FinalRoot(minLLen, c, sets, id, at).(directoryOffset := 0);
    var x, y := DictionarySets(c, sets), PrefaceSets(c, sets);
    var a, b := SetsBytes(minLLen, x).value, SetsBytes(minLLen, y).value;
    var r, refs := RootBytes(minLLen, root), Directory(minLLen, c, sets, root, at);
    PartSizes(c, sets);
    SameRootSize(minLLen, first, root);
    AtParts(data, at, r + a + b, DirectoryBytes(minLLen, refs));
    AtParts(data, at, r + a, b);
    AtParts(data, at, r, a);
    AtEnds(data, root.directoryOffset, DirectoryBytes(minLLen, refs));
    SmallVersion();
    RootIs(minLLen, data, at, root);
    EntriesLocate(minLLen, data, x, at + |r|);
    EntriesLocate(minLLen, data, y, at + |r| + |a|);
    LocatesBoth(data, Entries(minLLen, x, at + |r|), x, Entries(minLLen, y, at + |r| + |a|), y);
    assert refs[1..] == Entries(minLLen, x, at + |r|) + Entries(minLLen, y, at + |r| + |a|);
    PartsInSets(c, sets);
    PlacesFit(data, refs[1..], x + y);
    assert forall i | 0 < i < |refs| :: refs[i] == refs[1..][i - 1];
    DirectoryIs(minLLen, data, root.directoryOffset, refs);
    AllUnflagged(minLLen, refs, Reference(root.id, at, 0), x, at + |r|, y, at + |r| + |a|);
  }

  lemma SmallVersion()
    ensures 8 < Pow256(4)
  {
    Pow256Table();
  }

  lemma AllUnflagged(minLLen: nat, refs: seq<Reference>, r: Reference, x: seq<MetaSet>, a: nat, y: seq<MetaSet>, b: nat)
    requires refs == [r] + Entries(minLLen, x, a) + Entries(minLLen, y, b) && r.flags == 0
    ensures Unflagged(refs)
  {
    hide Entries;
    EntriesUnflagged(minLLen, x, a);
    EntriesUnflagged(minLLen, y, b);
  }

  lemma PartsInSets(c: Classes, sets: seq<MetaSet>)
    ensures forall s | s in DictionarySets(c, sets) + PrefaceSets(c, sets) :: s in sets
  {
    hide Select, InPart;
    var all := DictionarySets(c, sets) + PrefaceSets(c, sets);
    forall s | s in all
      ensures s in sets
    {
      SelectCount(c, MetaDictionary, sets, s);
      SelectCount(c, MetaDefinitions, sets, s);
      SelectCount(c, Preface, sets, s);
      SelectCount(c, Others, sets, s);
      assert multiset(all)[s] > 0;
    }
  }

  lemma PlacesFit(data: seq<byte>, refs: seq<Reference>, sets: seq<MetaSet>)
    requires Locates(data, refs, sets) && |data| < Pow256(8) && forall s | s in sets :: |s.instanceUID| == 16
    ensures forall i | 0 <= i < |refs| :: |refs[i].instanceUID| == 16 && refs[i].offset < Pow256(8)
  {
    hide Pow256;
    forall i | 0 <= i < |refs|
      ensures |refs[i].instanceUID| == 16 && refs[i].offset < Pow256(8)
    {
      assert sets[i] in sets && At(data, refs[i].offset, sets[i].key);
    }
  }

  lemma FillsOfPart(minLLen: nat, c: Classes, sets: seq<MetaSet>, one: Part, rest: Part)
    requires minLLen <= 9 && SetsOk(sets) && FillsBelow32(minLLen, sets)
    ensures var all := Select(c, one, sets) + Select(c, rest, sets); SetsOk(all) && FillsBelow32(minLLen, all)
  {
    hide SetOk, Select, SetKlv, InPart;
    var all := Select(c, one, sets) + Select(c, rest, sets);
    forall i | 0 <= i < |all|
      ensures SetOk(all[i]) && all[i].fixedSpaceAllocation - |SetKlv(minLLen, all[i])| <= UINT32_MAX
    {
      SelectCount(c, one, sets, all[i]);
      SelectCount(c, rest, sets, all[i]);
      assert multiset(all)[all[i]] > 0;
      assert all[i] in sets;
    }
  }

  /** A header written at `at` is right, and holds every set exactly once if every key belongs to one part. */
  lemma WrittenHeaderIsRight(minLLen: nat, c: Classes, sets: seq<MetaSet>, id: seq<byte>, d: seq<byte>, at: nat)
    requires minLLen <= 9 && SetsOk(sets) && |sets| <= UINT32_MAX && |id| == 16 && forall s | s in sets :: |s.instanceUID| == 16
    requires Writable(minLLen, c, sets) && FillsBelow32(minLLen, sets)
    requires |Splice(d, at, HeaderBytes(minLLen, c, sets, FinalRoot(minLLen, c, sets, id, at), at))| < Pow256(8)
    ensures var all := HeaderBytes(minLLen, c, sets, FinalRoot(minLLen, c, sets, id, at), at);
            HeaderRight(minLLen, c, sets, id, Splice(d, at, all), at, at + |all|)
  {
    hide SetOk, SetsBytes, Select, At, RootBytes, DirectoryBytes, FillsBelow32, Entries, Locates, Splice, Directory, HeaderBytes,
         DictionarySets, PrefaceSets, HeaderRight, Pow256;
    var root := FinalRoot(minLLen, c, sets, id, at);
    SelectedUid(c, MetaDictionary, sets);
    SelectedUid(c, Preface, sets);
    PartsFill(minLLen, c, sets);
    KeysOk(sets);
    HeaderNotEmpty(minLLen, c, sets, root, at);
    SplicedAt(d, at, HeaderBytes(minLLen, c, sets, root, at));
    DirectoryIsRight(minLLen, c, sets, id, Splice(d, at, HeaderBytes(minLLen, c, sets, root, at)), at);
  }

  lemma KeysOk(sets: seq<MetaSet>)
    requires SetsOk(sets)
    ensures forall s | s in sets :: |s.key| == 16
  {
    forall s | s in sets
      ensures |s.key| == 16
    {
      var i :| 0 <= i < |sets| && sets[i] == s;
      assert SetOk(sets[i]);
    }
  }

  lemma SelectedUid(c: Classes, p: Part, sets: seq<MetaSet>)
    requires |Select(c, p, sets)| == 1 && forall s | s in sets :: |s.instanceUID| == 16
    ensures |Select(c, p, sets)[0].instanceUID| == 16
  {
    hide Select, InPart;
    var s := Select(c, p, sets)[0];
    SelectCount(c, p, sets, s);
    assert multiset(Select(c, p, sets))[s] > 0 && s in multiset(sets);
  }

  lemma PartsFill(minLLen: nat, c: Classes, sets: seq<MetaSet>)
    requires minLLen <= 9 && SetsOk(sets) && FillsBelow32(minLLen, sets)
    ensures SetsOk(DictionarySets(c, sets)) && FillsBelow32(minLLen, DictionarySets(c, sets))
    ensures SetsOk(PrefaceSets(c, sets)) && FillsBelow32(minLLen, PrefaceSets(c, sets))
  {
    hide SetsOk, FillsBelow32, Select;
    FillsOfPart(minLLen, c, sets, MetaDictionary, MetaDefinitions);
    FillsOfPart(minLLen, c, sets, Preface, Others);
  }

  lemma HeaderNotEmpty(minLLen: nat, c: Classes, sets: seq<MetaSet>, root: Root, at: nat)
    requires minLLen <= 9 && Writable(minLLen, c, sets) && |sets| <= UINT32_MAX && RootOk(root)
    ensures HeaderBytes(minLLen, c, sets, root, at) != []
  {
    hide SetOk, SetsOk, SetsBytes, Select, DirectoryBytes, Directory, DictionarySets, PrefaceSets, RootBytes;
    RootSize(minLLen, root);
  }

  lemma SameRootSize(minLLen: nat, r: Root, s: Root)
    requires minLLen <= 9 && RootOk(s) && r == s.(directoryOffset := r.directoryOffset)
    ensures |RootBytes(minLLen, r)| == |RootBytes(minLLen, s)|
  {
    RootSize(minLLen, r);
    RootSize(minLLen, s);
  }

  lemma LocatesBoth(data: seq<byte>, a: seq<Reference>, x: seq<MetaSet>, b: seq<Reference>, y: seq<MetaSet>)
    requires Locates(data, a, x) && Locates(data, b, y)
    ensures Locates(data, a + b, x + y)
  {
    hide At;
  }

  /** Rewriting the start of a written run with as many bytes changes that start and nothing else. */
  lemma Rewritten(d: seq<byte>, p: nat, was: seq<byte>, now: seq<byte>, rest: seq<byte>)
    requires |was| == |now| && was != []
    ensures Splice(Splice(d, p, was + rest), p, now) == Splice(d, p, now + rest)
  {
    hide Splice;
    var l, r := Splice(Splice(d, p, was + rest), p, now), Splice(d, p, now + rest);
    assert |l| == |r|;
    forall k | 0 <= k < |l|
      ensures l[k] == r[k]
    {
      if p <= k < p + |was| {
        assert (now + rest)[k - p] == now[k - p];
      } else if p <= k < p + |was| + |rest| {
        assert (now + rest)[k - p] == rest[k - p - |now|] == (was + rest)[k - p];
      }
    }
  }

  /** A part of a written run, rewritten with as many bytes. */
  lemma PartRewritten(d: seq<byte>, p: nat, a: seq<byte>, was: seq<byte>, now: seq<byte>, rest: seq<byte>)
    requires |was| == |now| && was != []
    ensures Splice(Splice(d, p, a + was + rest), p + |a|, now) == Splice(d, p, a + now + rest)
  {
    hide Splice;
    assert a + was + rest == a + (was + rest) && a + now + rest == a + (now + rest);
    SpliceJoin(d, p, a, was + rest);
    SpliceJoin(d, p, a, now + rest);
    Rewritten(Splice(d, p, a), p + |a|, was, now, rest);
  }

  /** The root set with another directory offset is the root set with 8 bytes rewritten. */
  lemma OffsetRewritten(minLLen: nat, d: seq<byte>, p: nat, was: Root, offset: nat, rest: seq<byte>)
    requires minLLen <= 9
    ensures Splice(d, p, RootBytes(minLLen, was.(directoryOffset := offset)) + rest)
         == Splice(Splice(d, p, RootBytes(minLLen, was) + rest), p + |RootStart(minLLen, was)|, BigEndian(8, offset))
  {
    hide Splice, RootBytes, RootStart, RootEnd, BigEndian;
    OffsetInRoot(minLLen, was, offset);
    OffsetInRoot(minLLen, was.(directoryOffset := offset), offset);
    var a, x, y, c := RootStart(minLLen, was), BigEndian(8, was.directoryOffset), BigEndian(8, offset), RootEnd(was);
    assert a + x + c + rest == a + x + (c + rest) && a + y + c + rest == a + y + (c + rest);
    PartRewritten(d, p, a, x, y, c + rest);
  }

  /** Goes back and writes the root set again, now that the place of the directory is known: 8 bytes of the file change. */
  method RewriteRoot(file: FlatFile, minLLen: nat, was: Root, directoryOffset: nat, rootPos: nat, ghost d: seq<byte>,
                     ghost rest: seq<byte>)
    requires minLLen <= 9 && RootOk(was)
    requires file.data == Splice(d, rootPos, RootBytes(minLLen, was) + rest)
    modifies file
    ensures file.data == Splice(d, rootPos, RootBytes(minLLen, was.(directoryOffset := directoryOffset)) + rest)
    ensures file.data == Splice(old(file.data), rootPos + |RootStart(minLLen, was)|, BigEndian(8, directoryOffset))
    ensures file.pos == old(file.pos)
  {
    hide Emitted, RootBytes, RootStart, Splice;
    var root := was.(directoryOffset := directoryOffset);
    var endPos := file.pos;
    ghost var written := file.data;
    var ok := file.Seek(rootPos, SeekSet);
    NothingEmitted(written, rootPos);
    WriteRootSet(file, minLLen, root, written, rootPos, []);
    assert [] + RootBytes(minLLen, root) == RootBytes(minLLen, root);
    EmittedIs(written, rootPos, RootBytes(minLLen, root), file.data, file.pos);
    RootSize(minLLen, was);
    RootSize(minLLen, root);
    Rewritten(d, rootPos, RootBytes(minLLen, was), RootBytes(minLLen, root), rest);
    OffsetRewritten(minLLen, d, rootPos, was, directoryOffset, rest);
    ok := file.Seek(endPos, SeekSet);
  }

  lemma OnlyOne(sets: seq<MetaSet>, key: Key)
    requires |WithKey(sets, key)| == 1
    ensures WithKey(sets, key)[0] in sets
  {
    hide WithKey;
    Partition(sets, key);
    assert WithKey(sets, key)[0] in WithKey(sets, key);
  }

  /** Root set, sets and directory, and then the root set again now that the directory's place is known. */
  method WriteParts(file: FlatFile, minLLen: nat, sets: seq<MetaSet>, c: Classes, id: seq<byte>) returns (ok: bool)
    requires minLLen <= 9 && SetsOk(sets) && |sets| <= UINT32_MAX && |id| == 16
    requires forall s | s in sets :: |s.instanceUID| == 16
    modifies file
    ensures ok == Writable(minLLen, c, sets)
    ensures ok ==>
              var all := HeaderBytes(minLLen, c, sets, FinalRoot(minLLen, c, sets, id, old(file.pos)), old(file.pos));
              file.data == Splice(old(file.data), old(file.pos), all) && file.pos == old(file.pos) + |all|
    ensures ok && FillsBelow32(minLLen, sets) && |file.data| < Pow256(8) ==>
              HeaderRight(minLLen, c, sets, id, file.data, old(file.pos), file.pos)
  {
    hide SetOk, SetsOk, SetsBytes, Select, WithKey, Entries, Splice, RootBytes, DirectoryBytes, Emitted, FillsBelow32, HeaderRight,
         Times, Pow256;
    ghost var d := file.data;
    var rootPos := file.pos;
    var directory := new ObjectDirectory();
    SelectIsWithKey(c, sets);
    var metaDictSet := FindSingularSetByKey(sets, META_DICTIONARY_KEY);
    if metaDictSet.None? {
      return false;
    }
    var prefaceSet := FindSingularSetByKey(sets, PREFACE_KEY);
    if prefaceSet.None? {
      return false;
    }
    OnlyOne(sets, META_DICTIONARY_KEY);
    OnlyOne(sets, PREFACE_KEY);
    var root := Root(id, 0, 8, metaDictSet.value.instanceUID, prefaceSet.value.instanceUID);
    directory.Add(root.id, rootPos, 0);
    NothingEmitted(d, rootPos);
    WriteRootSet(file, minLLen, root, d, rootPos, []);
    ghost var r := RootBytes(minLLen, root);
    assert [] + r == r;
    ok := WriteSets(file, minLLen, sets, c, MetaDictionary, MetaDefinitions, directory, d, rootPos, r);
    if !ok {
      return;
    }
    ghost var a := SetsBytes(minLLen, DictionarySets(c, sets)).value;
    ok := WriteSets(file, minLLen, sets, c, Preface, Others, directory, d, rootPos, r + a);
    if !ok {
      return;
    }
    ghost var b := SetsBytes(minLLen, PrefaceSets(c, sets)).value;
    EmittedIs(d, rootPos, r + a + b, file.data, file.pos);
    FinishHeader(file, minLLen, sets, c, root, rootPos, directory, d);
    if FillsBelow32(minLLen, sets) && |file.data| < Pow256(8) {
      WrittenHeaderIsRight(minLLen, c, sets, id, d, rootPos);
    }
  }

  /** Where in the header's list the sets are, in the order of the file. */
  lemma OrderOfParts(c: Classes, sets: seq<MetaSet>)
      returns (dictionary: nat, definitions: seq<nat>, preface: nat, others: seq<nat>, order: seq<nat>)
    requires |Select(c, MetaDictionary, sets)| == 1 && |Select(c, Preface, sets)| == 1
    ensures dictionary < |sets| && sets[dictionary].key == META_DICTIONARY_KEY
    ensures preface < |sets| && sets[preface].key == PREFACE_KEY
    ensures forall i, j | 0 <= i < j < |definitions| :: definitions[i] < definitions[j]
    ensures forall i, j | 0 <= i < j < |others| :: others[i] < others[j]
    ensures forall i: nat :: i in definitions <==> i < |sets| && sets[i].key in c.metaDefinitions
    ensures forall i: nat :: i in others <==>
              i < |sets| && sets[i].key !in c.metaDictionaries && sets[i].key !in c.metaDefinitions && sets[i].key != PREFACE_KEY
    ensures order == [dictionary] + definitions + [preface] + others
    ensures Select(c, MetaDictionary, sets) == [sets[dictionary]] && Select(c, Preface, sets) == [sets[preface]]
    ensures var all := DictionarySets(c, sets) + PrefaceSets(c, sets);
            |all| == |order| && forall k | 0 <= k < |order| :: order[k] < |sets| && all[k] == sets[order[k]]
  {
    hide Select;
    var m := SelectInOrder(c, MetaDictionary, sets);
    definitions := SelectInOrder(c, MetaDefinitions, sets);
    var f := SelectInOrder(c, Preface, sets);
    others := SelectInOrder(c, Others, sets);
    dictionary, preface := m[0], f[0];
    assert dictionary in m && preface in f;
    order := [dictionary] + definitions + [preface] + others;
    var all := DictionarySets(c, sets) + PrefaceSets(c, sets);
    var n := |definitions|;
    forall k | 0 <= k < |order|
      ensures order[k] < |sets| && all[k] == sets[order[k]]
    {
      if 1 <= k < n + 1 {
        assert order[k] == definitions[k - 1] && all[k] == Select(c, MetaDefinitions, sets)[k - 1];
      } else if k >= n + 2 {
        assert order[k] == others[k - n - 2] && all[k] == Select(c, Others, sets)[k - n - 2];
      }
    }
  }

  /** At p stands the root set: its key, a length field for 96 bytes, and from q on its items: its own UID, the place of
      the directory, the version, and the UIDs of the MetaDictionary and the Preface set. */
  predicate RootSetAt(data: seq<byte>, p: nat, q: nat, id: seq<byte>, at: nat, dictionary: seq<byte>, preface: seq<byte>)
  {
    && At(data, p, METADATA_ROOT_KEY) && p + 16 <= q && ParseLength(data, p + 16) == Some((q - p - 16, 96))
    && q + 96 <= |data| && ItemAt(data, q, 0x3c0a, id)
    && ItemAt(data, q + 20, 0x0003, NULL_UUID + data[q + 40..q + 48]) && FromBigEndian(data[q + 40..q + 48]) == at
    && ItemAt(data, q + 48, 0x0004, data[q + 52..q + 56]) && FromBigEndian(data[q + 52..q + 56]) == 8
    && ItemAt(data, q + 56, 0x0001, dictionary) && ItemAt(data, q + 76, 0x0002, preface)
  }

  /** At `at` stands a directory of n entries: its key, a length field that counts the bytes from e to the end, the
      number of entries and their size. */
  predicate DirectoryAt(data: seq<byte>, at: nat, e: nat, end: nat, n: nat)
  {
    && At(data, at, OBJECT_DIRECTORY_KEY) && at + 16 <= e <= end <= |data|
    && ParseLength(data, at + 16) == Some((e - at - 16, end - e)) && end == e + 9 + 25 * n
    && FromBigEndian(data[e..e + 8]) == n && data[e + 8] == 25
  }

  /** At u stands an entry with a set's UID and the place at which that set's key stands. */
  predicate EntryAt(data: seq<byte>, u: nat, uid: seq<byte>, key: Key)
  {
    u + 25 <= |data| && data[u..u + 16] == uid && At(data, FromBigEndian(data[u + 16..u + 24]), key) && data[u + 24] == 0
  }

  lemma HeaderIs(minLLen: nat, c: Classes, sets: seq<MetaSet>, id: seq<byte>, data: seq<byte>, p: nat, end: nat)
      returns (q: nat, at: nat, e: nat)
    requires minLLen <= 9 && Writable(minLLen, c, sets) && HeaderRight(minLLen, c, sets, id, data, p, end) && |id| == 16
    ensures RootSetAt(data, p, q, id, at, Select(c, MetaDictionary, sets)[0].instanceUID, Select(c, Preface, sets)[0].instanceUID)
    ensures var all := DictionarySets(c, sets) + PrefaceSets(c, sets);
      && DirectoryAt(data, at, e, end, 1 + |all|) && EntryAt(data, e + 9, id, METADATA_ROOT_KEY)
      && forall i | 0 <= i < |all| :: EntryAt(data, e + 34 + 25 * i, all[i].instanceUID, all[i].key)
  {
    hide SetsOk, SetsBytes, Select, Entries, RootBytes, DirectoryBytes, At, ItemAt, ParseLength, FromBigEndian,
         DictionarySets, PrefaceSets;
    var root := FinalRoot(minLLen, c, sets, id, p);
    var refs, all := Directory(minLLen, c, sets, root, p), DictionarySets(c, sets) + PrefaceSets(c, sets);
    at := root.directoryOffset;
    q := p + 16 + ParseLength(data, p + 16).value.0;
    e := at + 16 + ParseLength(data, at + 16).value.0;
    assert ReferenceStands(data, e + 9 + 25 * 0, refs[0]);
    forall i | 0 <= i < |all|
      ensures EntryAt(data, e + 34 + 25 * i, all[i].instanceUID, all[i].key)
    {
      assert ReferenceStands(data, e + 9 + 25 * (i + 1), refs[i + 1]);
      assert refs[1..][i] == refs[i + 1];
    }
  }

  lemma WritableParts(minLLen: nat, c: Classes, sets: seq<MetaSet>)
    requires minLLen <= 9 && Writable(minLLen, c, sets)
    ensures |Select(c, MetaDictionary, sets)| == 1 && |Select(c, Preface, sets)| == 1
  {
  }

  /** Writes a header: root set, the MetaDictionary set and the definitions, the Preface set and the others, and a
      directory of where all these are. */
  method WriteHeader(file: FlatFile, minLLen: nat, sets: seq<MetaSet>, c: Classes, id: seq<byte>)
      returns (ok: bool, ghost dictionary: nat, ghost definitions: seq<nat>, ghost preface: nat, ghost others: seq<nat>,
               ghost order: seq<nat>, ghost q: nat, ghost at: nat, ghost e: nat)
    requires minLLen <= 9 && SetsOk(sets) && |sets| <= UINT32_MAX && |id| == 16
    requires forall s | s in sets :: |s.instanceUID| == 16
    modifies file
    ensures ok == Writable(minLLen, c, sets)
    ensures ok ==>
              var all := HeaderBytes(minLLen, c, sets, FinalRoot(minLLen, c, sets, id, old(file.pos)), old(file.pos));
              file.data == Splice(old(file.data), old(file.pos), all) && file.pos == old(file.pos) + |all|
    // which sets are written, each part in the order of the header's list
    ensures ok ==> dictionary < |sets| && sets[dictionary].key == META_DICTIONARY_KEY
    ensures ok ==> preface < |sets| && sets[preface].key == PREFACE_KEY
    ensures ok ==> forall i, j | 0 <= i < j < |definitions| :: definitions[i] < definitions[j]
    ensures ok ==> forall i, j | 0 <= i < j < |others| :: others[i] < others[j]
    ensures ok ==> forall i: nat :: i in definitions <==> i < |sets| && sets[i].key in c.metaDefinitions
    ensures ok ==> forall i: nat :: i in others <==>
              i < |sets| && sets[i].key !in c.metaDictionaries && sets[i].key !in c.metaDefinitions && sets[i].key != PREFACE_KEY
    ensures ok ==> order == [dictionary] + definitions + [preface] + others && forall i | 0 <= i < |order| :: order[i] < |sets|
    // if every key belongs to one part, these are all sets of the header
    ensures ok && (forall s | s in sets :: Times(c, s.key) == 1) ==> |order| == |sets|
    // the root set: its UID, the place of the directory, the version, and the UIDs of the two sets
    ensures ok && FillsBelow32(minLLen, sets) && |file.data| < Pow256(8) ==>
              RootSetAt(file.data, old(file.pos), q, id, at, sets[dictionary].instanceUID, sets[preface].instanceUID)
    // the directory: up to the end, with an entry for the root set and one for each set, which say where their keys stand
    ensures ok && FillsBelow32(minLLen, sets) && |file.data| < Pow256(8) ==>
              DirectoryAt(file.data, at, e, file.pos, 1 + |order|) && EntryAt(file.data, e + 9, id, METADATA_ROOT_KEY)
    ensures ok && FillsBelow32(minLLen, sets) && |file.data| < Pow256(8) ==> forall i | 0 <= i < |order| ::
              EntryAt(file.data, e + 34 + 25 * i, sets[order[i]].instanceUID, sets[order[i]].key)
  {
    hide SetOk, SetsOk, SetsBytes, Select, WithKey, Entries, Splice, RootBytes, DirectoryBytes, Emitted, FillsBelow32,
         Times, Pow256, HeaderBytes, DictionarySets, PrefaceSets, HeaderRight, Writable, FinalRoot, RootSetAt, DirectoryAt, EntryAt;
    dictionary, definitions, preface, others, order, q, at, e := 0, [], 0, [], [], 0, 0, 0;
    ghost var p := file.pos;
    ok := WriteParts(file, minLLen, sets, c, id);
    if ok {
      WritableParts(minLLen, c, sets);
      dictionary, definitions, preface, others, order := OrderOfParts(c, sets);
      if FillsBelow32(minLLen, sets) && |file.data| < Pow256(8) {
        q, at, e := HeaderIs(minLLen, c, sets, id, file.data, p, file.pos);
      }
      if forall s | s in sets :: Times(c, s.key) == 1 {
        AllWritten(c, sets);
        assert |multiset(sets)| == |sets|;
        assert |multiset(DictionarySets(c, sets) + PrefaceSets(c, sets))| == |DictionarySets(c, sets) + PrefaceSets(c, sets)|;
      }
    }
  }

  /** The bytes of a header do not depend on what directory offset the entries were counted with. */
  lemma HeaderBytesAre(minLLen: nat, c: Classes, sets: seq<MetaSet>, root: Root, offset: nat, at: nat)
    requires minLLen <= 9 && |sets| <= UINT32_MAX && Writable(minLLen, c, sets) && RootOk(root)
    ensures var refs := Directory(minLLen, c, sets, root, at);
            && 9 + 25 * |refs| < Pow256(8)
            && HeaderBytes(minLLen, c, sets, root.(directoryOffset := offset), at)
               == RootBytes(minLLen, root.(directoryOffset := offset))
                  + (SetsBytes(minLLen, DictionarySets(c, sets)).value + SetsBytes(minLLen, PrefaceSets(c, sets)).value
                     + DirectoryBytes(minLLen, refs))
  {
    hide SetOk, SetsOk, SetsBytes, Select, Entries, RootBytes, DirectoryBytes, DictionarySets, PrefaceSets;
    PartSizes(c, sets);
    var final := root.(directoryOffset := offset);
    SameRootSize(minLLen, root, final);
    var s, a, b := RootBytes(minLLen, final), SetsBytes(minLLen, DictionarySets(c, sets)).value,
                   SetsBytes(minLLen, PrefaceSets(c, sets)).value;
    var dir := DirectoryBytes(minLLen, Directory(minLLen, c, sets, root, at));
    assert s + a + b + dir == s + (a + b + dir);
  }

  /** Writes the directory and fills in its place in the root set. */
  method FinishHeader(file: FlatFile, minLLen: nat, sets: seq<MetaSet>, c: Classes, root: Root, rootPos: nat,
                      directory: ObjectDirectory, ghost d: seq<byte>)
    requires minLLen <= 9 && |sets| <= UINT32_MAX && Writable(minLLen, c, sets) && RootOk(root)
    requires Emitted(d, rootPos, RootBytes(minLLen, root) + SetsBytes(minLLen, DictionarySets(c, sets)).value
                                 + SetsBytes(minLLen, PrefaceSets(c, sets)).value, file.data, file.pos)
    requires directory.references == Directory(minLLen, c, sets, root, rootPos)
    modifies file
    ensures var all := HeaderBytes(minLLen, c, sets, root.(directoryOffset := old(file.pos)), rootPos);
            file.data == Splice(d, rootPos, all) && file.pos == rootPos + |all|
  {
    hide SetOk, SetsOk, SetsBytes, Select, Entries, Splice, RootBytes, DirectoryBytes, Emitted, DictionarySets, PrefaceSets,
         HeaderBytes, Directory, RootStart;
    ghost var a, b := SetsBytes(minLLen, DictionarySets(c, sets)).value, SetsBytes(minLLen, PrefaceSets(c, sets)).value;
    var directoryOffset := file.pos;
    HeaderBytesAre(minLLen, c, sets, root, directoryOffset, rootPos);
    ghost var r, dir := RootBytes(minLLen, root), DirectoryBytes(minLLen, directory.references);
    WriteObjectDirectory(file, minLLen, directory, d, rootPos, r + a + b);
    EmittedIs(d, rootPos, r + a + b + dir, file.data, file.pos);
    assert r + a + b + dir == r + (a + b + dir);
    RewriteRoot(file, minLLen, root, directoryOffset, rootPos, d, a + b + dir);
    RootSize(minLLen, root);
    RootSize(minLLen, root.(directoryOffset := directoryOffset));
  }
}
