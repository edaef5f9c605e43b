/** The definitions of sets, items and item types, looked up along parents and cloned from one model to another. */
module Definitions {
  import opened Bytes
  import opened Wrappers
  import opened MetadataModel

  datatype ItemDef = ItemDef(setDefKey: Key, key: Key, localTag: nat, typeId: nat, isRequired: bool)

  /** A set definition: its parent's key as registered, and the parent once it is linked. */
  datatype SetDef = SetDef(key: Key, parentSetDefKey: Key, parentSetDef: Option<Key>, itemDefs: seq<ItemDef>)

  type SetDefs = map<Key, SetDef>

  /** The set's parents, from itself to the last one. */
  predicate Chain(m: SetDefs, s: Key, chain: seq<Key>)
    decreases |chain|
  {
    && chain != [] && chain[0] == s && s in m && m[s].key == s
    && if |chain| == 1 then m[s].parentSetDef == None
       else m[s].parentSetDef == Some(chain[1]) && Chain(m, chain[1], chain[1..])
  }

  predicate InAll(m: SetDefs, chain: seq<Key>)
  {
    forall i | 0 <= i < |chain| :: chain[i] in m
  }

  /** The first definition with the key. */
  function Own(items: seq<ItemDef>, key: Key): Option<ItemDef>
  {
    if items == [] then None else if items[0].key == key then Some(items[0]) else Own(items[1..], key)
  }

  /** What looking an item up finds: the definition of the nearest set of the chain that has one. */
  function Nearest(m: SetDefs, chain: seq<Key>, key: Key): Option<ItemDef>
    requires InAll(m, chain)
  {
    if chain == [] then None
    else
      assert forall i | 0 <= i < |chain[1..]| :: chain[1..][i] == chain[i + 1];
      if Own(m[chain[0]].itemDefs, key).Some? then Own(m[chain[0]].itemDefs, key)
      else Nearest(m, chain[1..], key)
  }

  /** The definition of the farthest set of the chain that has one. */
  function Farthest(m: SetDefs, chain: seq<Key>, key: Key): Option<ItemDef>
    requires InAll(m, chain)
  {
    if chain == [] then None
    else
      assert forall i | 0 <= i < |chain[1..]| :: chain[1..][i] == chain[i + 1];
      var above := Farthest(m, chain[1..], key);
      if above.Some? then above else Own(m[chain[0]].itemDefs, key)
  }

  /** No set of the chain gives another definition of an item that a set above it defines. */
  predicate NoRedefinition(m: SetDefs, chain: seq<Key>)
    requires InAll(m, chain)
  {
    chain != [] ==>
      (assert forall i | 0 <= i < |chain[1..]| :: chain[1..][i] == chain[i + 1];
       NoRedefinition(m, chain[1..])
       && forall i | 0 <= i < |m[chain[0]].itemDefs| ::
            var k := m[chain[0]].itemDefs[i].key;
            Nearest(m, chain[1..], k).Some? ==> Own(m[chain[0]].itemDefs, k) == Nearest(m, chain[1..], k))
  }

  lemma {:induction false} OwnHasKey(items: seq<ItemDef>, key: Key)
    ensures Own(items, key).Some? ==> Own(items, key).value.key == key && exists i :: 0 <= i < |items| && items[i].key == key
    ensures Own(items, key).None? ==> forall i | 0 <= i < |items| :: items[i].key != key
  {
    if items != [] && items[0].key != key {
      OwnHasKey(items[1..], key);
      assert forall i | 0 <= i < |items[1..]| :: items[1..][i] == items[i + 1];
      if Own(items[1..], key).Some? {
        var i :| 0 <= i < |items[1..]| && items[1..][i].key == key;
        assert items[i + 1].key == key;
      }
    }
  }

  /** Where the first definition with the key is. */
  lemma {:induction false} OwnIs(items: seq<ItemDef>, key: Key) returns (i: nat)
    ensures Own(items, key).Some? ==> i < |items| && items[i] == Own(items, key).value && items[i].key == key
                                      && forall j | 0 <= j < i :: items[j].key != key
    ensures Own(items, key).None? ==> forall j | 0 <= j < |items| :: items[j].key != key
    decreases |items|
  {
    i := 0;
    if items != [] && items[0].key != key {
      var r := OwnIs(items[1..], key);
      i := r + 1;
      assert forall j | 0 <= j < |items| - 1 :: items[1..][j] == items[j + 1];
    }
  }

  /** A lookup finds the first definition with the key in the nearest set that has one, and none if no set has one. */
  lemma {:induction false} NearestIs(m: SetDefs, chain: seq<Key>, key: Key) returns (i: nat, j: nat)
    requires InAll(m, chain)
    ensures var r := Nearest(m, chain, key);
      r.Some? ==>
        && i < |chain| && j < |m[chain[i]].itemDefs| && m[chain[i]].itemDefs[j] == r.value && r.value.key == key
        && (forall b | 0 <= b < j :: m[chain[i]].itemDefs[b].key != key)
        && forall a, b | 0 <= a < i && 0 <= b < |m[chain[a]].itemDefs| :: m[chain[a]].itemDefs[b].key != key
    ensures Nearest(m, chain, key).None? ==>
              forall a, b | 0 <= a < |chain| && 0 <= b < |m[chain[a]].itemDefs| :: m[chain[a]].itemDefs[b].key != key
    decreases |chain|
  {
    i, j := 0, 0;
    if chain != [] {
      assert forall k | 0 <= k < |chain[1..]| :: chain[1..][k] == chain[k + 1];
      j := OwnIs(m[chain[0]].itemDefs, key);
      if Own(m[chain[0]].itemDefs, key).None? {
        var r: nat;
        r, j := NearestIs(m, chain[1..], key);
        i := r + 1;
        forall a, b | 0 <= a < |chain| && 0 <= b < |m[chain[a]].itemDefs| && (a < i || Nearest(m, chain[1..], key).None?)
          ensures m[chain[a]].itemDefs[b].key != key
        {
          if a > 0 {
            assert m[chain[1..][a - 1]].itemDefs[b].key != key;
          }
        }
      }
    }
  }

  /** For a set and all sets above it, lookups find the same whether they start from below or from above. */
  ghost predicate LookupsAgree(m: SetDefs, chain: seq<Key>)
    requires InAll(m, chain)
  {
    chain != [] ==>
      (assert forall i | 0 <= i < |chain[1..]| :: chain[1..][i] == chain[i + 1];
       (forall k: Key :: Nearest(m, chain, k) == Farthest(m, chain, k)) && LookupsAgree(m, chain[1..]))
  }

  /** That is so if and only if nothing is redefined. */
  lemma {:induction false} AgreeExactly(m: SetDefs, chain: seq<Key>)
    requires InAll(m, chain)
    ensures LookupsAgree(m, chain) <==> NoRedefinition(m, chain)
    decreases |chain|
  {
    if chain != [] {
      var rest, items := chain[1..], m[chain[0]].itemDefs;
      assert forall i | 0 <= i < |rest| :: rest[i] == chain[i + 1];
      AgreeExactly(m, rest);
      if NoRedefinition(m, chain) {
        forall k: Key
          ensures Nearest(m, chain, k) == Farthest(m, chain, k)
        {
          FarthestSome(m, rest, k);
          NearestHere(m, rest, k);
          OwnHasKey(items, k);
        }
      }
      if LookupsAgree(m, chain) {
        forall i | 0 <= i < |items| && Nearest(m, rest, items[i].key).Some?
          ensures Own(items, items[i].key) == Nearest(m, rest, items[i].key)
        {
          FarthestSome(m, rest, items[i].key);
          NearestHere(m, rest, items[i].key);
          NearestHere(m, chain, items[i].key);
          OwnHasKey(items, items[i].key);
        }
      }
    }
  }

  lemma NearestHere(m: SetDefs, chain: seq<Key>, k: Key)
    requires InAll(m, chain)
    ensures LookupsAgree(m, chain) ==> Nearest(m, chain, k) == Farthest(m, chain, k)
  {
  }

  lemma {:induction false} FarthestSome(m: SetDefs, chain: seq<Key>, k: Key)
    requires InAll(m, chain)
    ensures Nearest(m, chain, k).Some? <==> Farthest(m, chain, k).Some?
    decreases |chain|
  {
    if chain != [] {
      assert forall i | 0 <= i < |chain[1..]| :: chain[1..][i] == chain[i + 1];
      FarthestSome(m, chain[1..], k);
    }
  }

  function OrElse<T>(a: Option<T>, b: Option<T>): Option<T>
  {
    if a.Some? then a else b
  }

  /** Every set definition has its chain of parents. */
  ghost predicate Rooted(m: SetDefs, chains: map<Key, seq<Key>>)
  {
    forall k | k in m :: k in chains && Chain(m, k, chains[k]) && InAll(m, chains[k])
  }

  /** What a lookup has to find after a set definition with the chain `chain` has been cloned into `to`: what it found
      there before from the first definition of the chain that was there, and behind that the definitions of the
      chain from there down. */
  function LookupAfter(from: SetDefs, to: SetDefs, chains: map<Key, seq<Key>>, chain: seq<Key>, key: Key): Option<ItemDef>
    requires InAll(from, chain) && forall k | k in to :: k in chains && InAll(to, chains[k])
    decreases |chain|
  {
    if chain == [] then None
    else
      assert forall i | 0 <= i < |chain[1..]| :: chain[1..][i] == chain[i + 1];
      OrElse(if chain[0] in to then Nearest(to, chains[chain[0]], key) else LookupAfter(from, to, chains, chain[1..], key),
             Own(from[chain[0]].itemDefs, key))
  }

  /** The chain of the clone: the source's down from the first definition that was there, and that one's above it. */
  function ChainAfter(to: SetDefs, chains: map<Key, seq<Key>>, chain: seq<Key>): seq<Key>
    requires forall k | k in to :: k in chains
    decreases |chain|
  {
    if chain == [] then []
    else if chain[0] in to then chains[chain[0]]
    else [chain[0]] + ChainAfter(to, chains, chain[1..])
  }

  /** Where nothing of the chain was there, the clone has the same chain and lookups find the farthest definition. */
  lemma {:induction false} NothingThere(from: SetDefs, to: SetDefs, chains: map<Key, seq<Key>>, chain: seq<Key>, key: Key)
    requires InAll(from, chain) && forall k | k in to :: k in chains && InAll(to, chains[k])
    requires forall i | 0 <= i < |chain| :: chain[i] !in to
    ensures LookupAfter(from, to, chains, chain, key) == Farthest(from, chain, key)
    ensures ChainAfter(to, chains, chain) == chain
    decreases |chain|
  {
    if chain != [] {
      assert forall i | 0 <= i < |chain[1..]| :: chain[1..][i] == chain[i + 1];
      NothingThere(from, to, chains, chain[1..], key);
    }
  }

  /** Whether a set is or descends from another, as the code asks along the parents. */
  function IsSubclass(m: SetDefs, chain: seq<Key>, ancestor: Key): bool
    requires InAll(m, chain) && chain != []
    decreases |chain|
  {
    var d := m[chain[0]];
    d.key == ancestor
    || (d.parentSetDef.Some? && d.key != d.parentSetDefKey && |chain| > 1
        && (assert forall i | 0 <= i < |chain[1..]| :: chain[1..][i] == chain[i + 1]; IsSubclass(m, chain[1..], ancestor)))
  }

  /** The linked parents are the ones whose keys were registered. */
  predicate ParentsNamed(m: SetDefs, chain: seq<Key>)
  {
    forall i | 0 <= i < |chain| && chain[i] in m && m[chain[i]].parentSetDef.Some? ::
      m[chain[i]].parentSetDef.value == m[chain[i]].parentSetDefKey
  }

  const NULL_KEY: Key := Zeros(16)

  /** The item definitions of one set, in the order of their registration. */
  function ItemsOf(items: seq<ItemDef>, s: Key): seq<ItemDef>
  {
    if items == [] then []
    else ItemsOf(items[..|items| - 1], s) + if items[|items| - 1].setDefKey == s then [items[|items| - 1]] else []
  }

  lemma {:induction false} ItemsOfInOrder(items: seq<ItemDef>, s: Key) returns (idx: seq<nat>)
    ensures Picks(items, idx, ItemsOf(items, s))
    ensures forall i | 0 <= i < |items| :: i in idx <==> items[i].setDefKey == s
    decreases |items|
  {
    if items == [] {
      idx := [];
      NothingPicked(items);
    } else {
      var n := |items| - 1;
      idx := ItemsOfInOrder(items[..n], s);
      NextPick(items, n, idx, ItemsOf(items[..n], s));
      assert items[..n + 1] == items;
      if items[n].setDefKey == s {
        idx := idx + [n];
      }
    }
  }

  /** r are those of the items that name the set s, in their order. */
  ghost predicate NamedBy(items: seq<ItemDef>, s: Key, r: seq<ItemDef>)
  {
    exists idx: seq<nat> :: Picks(items, idx, r) && forall i | 0 <= i < |items| :: i in idx <==> items[i].setDefKey == s
  }

  lemma EachNames(items: seq<ItemDef>)
    ensures forall s: Key :: NamedBy(items, s, ItemsOf(items, s))
  {
    forall s: Key
      ensures NamedBy(items, s, ItemsOf(items, s))
    {
      var idx := ItemsOfInOrder(items, s);
    }
  }

  /** Two item definitions can stand beside each other: one key has one local tag, and a fixed tag has one key. */
  predicate Compatible(a: ItemDef, b: ItemDef)
  {
    if a.key == b.key then a.localTag == b.localTag else a.localTag == 0 || a.localTag != b.localTag
  }

  lemma OneTagEach(items: seq<ItemDef>)
    ensures (forall i, j | 0 <= i < j < |items| :: Compatible(items[i], items[j]))
            <==> forall i, j | 0 <= i < |items| && 0 <= j < |items| ::
                   && (items[i].key == items[j].key ==> items[i].localTag == items[j].localTag)
                   && (items[i].localTag == items[j].localTag != 0 ==> items[i].key == items[j].key)
  {
    if forall i, j | 0 <= i < j < |items| :: Compatible(items[i], items[j]) {
      forall i, j | 0 <= i < |items| && 0 <= j < |items|
        ensures items[i].key == items[j].key ==> items[i].localTag == items[j].localTag
        ensures items[i].localTag == items[j].localTag != 0 ==> items[i].key == items[j].key
      {
        assert i < j ==> Compatible(items[i], items[j]);
        assert j < i ==> Compatible(items[j], items[i]);
      }
    }
  }

  /* ---- Item types ---- */

  /** A type by the ids of the types it is made of. */
  datatype ItemType = Basic(size: nat)
                    | ArrayOf(elementTypeId: nat, fixedSize: nat)
                    | Compound(members: seq<nat>)
                    | Interpret(typeId: nat, fixedArraySize: nat)

  type Types = map<nat, ItemType>

  function MadeOf(t: ItemType): seq<nat>
  {
    match t
    case Basic(_) => []
    case ArrayOf(e, _) => [e]
    case Compound(m) => m
    case Interpret(i, _) => [i]
  }

  /** Types are made of types of lower rank. */
  predicate TypesAcyclic(t: Types, rank: map<nat, nat>)
  {
    && (forall id | id in t :: id in rank)
    && forall id, i | id in t && 0 <= i < |MadeOf(t[id])| && MadeOf(t[id])[i] in t :: rank[MadeOf(t[id])[i]] < rank[id]
  }

  /** Whatever types are made of is there. */
  predicate TypesClosed(t: Types)
  {
    forall id, i | id in t && 0 <= i < |MadeOf(t[id])| :: MadeOf(t[id])[i] in t
  }

  /** `now` has what `was` had, and what else it has is as in `from` and made of types that `now` has. */
  predicate TypesCloned(from: Types, was: Types, now: Types)
  {
    && (forall id | id in was :: id in now && now[id] == was[id])
    && (forall id | id in now && id !in was :: id in from && now[id] == from[id])
    && (forall id, i | id in now && id !in was && 0 <= i < |MadeOf(now[id])| :: MadeOf(now[id])[i] in now)
  }

  /** Every new type is the source's, and the types its fields name are there. */
  lemma PartsThere(from: Types, was: Types, now: Types)
    requires TypesCloned(from, was, now)
    ensures forall id | id in now && id !in was ::
              && id in from && now[id] == from[id]
              && (now[id].ArrayOf? ==> now[id].elementTypeId in now)
              && (now[id].Interpret? ==> now[id].typeId in now)
              && (now[id].Compound? ==> forall i | 0 <= i < |now[id].members| :: now[id].members[i] in now)
  {
    forall id | id in now && id !in was
      ensures now[id].ArrayOf? ==> now[id].elementTypeId in now
      ensures now[id].Interpret? ==> now[id].typeId in now
      ensures now[id].Compound? ==> forall i | 0 <= i < |now[id].members| :: now[id].members[i] in now
    {
      assert forall i | 0 <= i < |MadeOf(now[id])| :: MadeOf(now[id])[i] in now;
      if now[id].ArrayOf? {
        assert MadeOf(now[id])[0] == now[id].elementTypeId;
      } else if now[id].Interpret? {
        assert MadeOf(now[id])[0] == now[id].typeId;
      } else if now[id].Compound? {
        assert MadeOf(now[id]) == now[id].members;
      }
    }
  }

  lemma TypesClonedJoin(from: Types, a: Types, b: Types, c: Types)
    requires TypesCloned(from, a, b) && TypesCloned(from, b, c)
    ensures TypesCloned(from, a, c)
  {
    forall id, i | id in c && id !in a && 0 <= i < |MadeOf(c[id])|
      ensures MadeOf(c[id])[i] in c
    {
      if id in b {
        assert MadeOf(b[id])[i] in b;
      }
    }
  }
}

module DataModel {
  import opened Bytes
  import opened Wrappers
  import opened MetadataModel
  import opened Definitions

  class Model {
    var setDefs: SetDefs
    var itemDefs: seq<ItemDef>
    var types: Types
    /** The parents of each set definition, from itself to the last one. */
    ghost var chains: map<Key, seq<Key>>

    constructor ()
      ensures setDefs == map[] && itemDefs == [] && types == map[] && Rooted(setDefs, chains)
    {
      setDefs, itemDefs, types, chains := map[], [], map[], map[];
    }

    /** Looks an item up in a set definition and its parents. */
    method FindItemDefInSetDef(key: Key, s: Key, ghost chain: seq<Key>) returns (r: Option<ItemDef>)
      requires Chain(setDefs, s, chain) && InAll(setDefs, chain)
      ensures r == Nearest(setDefs, chain, key)
      // the first one with the key in the nearest set that has one
      ensures r.Some? ==> exists i, j | 0 <= i < |chain| && 0 <= j < |setDefs[chain[i]].itemDefs| ::
                && setDefs[chain[i]].itemDefs[j] == r.value && r.value.key == key
                && (forall b | 0 <= b < j :: setDefs[chain[i]].itemDefs[b].key != key)
                && forall a, b | 0 <= a < i && 0 <= b < |setDefs[chain[a]].itemDefs| :: setDefs[chain[a]].itemDefs[b].key != key
      ensures r.None? ==> forall a, b | 0 <= a < |chain| && 0 <= b < |setDefs[chain[a]].itemDefs| ::
                setDefs[chain[a]].itemDefs[b].key != key
      decreases |chain|
    {
      ghost var i, j := NearestIs(setDefs, chain, key);
      r := FindOwn(setDefs[s].itemDefs, key);
      if r.None? && setDefs[s].parentSetDef.Some? {
        Above(setDefs, s, chain);
        r := FindItemDefInSetDef(key, setDefs[s].parentSetDef.value, chain[1..]);
      }
    }

    static method FindOwn(items: seq<ItemDef>, key: Key) returns (r: Option<ItemDef>)
      ensures r == Own(items, key)
      ensures r.Some? ==> exists i | 0 <= i < |items| :: items[i] == r.value && r.value.key == key
                                                         && forall j | 0 <= j < i :: items[j].key != key
      ensures r.None? ==> forall j | 0 <= j < |items| :: items[j].key != key
    {
      ghost var first := OwnIs(items, key);
      var i := 0;
      assert items[0..] == items;
      while i < |items|
        invariant 0 <= i <= |items| && Own(items, key) == Own(items[i..], key)
      {
        assert items[i..][1..] == items[i + 1..];
        if items[i].key == key {
          return Some(items[i]);
        }
        i := i + 1;
      }
      return None;
    }

    /** Whether a set is another or descends from it. */
    method IsSubclassOf(s: Key, ancestor: Key, ghost chain: seq<Key>) returns (r: bool)
      requires Chain(setDefs, s, chain) && InAll(setDefs, chain)
      ensures r == IsSubclass(setDefs, chain, ancestor)
      ensures ParentsNamed(setDefs, chain) ==> (r <==> ancestor in chain)
      decreases |chain|
    {
      hide ParentsNamed;
      SubclassIsAncestor(setDefs, s, chain, ancestor);
      var d := setDefs[s];
      if d.key == ancestor {
        return true;
      }
      if d.parentSetDef.None? || d.key == d.parentSetDefKey {
        return false;
      }
      Above(setDefs, s, chain);
      r := IsSubclassOf(d.parentSetDef.value, ancestor, chain[1..]);
    }

    /** The same for the key of a set that need not be defined. */
    method IsSubclassOfKey(s: Key, ancestor: Key) returns (r: bool)
      requires Rooted(setDefs, chains)
      ensures s !in setDefs ==> r == (s == ancestor)
      ensures s in setDefs && ParentsNamed(setDefs, chains[s]) ==> (r <==> ancestor in chains[s])
    {
      hide Chain, InAll, ParentsNamed;
      RootedAt(setDefs, chains);
      if s in setDefs {
        ChainHead(setDefs, s, chains[s]);
      }
      if s == ancestor {
        return true;
      }
      if s !in setDefs {
        return false;
      }
      r := IsSubclassOf(s, ancestor, chains[s]);
    }

    /** Clones an item type and all types it is made of that this model does not have yet. */
    method CloneItemType(from: Types, id: nat, ghost rank: map<nat, nat>) returns (ok: bool)
      requires TypesAcyclic(from, rank)
      modifies `types
      ensures forall t | t in old(types) :: t in types && types[t] == old(types)[t]
      ensures forall t | t in types && t !in old(types) :: t in rank && id in rank && rank[t] <= rank[id]
      ensures ok ==> TypesCloned(from, old(types), types) && id in types
      ensures ok ==> forall t | t in types && t !in old(types) ::
                && t in from && types[t] == from[t]
                && (types[t].ArrayOf? ==> types[t].elementTypeId in types)
                && (types[t].Interpret? ==> types[t].typeId in types)
                && (types[t].Compound? ==> forall i | 0 <= i < |types[t].members| :: types[t].members[i] in types)
      ensures TypesClosed(from) && id in from ==> ok
      ensures id !in from ==> types == old(types)
      decreases if id in from then rank[id] + 1 else 0, 2
    {
      ok := AddItemType(from, id, rank);
      if ok {
        PartsThere(from, old(types), types);
      }
    }

    /** Adds the type after the types it is made of. */
    method AddItemType(from: Types, id: nat, ghost rank: map<nat, nat>) returns (ok: bool)
      requires TypesAcyclic(from, rank)
      modifies `types
      ensures forall t | t in old(types) :: t in types && types[t] == old(types)[t]
      ensures forall t | t in types && t !in old(types) :: t in rank && id in rank && rank[t] <= rank[id]
      ensures ok ==> TypesCloned(from, old(types), types) && id in types
      ensures TypesClosed(from) && id in from ==> ok
      ensures id !in from ==> types == old(types)
      decreases if id in from then rank[id] + 1 else 0, 1
    {
      if id in types {
        return true;
      }
      if id !in from {
        return false;
      }
      match from[id] {
        case Basic(size) =>
          types := types[id := Basic(size)];
          return true;
        case ArrayOf(elementTypeId, fixedSize) =>
          assert MadeOf(from[id])[0] == elementTypeId;
          ok := CloneItemType(from, elementTypeId, rank);
          if ok {
            ok := RegisterType(from, rank, old(types), id);
          }
        case Interpret(typeId, fixedArraySize) =>
          assert MadeOf(from[id])[0] == typeId;
          ok := CloneItemType(from, typeId, rank);
          if ok {
            ok := RegisterType(from, rank, old(types), id);
          }
        case Compound(members) =>
          ok := CloneCompoundType(from, id, rank);
      }
    }

    /** Registers a type under its id, which must be free. */
    method RegisterType(from: Types, ghost rank: map<nat, nat>, ghost was: Types, id: nat) returns (ok: bool)
      requires id in from && id in rank && id !in was && TypesCloned(from, was, types)
      requires forall t | t in types && t !in was :: t in rank && rank[t] < rank[id]
      requires forall i | 0 <= i < |MadeOf(from[id])| :: MadeOf(from[id])[i] in types
      modifies `types
      ensures ok && TypesCloned(from, was, types) && types == old(types)[id := from[id]]
    {
      if id in types {
        return false;
      }
      OneMoreType(from, was, types, id);
      types := types[id := from[id]];
      return true;
    }

    /** A compound type is registered without members first; they are added as their types are cloned. */
    method CloneCompoundType(from: Types, id: nat, ghost rank: map<nat, nat>) returns (ok: bool)
      requires TypesAcyclic(from, rank) && id in from && from[id].Compound? && id !in types
      modifies `types
      ensures forall t | t in old(types) :: t in types && types[t] == old(types)[t]
      ensures forall t | t in types && t !in old(types) :: t in rank && rank[t] <= rank[id]
      ensures ok ==> TypesCloned(from, old(types), types) && id in types
      ensures TypesClosed(from) ==> ok
      decreases rank[id] + 1, 0
    {
      hide TypesCloned;
      var members := from[id].members;
      types := types[id := Compound([])];
      ghost var was := old(types);
      NothingCloned(from, was);
      assert types - {id} == was;
      var i := 0;
      while i < |members|
        invariant 0 <= i <= |members| && id in types && types[id] == Compound(members[..i])
        invariant forall t | t in was :: t in types && types[t] == was[t]
        invariant forall t | t in types && t !in was :: t in rank && rank[t] <= rank[id]
        invariant TypesCloned(from, was, types - {id})
        invariant forall j | 0 <= j < i :: members[j] in types && members[j] != id
      {
        assert MadeOf(from[id])[i] == members[i];
        ghost var before := types;
        ok := CloneItemType(from, members[i], rank);
        if !ok {
          return;
        }
        MemberCloned(from, rank, was, before, types, id, members[i]);
        ghost var mid := types;
        types := types[id := Compound(types[id].members + [members[i]])];
        assert types - {id} == mid - {id};
        assert members[..i] + [members[i]] == members[..i + 1];
        i := i + 1;
      }
      assert members[..i] == members;
      ghost var mid := types - {id};
      OneMoreType(from, was, mid, id);
      assert mid[id := from[id]] == types;
      return true;
    }

    /** Clones a set definition.  If this model does not have it, it is registered under its parent, which is cloned
        first; then the items that a lookup does not find are added, with their types. */
    method CloneSetDef(from: SetDefs, fromTypes: Types, s: Key, ghost chain: seq<Key>, ghost rank: map<nat, nat>) returns (ok: bool)
      requires Chain(from, s, chain) && InAll(from, chain) && TypesAcyclic(fromTypes, rank) && Rooted(setDefs, chains)
      modifies this
      ensures Rooted(setDefs, chains)
      // definitions that were there keep their place and their items, and the new ones are of the chain, with the same parents
      ensures old(itemDefs) <= itemDefs
      ensures forall k | k in old(setDefs) ::
                && k in setDefs && k in chains && chains[k] == old(chains)[k] && setDefs[k].key == old(setDefs)[k].key
                && setDefs[k].parentSetDefKey == old(setDefs)[k].parentSetDefKey
                && setDefs[k].parentSetDef == old(setDefs)[k].parentSetDef && old(setDefs)[k].itemDefs <= setDefs[k].itemDefs
      ensures forall k | k in setDefs && k !in old(setDefs) ::
                && k in chain && k in from && setDefs[k].key == k
                && setDefs[k].parentSetDefKey == from[k].parentSetDefKey && setDefs[k].parentSetDef == from[k].parentSetDef
      // each new item is one of the source's for the set, and neither an item before it nor a set above has its key
      ensures forall k, b | k in setDefs && 0 <= b < |setDefs[k].itemDefs| && (k in old(setDefs) ==> |old(setDefs)[k].itemDefs| <= b) ::
                && setDefs[k].itemDefs[b] in (if k in from then from[k].itemDefs else [])
                && (forall c | 0 <= c < b :: setDefs[k].itemDefs[c].key != setDefs[k].itemDefs[b].key)
                && forall a, c | 1 <= a < |chains[k]| && chains[k][a] in setDefs && 0 <= c < |setDefs[chains[k][a]].itemDefs| ::
                     setDefs[chains[k][a]].itemDefs[c].key != setDefs[k].itemDefs[b].key
      // every item of the source's sets down from the first that was there is found
      ensures ok ==> s in setDefs && forall i, j | 0 <= i < |chain| && (forall h | 0 <= h < i :: chain[h] !in old(setDefs))
                                                  && 0 <= j < |from[chain[i]].itemDefs| ::
                Nearest(setDefs, chains[s], from[chain[i]].itemDefs[j].key).Some?
      // chain and lookups of the clone
      ensures KeepsDefs(old(setDefs), old(chains), setDefs, chains) && AddsOnly(from, old(setDefs), setDefs, chain)
      ensures ok ==> s in setDefs && chains[s] == ChainAfter(old(setDefs), old(chains), chain)
      ensures ok ==> forall k: Key :: Nearest(setDefs, chains[s], k) == LookupAfter(from, old(setDefs), old(chains), chain, k)
      // types
      ensures ok ==> TypesCloned(fromTypes, old(types), types)
      ensures ok && AllKnown(old(setDefs), old(types)) ==> AllKnown(setDefs, types)
      ensures ok ==> forall t | t in types && t !in old(types) ::
                && t in fromTypes && types[t] == fromTypes[t]
                && (types[t].ArrayOf? ==> types[t].elementTypeId in types)
                && (types[t].Interpret? ==> types[t].typeId in types)
                && (types[t].Compound? ==> forall i | 0 <= i < |types[t].members| :: types[t].members[i] in types)
      ensures TypesClosed(fromTypes) && TypesKnown(from, chain, fromTypes) ==> ok
    {
      hide Chain, Nearest, TypesCloned, TypesAcyclic, TypesClosed, TypesKnown, AllKnown, LookupAfter, ChainAfter;
      ghost var was, wasChains := setDefs, chains;
      ok := AddSetDef(from, fromTypes, s, chain, rank);
      assert forall k | k in setDefs :: AddedTo(if k in from then from[k].itemDefs else [],
                                                if k in was then was[k].itemDefs else [], setDefs, chains[k], k);
      if ok {
        PartsThere(fromTypes, old(types), types);
        ItemsFound(from, was, wasChains, chain);
      }
    }

    /** Adds a set definition and its parents as far as they are not there, and then the items that are not found. */
    method AddSetDef(from: SetDefs, fromTypes: Types, s: Key, ghost chain: seq<Key>, ghost rank: map<nat, nat>) returns (ok: bool)
      requires Chain(from, s, chain) && InAll(from, chain) && TypesAcyclic(fromTypes, rank) && Rooted(setDefs, chains)
      modifies this
      ensures Rooted(setDefs, chains)
      // definitions that were there keep their place and their items, and the new ones are of the chain
      ensures KeepsDefs(old(setDefs), old(chains), setDefs, chains) && AddsOnly(from, old(setDefs), setDefs, chain)
      ensures old(itemDefs) <= itemDefs && Added(from, old(setDefs), setDefs, chains)
      // chain and lookups of the clone
      ensures ok ==> s in setDefs && chains[s] == ChainAfter(old(setDefs), old(chains), chain)
      ensures ok ==> forall k: Key :: Nearest(setDefs, chains[s], k) == LookupAfter(from, old(setDefs), old(chains), chain, k)
      // types
      ensures ok ==> TypesCloned(fromTypes, old(types), types)
      ensures ok && AllKnown(old(setDefs), old(types)) ==> AllKnown(setDefs, types)
      ensures TypesClosed(fromTypes) && TypesKnown(from, chain, fromTypes) ==> ok
      decreases |chain|
    {
      hide Chain, InAll, TypesCloned, Nearest, TypesAcyclic, TypesClosed, TypesKnown, AllKnown, Rooted, LookupAfter, KeepsDefs, AddsOnly, Added, AddedTo;
      ghost var was, wasChains := setDefs, chains;
      ChainHead(from, s, chain);
      NotOwnAncestor(from, s, chain);
      NothingCloned(fromTypes, types);
      RootedAt(setDefs, chains);
      KeepsAll(from, setDefs, chains, chain);
      NothingAdded(from, setDefs, chains);
      if s !in setDefs {
        KeepsAll(from, setDefs, chains, chain[1..]);
        if from[s].parentSetDef.Some? {
          Above(from, s, chain);
          KnownAbove(from, chain, fromTypes);
          ok := AddSetDef(from, fromTypes, from[s].parentSetDef.value, chain[1..], rank);
          if !ok {
            LongerChain(from, was, setDefs, chain);
            return;
          }
        }
        RootedAt(setDefs, chains);
        SetRegistered(from, was, wasChains, setDefs, chains, s, chain, types);
        AddedBelow(from, was, setDefs, chains, s, if from[s].parentSetDef.Some? then chains[chain[1]] else []);
        chains := chains[s := [s] + if from[s].parentSetDef.Some? then chains[chain[1]] else []];
        setDefs := setDefs[s := SetDef(s, from[s].parentSetDefKey, from[s].parentSetDef, [])];
      }
      ghost var mid, t := setDefs, types;
      RootedAt(mid, chains);
      TypesOfSet(from, chain, fromTypes, s);
      ok := CloneItemDefs(from[s].itemDefs, fromTypes, s, chains[s], rank);
      StillRooted(mid, setDefs, chains);
      AddedOn(from, was, mid, setDefs, chains, s);
      MoreItemsKeep(from, was, wasChains, mid, setDefs, chains, chain);
      if ok {
        TypesClonedJoin(fromTypes, old(types), t, types);
        LookupStep(from, was, wasChains, chain);
      }
    }

    /** Adds the items that a lookup in the set definition does not find. */
    method CloneItemDefs(items: seq<ItemDef>, fromTypes: Types, s: Key, ghost chain: seq<Key>, ghost rank: map<nat, nat>)
        returns (ok: bool)
      requires s in setDefs && Chain(setDefs, s, chain) && InAll(setDefs, chain) && TypesAcyclic(fromTypes, rank)
      modifies `setDefs, `itemDefs, `types
      ensures setDefs.Keys == old(setDefs).Keys
      ensures forall k | k in setDefs :: MoreItems(old(setDefs)[k], setDefs[k]) && (k != s ==> setDefs[k] == old(setDefs)[k])
      ensures old(itemDefs) <= itemDefs
      ensures AddedTo(items, old(setDefs)[s].itemDefs, setDefs, chain, s)
      ensures ok ==> InAll(setDefs, chain) && forall k: Key ::
                Nearest(setDefs, chain, k) == OrElse(Nearest(old(setDefs), chain, k), Own(items, k))
      ensures ok ==> TypesCloned(fromTypes, old(types), types)
      ensures ok && AllKnown(old(setDefs), old(types)) ==> AllKnown(setDefs, types)
      ensures TypesClosed(fromTypes) && (forall i | 0 <= i < |items| :: items[i].typeId in fromTypes) ==> ok
    {
      hide TypesCloned, TypesAcyclic, TypesClosed, AllKnown, Chain, InAll, Nearest, Own, AddedTo;
      ghost var m := setDefs;
      NoneAdded(items, setDefs, chain, s);
      NothingCloned(fromTypes, types);
      NoItemsYet(items);
      var i := 0;
      while i < |items|
        invariant 0 <= i <= |items| && setDefs.Keys == m.Keys
        invariant Chain(setDefs, s, chain) && InAll(setDefs, chain)
        invariant forall k | k in setDefs :: MoreItems(m[k], setDefs[k]) && (k != s ==> setDefs[k] == m[k])
        invariant old(itemDefs) <= itemDefs && AddedTo(items, m[s].itemDefs, setDefs, chain, s)
        invariant forall k: Key :: Nearest(setDefs, chain, k) == OrElse(Nearest(m, chain, k), Own(items[..i], k))
        invariant TypesCloned(fromTypes, old(types), types)
        invariant AllKnown(m, old(types)) ==> AllKnown(setDefs, types)
      {
        var d := items[i];
        var found := FindItemDefInSetDef(d.key, s, chain);
        NextItem(m, setDefs, s, chain, items, i);
        if found.None? {
          ghost var t := types;
          ok := CloneItemType(fromTypes, d.typeId, rank);
          if !ok {
            return;
          }
          TypesClonedJoin(fromTypes, old(types), t, types);
          KnownMore(setDefs, t, types, s, d);
          OneMoreAdded(items, m[s].itemDefs, setDefs, chain, s, d);
          itemDefs := itemDefs + [d];
          setDefs := setDefs[s := setDefs[s].(itemDefs := setDefs[s].itemDefs + [d])];
        }
        i := i + 1;
      }
      assert items[..i] == items;
      return true;
    }

    /** Links set definitions to their parents and gives them their items.  It succeeds exactly if all parents and
        all sets that items belong to are registered.  If parents have lower ranks then every set has its chain of
        parents, as looking up and cloning need. */
    method Finalise(ghost rank: map<Key, nat>) returns (ok: bool)
      requires forall k | k in setDefs :: setDefs[k].key == k
      modifies `setDefs, `chains
      ensures ok && ParentsRanked(old(setDefs), rank) ==>
                Rooted(setDefs, chains) && forall k | k in setDefs :: ParentsNamed(setDefs, chains[k])
      ensures setDefs.Keys == old(setDefs).Keys
      ensures ok == ((forall k | k in old(setDefs) ::
                        old(setDefs)[k].parentSetDefKey == NULL_KEY || old(setDefs)[k].parentSetDefKey in old(setDefs))
                     && forall i | 0 <= i < |itemDefs| :: itemDefs[i].setDefKey in old(setDefs))
      ensures ok ==> forall k | k in setDefs ::
                setDefs[k] == Linked(old(setDefs)[k]).(itemDefs := ItemsOf(itemDefs, k))
      // a set's parent is the one it names, and its items are, in order, those that name the set
      ensures ok ==> forall k | k in setDefs ::
                && setDefs[k].key == k && setDefs[k].parentSetDefKey == old(setDefs)[k].parentSetDefKey
                && setDefs[k].parentSetDef == (if setDefs[k].parentSetDefKey == NULL_KEY then None else Some(setDefs[k].parentSetDefKey))
      ensures ok ==> forall k | k in setDefs :: NamedBy(itemDefs, k, setDefs[k].itemDefs)
    {
      hide Rooted, ParentsRanked, ParentsNamed, ItemsOf, NamedBy;
      ghost var m := setDefs;
      ok := LinkParents();
      if ok {
        ok := AttachItems();
      }
      if ok && ParentsRanked(m, rank) {
        LinkedIsRooted(m, setDefs, rank);
        chains := ChainsOf(setDefs, rank);
      }
      EachNames(itemDefs);
    }

    /** Gives each set definition its items. */
    method AttachItems() returns (ok: bool)
      requires forall k | k in setDefs :: setDefs[k].itemDefs == []
      modifies `setDefs
      ensures setDefs.Keys == old(setDefs).Keys
      ensures ok == forall i | 0 <= i < |itemDefs| :: itemDefs[i].setDefKey in old(setDefs)
      ensures ok ==> forall k | k in setDefs :: setDefs[k] == old(setDefs)[k].(itemDefs := ItemsOf(itemDefs, k))
    {
      hide ItemsOf;
      NoneOf();
      assert itemDefs[..0] == [];
      var i := 0;
      while i < |itemDefs|
        invariant 0 <= i <= |itemDefs| && setDefs.Keys == old(setDefs).Keys
        invariant forall j | 0 <= j < i :: itemDefs[j].setDefKey in setDefs
        invariant forall k | k in setDefs :: setDefs[k] == old(setDefs)[k].(itemDefs := ItemsOf(itemDefs[..i], k))
      {
        var k := itemDefs[i].setDefKey;
        if k !in setDefs {
          return false;
        }
        NextOf(itemDefs, i);
        setDefs := setDefs[k := setDefs[k].(itemDefs := setDefs[k].itemDefs + [itemDefs[i]])];
        i := i + 1;
      }
      assert itemDefs[..i] == itemDefs;
      return true;
    }

    /** Empties all set definitions and links them to their parents. */
    method LinkParents() returns (ok: bool)
      modifies `setDefs
      ensures setDefs.Keys == old(setDefs).Keys
      ensures ok == forall k | k in old(setDefs) ::
                old(setDefs)[k].parentSetDefKey == NULL_KEY || old(setDefs)[k].parentSetDefKey in old(setDefs)
      ensures ok ==> forall k | k in setDefs :: setDefs[k] == Linked(old(setDefs)[k])
    {
      var todo := setDefs.Keys;
      while todo != {}
        invariant setDefs.Keys == old(setDefs).Keys && todo <= setDefs.Keys
        invariant forall k | k in todo :: setDefs[k] == old(setDefs)[k]
        invariant forall k | k in setDefs && k !in todo ::
                    (old(setDefs)[k].parentSetDefKey == NULL_KEY || old(setDefs)[k].parentSetDefKey in old(setDefs))
                    && setDefs[k] == Linked(old(setDefs)[k])
        decreases |todo|
      {
        var k :| k in todo;
        var parent := setDefs[k].parentSetDefKey;
        if parent != NULL_KEY && parent !in setDefs {
          return false;
        }
        setDefs := setDefs[k := SetDef(setDefs[k].key, parent, if parent != NULL_KEY then Some(parent) else None, [])];
        todo := todo - {k};
      }
      return true;
    }

    /** Checks every two item definitions against each other, and that all their types are known. */
    method Check() returns (ok: bool)
      ensures ok == ((forall i, j | 0 <= i < j < |itemDefs| :: Compatible(itemDefs[i], itemDefs[j]))
                     && forall i | 0 <= i < |itemDefs| :: itemDefs[i].typeId in types)
      // then one key has one local tag, and a fixed tag has one key
      ensures ok == ((forall i, j | 0 <= i < |itemDefs| && 0 <= j < |itemDefs| ::
                        && (itemDefs[i].key == itemDefs[j].key ==> itemDefs[i].localTag == itemDefs[j].localTag)
                        && (itemDefs[i].localTag == itemDefs[j].localTag != 0 ==> itemDefs[i].key == itemDefs[j].key))
                     && forall i | 0 <= i < |itemDefs| :: itemDefs[i].typeId in types)
    {
      OneTagEach(itemDefs);
      var i := 0;
      while i < |itemDefs|
        invariant 0 <= i <= |itemDefs|
        invariant forall k, j | 0 <= k < i && k < j < |itemDefs| :: Compatible(itemDefs[k], itemDefs[j])
        invariant forall k | 0 <= k < i :: itemDefs[k].typeId in types
      {
        var j := i + 1;
        while j < |itemDefs|
          invariant i < j <= |itemDefs|
          invariant forall k | i < k < j :: Compatible(itemDefs[i], itemDefs[k])
        {
          if itemDefs[i].key == itemDefs[j].key {
            if itemDefs[i].localTag != itemDefs[j].localTag {
              return false;
            }
          } else if itemDefs[i].localTag != 0 && itemDefs[i].localTag == itemDefs[j].localTag {
            return false;
          }
          j := j + 1;
        }
        if itemDefs[i].typeId !in types {
          return false;
        }
        i := i + 1;
      }
      return true;
    }
  }

  lemma NoneOf()
    ensures forall k: Key :: ItemsOf([], k) == []
  {
  }

  lemma NextOf(items: seq<ItemDef>, i: nat)
    requires i < |items|
    ensures forall k: Key :: ItemsOf(items[..i + 1], k) == ItemsOf(items[..i], k) + if items[i].setDefKey == k then [items[i]] else []
  {
    assert items[..i + 1][..i] == items[..i];
  }

  /** A set definition linked to its parent, without items. */
  function Linked(d: SetDef): SetDef
  {
    SetDef(d.key, d.parentSetDefKey, if d.parentSetDefKey != NULL_KEY then Some(d.parentSetDefKey) else None, [])
  }

  /** Parents are ranked below their children, so nothing is its own ancestor. */
  predicate ParentsRanked(m: SetDefs, rank: map<Key, nat>)
  {
    forall k | k in m :: k in rank
      && (m[k].parentSetDefKey != NULL_KEY ==> m[k].parentSetDefKey in rank && rank[m[k].parentSetDefKey] < rank[k])
  }

  /** Set definitions linked to the parents they name. */
  predicate AllLinked(m: SetDefs)
  {
    forall k | k in m :: m[k].key == k
      && m[k].parentSetDef == (if m[k].parentSetDefKey != NULL_KEY then Some(m[k].parentSetDefKey) else None)
      && (m[k].parentSetDefKey != NULL_KEY ==> m[k].parentSetDefKey in m)
  }

  function ChainOf(m: SetDefs, k: Key, rank: map<Key, nat>): seq<Key>
    requires k in m && AllLinked(m) && ParentsRanked(m, rank)
    decreases rank[k]
  {
    [k] + if m[k].parentSetDef.Some? then ChainOf(m, m[k].parentSetDef.value, rank) else []
  }

  function ChainsOf(m: SetDefs, rank: map<Key, nat>): map<Key, seq<Key>>
    requires AllLinked(m) && ParentsRanked(m, rank)
  {
    map k | k in m :: ChainOf(m, k, rank)
  }

  lemma {:induction false} ChainOfIsChain(m: SetDefs, k: Key, rank: map<Key, nat>)
    requires k in m && AllLinked(m) && ParentsRanked(m, rank)
    ensures Chain(m, k, ChainOf(m, k, rank)) && InAll(m, ChainOf(m, k, rank))
    decreases rank[k]
  {
    if m[k].parentSetDef.Some? {
      var p := m[k].parentSetDef.value;
      ChainOfIsChain(m, p, rank);
      assert ChainOf(m, k, rank)[1..] == ChainOf(m, p, rank);
    }
  }

  lemma LinkedIsRooted(was: SetDefs, m: SetDefs, rank: map<Key, nat>)
    requires ParentsRanked(was, rank) && m.Keys == was.Keys
    requires forall k | k in was :: was[k].key == k && (was[k].parentSetDefKey == NULL_KEY || was[k].parentSetDefKey in was)
    requires forall k | k in m :: exists items :: m[k] == Linked(was[k]).(itemDefs := items)
    ensures AllLinked(m) && ParentsRanked(m, rank) && Rooted(m, ChainsOf(m, rank))
    ensures forall k | k in m :: ParentsNamed(m, ChainsOf(m, rank)[k])
  {
    hide Chain, InAll;
    assert AllLinked(m) && ParentsRanked(m, rank);
    forall k | k in m
      ensures Chain(m, k, ChainOf(m, k, rank)) && InAll(m, ChainOf(m, k, rank))
    {
      ChainOfIsChain(m, k, rank);
    }
  }

  /** Conversely, where every set has its chain of parents, parents can be ranked. */
  lemma RootedIsRanked(m: SetDefs, chains: map<Key, seq<Key>>)
    requires Rooted(m, chains) && AllLinked(m)
    ensures ParentsRanked(m, map k | k in m :: |chains[k]|)
  {
    forall k | k in m && m[k].parentSetDef.Some?
      ensures |chains[m[k].parentSetDef.value]| < |chains[k]|
    {
      Above(m, k, chains[k]);
      OneChain(m, chains[k][1], chains[k][1..], chains[chains[k][1]]);
    }
  }

  /** A definition that may have got more items, and nothing else. */
  predicate MoreItems(was: SetDef, now: SetDef)
  {
    now.key == was.key && now.parentSetDefKey == was.parentSetDefKey && now.parentSetDef == was.parentSetDef
    && was.itemDefs <= now.itemDefs
  }

  /** All items of the sets have types that are there. */
  predicate TypesKnown(m: SetDefs, chain: seq<Key>, t: Types)
  {
    forall i, j | 0 <= i < |chain| && chain[i] in m && 0 <= j < |m[chain[i]].itemDefs| :: m[chain[i]].itemDefs[j].typeId in t
  }

  /** All items of all sets have types that are there. */
  predicate AllKnown(m: SetDefs, t: Types)
  {
    forall k, j | k in m && 0 <= j < |m[k].itemDefs| :: m[k].itemDefs[j].typeId in t
  }

  /** What cloning a set definition into a model that has none of its parents leaves there. */
  ghost predicate ChainCloned(from: SetDefs, to: SetDefs, s: Key, chain: seq<Key>)
  {
    && InAll(from, chain) && InAll(to, chain) && Chain(to, s, chain)
    && (forall i | 0 <= i < |chain| :: to[chain[i]].parentSetDefKey == from[chain[i]].parentSetDefKey)
    && (forall k: Key :: Nearest(to, chain, k) == Farthest(from, chain, k))
  }

  /** Cloned into a model that has none of its parents, a set definition has the same chain, and lookups find the
      farthest definitions. */
  method CloneIntoNew(to: Model, from: SetDefs, fromTypes: Types, s: Key, ghost chain: seq<Key>, ghost rank: map<nat, nat>)
      returns (ok: bool)
    requires Chain(from, s, chain) && InAll(from, chain) && TypesAcyclic(fromTypes, rank) && Rooted(to.setDefs, to.chains)
    requires forall i | 0 <= i < |chain| :: chain[i] !in to.setDefs
    modifies to
    ensures ok ==> ChainCloned(from, to.setDefs, s, chain)
    ensures TypesClosed(fromTypes) && TypesKnown(from, chain, fromTypes) ==> ok
  {
    hide Chain, InAll, Nearest, Farthest, LookupAfter, TypesKnown, AllKnown, TypesCloned;
    ghost var was, chains := to.setDefs, to.chains;
    ok := to.CloneSetDef(from, fromTypes, s, chain, rank);
    RootedAt(was, chains);
    RootedAt(to.setDefs, to.chains);
    if ok {
      NothingThere(from, was, chains, chain, NULL_KEY);
      forall k: Key
        ensures Nearest(to.setDefs, chain, k) == Farthest(from, chain, k)
      {
        NothingThere(from, was, chains, chain, k);
      }
      AllOf(to.setDefs, chain);
    }
  }

  lemma AllOf(m: SetDefs, chain: seq<Key>)
    requires InAll(m, chain)
    ensures forall i | 0 <= i < |chain| :: chain[i] in m
  {
  }

  /** Lookups in the clone find what they find in the source, if the source redefines nothing. */
  lemma SameLookups(from: SetDefs, to: SetDefs, s: Key, chain: seq<Key>)
    requires ChainCloned(from, to, s, chain) && NoRedefinition(from, chain)
    ensures forall k: Key :: Nearest(to, chain, k) == Nearest(from, chain, k)
  {
    AgreeExactly(from, chain);
    forall k: Key
      ensures Nearest(to, chain, k) == Nearest(from, chain, k)
    {
      NearestHere(from, chain, k);
    }
  }

  /** An item that a child redefines is looked up differently in the clone. */
  lemma RedefinitionIsLost(from: SetDefs, to: SetDefs, parent: Key, child: Key, a: ItemDef, b: ItemDef)
    requires parent != child && a.key == b.key && a != b
    requires from == map[parent := SetDef(parent, NULL_KEY, None, [a]), child := SetDef(child, parent, Some(parent), [b])]
    requires ChainCloned(from, to, child, [child, parent])
    ensures Nearest(from, [child, parent], a.key) == Some(b) && Nearest(to, [child, parent], a.key) == Some(a)
  {
    assert [child, parent][1..] == [parent] && [parent][1..] == [];
    assert Farthest(from, [parent], a.key) == Some(a);
  }

  /** Subclass questions get the same answers in the clone. */
  lemma {:induction false} SameSubclasses(from: SetDefs, to: SetDefs, s: Key, chain: seq<Key>, ancestor: Key)
    requires Chain(from, s, chain) && Chain(to, s, chain) && InAll(from, chain) && InAll(to, chain)
    requires forall i | 0 <= i < |chain| :: to[chain[i]].parentSetDefKey == from[chain[i]].parentSetDefKey
    ensures IsSubclass(to, chain, ancestor) == IsSubclass(from, chain, ancestor)
    decreases |chain|
  {
    if |chain| > 1 {
      Above(from, s, chain);
      Above(to, s, chain);
      SameSubclasses(from, to, chain[1], chain[1..], ancestor);
    }
  }

  /** Where linked parents are the registered ones, the walk along the parents finds exactly the sets of the chain. */
  lemma {:induction false} SubclassIsAncestor(m: SetDefs, s: Key, chain: seq<Key>, ancestor: Key)
    requires Chain(m, s, chain) && InAll(m, chain)
    ensures ParentsNamed(m, chain) ==> (IsSubclass(m, chain, ancestor) <==> ancestor in chain)
    decreases |chain|
  {
    assert chain == [s] + chain[1..];
    if m[s].parentSetDef.Some? {
      Above(m, s, chain);
      NotOwnAncestor(m, s, chain);
      assert forall i | 0 <= i < |chain[1..]| :: chain[1..][i] == chain[i + 1];
      SubclassIsAncestor(m, chain[1], chain[1..], ancestor);
      assert chain[1] in chain[1..];
    } else {
      LastOfChain(m, s, chain);
    }
  }

  /** A set has one chain only, so no set is its own ancestor. */
  lemma {:induction false} OneChain(m: SetDefs, s: Key, c: seq<Key>, d: seq<Key>)
    requires Chain(m, s, c) && Chain(m, s, d)
    ensures c == d
    decreases |c|
  {
    if |c| > 1 {
      OneChain(m, c[1], c[1..], d[1..]);
    }
    assert c == [c[0]] + c[1..] && d == [d[0]] + d[1..];
  }

  lemma {:induction false} ChainFrom(m: SetDefs, s: Key, chain: seq<Key>, i: nat)
    requires Chain(m, s, chain) && i < |chain|
    ensures Chain(m, chain[i], chain[i..])
    decreases i
  {
    if i > 0 {
      ChainFrom(m, chain[1], chain[1..], i - 1);
      assert chain[1..][i - 1..] == chain[i..];
    } else {
      assert chain[0..] == chain;
    }
  }

  lemma NotOwnAncestor(m: SetDefs, s: Key, chain: seq<Key>)
    requires Chain(m, s, chain)
    ensures s !in chain[1..]
  {
    if s in chain[1..] {
      var i :| 0 <= i < |chain[1..]| && chain[1..][i] == s;
      ChainFrom(m, s, chain, i + 1);
      OneChain(m, s, chain, chain[i + 1..]);
    }
  }

  lemma {:induction false} SameNearest(m: SetDefs, n: SetDefs, chain: seq<Key>, k: Key)
    requires InAll(m, chain) && InAll(n, chain)
    requires forall i | 0 <= i < |chain| :: n[chain[i]] == m[chain[i]]
    ensures Nearest(n, chain, k) == Nearest(m, chain, k)
    decreases |chain|
  {
    if chain != [] {
      assert forall i | 0 <= i < |chain[1..]| :: chain[1..][i] == chain[i + 1];
      SameNearest(m, n, chain[1..], k);
    }
  }

  lemma {:induction false} SameChain(m: SetDefs, n: SetDefs, s: Key, chain: seq<Key>)
    requires Chain(m, s, chain) && InAll(m, chain) && InAll(n, chain)
    requires forall i | 0 <= i < |chain| :: n[chain[i]].key == m[chain[i]].key && n[chain[i]].parentSetDef == m[chain[i]].parentSetDef
    ensures Chain(n, s, chain)
    decreases |chain|
  {
    if |chain| > 1 {
      Above(m, s, chain);
      assert forall i | 0 <= i < |chain[1..]| :: chain[1..][i] == chain[i + 1];
      SameChain(m, n, chain[1], chain[1..]);
    }
  }

  lemma {:induction false} OwnNext(items: seq<ItemDef>, d: ItemDef, k: Key)
    ensures Own(items + [d], k) == if Own(items, k).Some? then Own(items, k) else if d.key == k then Some(d) else None
    decreases |items|
  {
    if items != [] {
      OwnNext(items[1..], d, k);
      assert (items + [d])[1..] == items[1..] + [d];
    } else {
      assert [] + [d] == [d];
    }
  }

  lemma ChainHead(m: SetDefs, s: Key, chain: seq<Key>)
    requires Chain(m, s, chain)
    ensures s in m && m[s].key == s && chain != [] && chain[0] == s
  {
  }

  lemma RootedAt(m: SetDefs, chains: map<Key, seq<Key>>)
    requires Rooted(m, chains)
    ensures forall k | k in m :: k in chains && Chain(m, k, chains[k]) && InAll(m, chains[k])
  {
  }

  /** More items do not change who is whose parent. */
  lemma StillRooted(m: SetDefs, n: SetDefs, chains: map<Key, seq<Key>>)
    requires Rooted(m, chains) && n.Keys == m.Keys && forall k | k in m :: MoreItems(m[k], n[k])
    ensures Rooted(n, chains)
  {
    hide Chain;
    forall k | k in n
      ensures k in chains && Chain(n, k, chains[k]) && InAll(n, chains[k])
    {
      SameChain(m, n, k, chains[k]);
    }
  }

  lemma KnownAbove(m: SetDefs, chain: seq<Key>, t: Types)
    requires chain != []
    ensures TypesKnown(m, chain, t) ==> TypesKnown(m, chain[1..], t)
  {
    assert forall i | 0 <= i < |chain[1..]| :: chain[1..][i] == chain[i + 1];
  }

  /** All definitions are still there with their chains, with the same place and at least the same items. */
  ghost predicate KeepsDefs(was: SetDefs, wasChains: map<Key, seq<Key>>, now: SetDefs, chains: map<Key, seq<Key>>)
  {
    forall k | k in was :: k in now && MoreItems(was[k], now[k]) && k in wasChains && k in chains && chains[k] == wasChains[k]
  }

  /** New definitions are of the chain, with the parents named there. */
  ghost predicate AddsOnly(from: SetDefs, was: SetDefs, now: SetDefs, chain: seq<Key>)
  {
    forall k | k in now && k !in was ::
      && k in chain && k in from && now[k].key == k
      && now[k].parentSetDefKey == from[k].parentSetDefKey && now[k].parentSetDef == from[k].parentSetDef
  }

  lemma KeepsAll(from: SetDefs, m: SetDefs, chains: map<Key, seq<Key>>, chain: seq<Key>)
    requires Rooted(m, chains)
    ensures KeepsDefs(m, chains, m, chains) && AddsOnly(from, m, m, chain)
  {
    hide Chain, InAll;
  }

  lemma LongerChain(from: SetDefs, was: SetDefs, now: SetDefs, chain: seq<Key>)
    requires chain != [] && AddsOnly(from, was, now, chain[1..])
    ensures AddsOnly(from, was, now, chain)
  {
  }

  lemma MoreItemsKeep(from: SetDefs, was: SetDefs, wasChains: map<Key, seq<Key>>, mid: SetDefs, now: SetDefs,
                      chains: map<Key, seq<Key>>, chain: seq<Key>)
    requires KeepsDefs(was, wasChains, mid, chains) && AddsOnly(from, was, mid, chain)
    requires now.Keys == mid.Keys && forall k | k in mid :: MoreItems(mid[k], now[k])
    ensures KeepsDefs(was, wasChains, now, chains) && AddsOnly(from, was, now, chain)
  {
  }

  /** A set definition just registered, without items, below its parent if it has one. */
  lemma SetRegistered(from: SetDefs, was: SetDefs, wasChains: map<Key, seq<Key>>, to: SetDefs, chains: map<Key, seq<Key>>,
                      s: Key, chain: seq<Key>, t: Types)
    requires Chain(from, s, chain) && InAll(from, chain) && s !in was && s !in chain[1..]
    requires Rooted(was, wasChains) && Rooted(to, chains) && KeepsDefs(was, wasChains, to, chains) && AddsOnly(from, was, to, chain[1..])
    requires from[s].parentSetDef.Some? ==>
               && chain[1] in to && InAll(from, chain[1..])
               && chains[chain[1]] == ChainAfter(was, wasChains, chain[1..])
               && forall k: Key :: Nearest(to, chains[chain[1]], k) == LookupAfter(from, was, wasChains, chain[1..], k)
    ensures s !in to
    ensures var now := to[s := SetDef(s, from[s].parentSetDefKey, from[s].parentSetDef, [])];
      var c := [s] + if from[s].parentSetDef.Some? then chains[chain[1]] else [];
      && Rooted(now, chains[s := c]) && InAll(now, c) && c == ChainAfter(was, wasChains, chain)
      && (AllKnown(to, t) ==> AllKnown(now, t))
      && KeepsDefs(was, wasChains, now, chains[s := c]) && AddsOnly(from, was, now, chain)
      && InAll(from, chain[1..])
      && forall k: Key :: Nearest(now, c, k) == LookupAfter(from, was, wasChains, chain[1..], k)
  {
    hide Chain, LookupAfter, ChainAfter;
    ChainHead(from, s, chain);
    var now := to[s := SetDef(s, from[s].parentSetDefKey, from[s].parentSetDef, [])];
    LastOfChain(from, s, chain);
    var rest := if from[s].parentSetDef.Some? then chains[chain[1]] else [];
    var c := [s] + rest;
    assert forall i | 0 <= i < |chain[1..]| :: chain[1..][i] == chain[i + 1];
    assert c[1..] == rest;
    StepAfter(from, was, wasChains, chain);
    NewBelow(to, now, chains, s, rest);
    forall k | k in now
      ensures k in chains[s := c] && Chain(now, k, chains[s := c][k]) && InAll(now, chains[s := c][k])
    {
      if k != s {
        assert forall i | 0 <= i < |chains[k]| :: chains[k][i] in to && chains[k][i] != s;
        SameChain(to, now, k, chains[k]);
      }
    }
    forall k: Key
      ensures Nearest(now, c, k) == LookupAfter(from, was, wasChains, chain[1..], k)
    {
      if from[s].parentSetDef.Some? {
        SameNearest(to, now, rest, k);
      }
    }
  }

  /** A set without a linked parent is the last of its chain. */
  lemma LastOfChain(m: SetDefs, s: Key, chain: seq<Key>)
    requires Chain(m, s, chain)
    ensures m[s].parentSetDef.None? <==> chain[1..] == []
    ensures m[s].parentSetDef.Some? ==> |chain| > 1 && m[s].parentSetDef.value == chain[1]
  {
  }

  lemma StepAfter(from: SetDefs, was: SetDefs, chains: map<Key, seq<Key>>, chain: seq<Key>)
    requires chain != [] && InAll(from, chain) && InAll(from, chain[1..]) && Rooted(was, chains) && chain[0] !in was
    ensures ChainAfter(was, chains, chain) == [chain[0]] + ChainAfter(was, chains, chain[1..])
    ensures chain[1..] == [] ==> ChainAfter(was, chains, chain[1..]) == []
                                 && forall k: Key :: LookupAfter(from, was, chains, chain[1..], k) == None
  {
  }

  lemma NewBelow(to: SetDefs, now: SetDefs, chains: map<Key, seq<Key>>, s: Key, rest: seq<Key>)
    requires Rooted(to, chains) && s !in to && s in now && now == to[s := now[s]] && now[s].key == s
    requires if now[s].parentSetDef.Some? then now[s].parentSetDef.value in to && rest == chains[now[s].parentSetDef.value]
             else rest == []
    ensures Chain(now, s, [s] + rest) && InAll(now, [s] + rest)
    ensures forall i | 0 <= i < |rest| :: rest[i] in to && now[rest[i]] == to[rest[i]]
  {
    var c := [s] + rest;
    assert c[1..] == rest;
    if now[s].parentSetDef.Some? {
      var p := now[s].parentSetDef.value;
      assert Chain(to, p, rest);
      SameChain(to, now, p, rest);
    }
  }

  /** Cloning the items of a set definition completes what lookups have to find. */
  lemma LookupStep(from: SetDefs, was: SetDefs, chains: map<Key, seq<Key>>, chain: seq<Key>)
    requires chain != [] && InAll(from, chain) && Rooted(was, chains)
    ensures InAll(from, chain[1..])
    ensures forall k: Key :: LookupAfter(from, was, chains, chain, k)
              == OrElse(if chain[0] in was then Nearest(was, chains[chain[0]], k) else LookupAfter(from, was, chains, chain[1..], k),
                        Own(from[chain[0]].itemDefs, k))
    ensures chain[0] in was ==> ChainAfter(was, chains, chain) == chains[chain[0]]
  {
    assert forall i | 0 <= i < |chain[1..]| :: chain[1..][i] == chain[i + 1];
  }

  lemma NoItemsYet(items: seq<ItemDef>)
    ensures forall k: Key :: Own(items[..0], k) == None
  {
  }

  /** The next item is either found already or added. */
  lemma NextItem(m: SetDefs, to: SetDefs, s: Key, chain: seq<Key>, items: seq<ItemDef>, i: nat)
    requires Chain(to, s, chain) && InAll(to, chain) && InAll(m, chain) && i < |items| && s in to
    requires forall k: Key :: Nearest(to, chain, k) == OrElse(Nearest(m, chain, k), Own(items[..i], k))
    ensures var d, now := items[i], to[s := to[s].(itemDefs := to[s].itemDefs + [items[i]])];
      && Chain(now, s, chain) && InAll(now, chain)
      && (Nearest(to, chain, d.key).Some? ==>
            forall k: Key :: Nearest(to, chain, k) == OrElse(Nearest(m, chain, k), Own(items[..i + 1], k)))
      && (Nearest(to, chain, d.key).None? ==>
            forall k: Key :: Nearest(now, chain, k) == OrElse(Nearest(m, chain, k), Own(items[..i + 1], k)))
  {
    var d := items[i];
    var now := to[s := to[s].(itemDefs := to[s].itemDefs + [d])];
    assert items[..i] + [d] == items[..i + 1];
    assert forall j | 0 <= j < |chain[1..]| :: chain[1..][j] == chain[j + 1];
    NotOwnAncestor(to, s, chain);
    SameChain(to, now, s, chain);
    forall k: Key
      ensures Own(items[..i + 1], k) == if Own(items[..i], k).Some? then Own(items[..i], k) else if d.key == k then Some(d) else None
      ensures Own(now[s].itemDefs, k) == if Own(to[s].itemDefs, k).Some? then Own(to[s].itemDefs, k) else if d.key == k then Some(d) else None
      ensures Nearest(now, chain[1..], k) == Nearest(to, chain[1..], k)
    {
      OwnNext(items[..i], d, k);
      OwnNext(to[s].itemDefs, d, k);
      SameNearest(to, now, chain[1..], k);
    }
  }

  /** The items behind those that were there: ones of `items` whose keys neither an item before nor a set above has. */
  predicate AddedTo(items: seq<ItemDef>, was: seq<ItemDef>, now: SetDefs, chain: seq<Key>, s: Key)
  {
    && s in now && was <= now[s].itemDefs
    && forall b | |was| <= b < |now[s].itemDefs| ::
         && now[s].itemDefs[b] in items
         && (forall c | 0 <= c < b :: now[s].itemDefs[c].key != now[s].itemDefs[b].key)
         && forall a, c | 1 <= a < |chain| && chain[a] in now && 0 <= c < |now[chain[a]].itemDefs| ::
              now[chain[a]].itemDefs[c].key != now[s].itemDefs[b].key
  }

  /** The same for every set. */
  predicate Added(from: SetDefs, was: SetDefs, now: SetDefs, chains: map<Key, seq<Key>>)
  {
    forall k | k in now ::
      && k in chains
      && AddedTo(if k in from then from[k].itemDefs else [], if k in was then was[k].itemDefs else [], now, chains[k], k)
  }

  lemma NoneAdded(items: seq<ItemDef>, m: SetDefs, chain: seq<Key>, s: Key)
    requires s in m
    ensures AddedTo(items, m[s].itemDefs, m, chain, s)
  {
  }

  lemma NothingAdded(from: SetDefs, m: SetDefs, chains: map<Key, seq<Key>>)
    requires Rooted(m, chains)
    ensures Added(from, m, m, chains)
  {
    hide Chain, InAll;
  }

  lemma OneMoreAdded(items: seq<ItemDef>, was: seq<ItemDef>, m: SetDefs, chain: seq<Key>, s: Key, d: ItemDef)
    requires AddedTo(items, was, m, chain, s) && Chain(m, s, chain) && InAll(m, chain) && d in items
    requires forall a, b | 0 <= a < |chain| && 0 <= b < |m[chain[a]].itemDefs| :: m[chain[a]].itemDefs[b].key != d.key
    ensures AddedTo(items, was, m[s := m[s].(itemDefs := m[s].itemDefs + [d])], chain, s)
  {
    hide Chain;
    ChainHead(m, s, chain);
    NotOwnAncestor(m, s, chain);
    assert forall a | 1 <= a < |chain| :: chain[a] == chain[1..][a - 1];
  }

  /** A set definition just registered has no items, and is above none that were there. */
  lemma AddedBelow(from: SetDefs, was: SetDefs, to: SetDefs, chains: map<Key, seq<Key>>, s: Key, rest: seq<Key>)
    requires Added(from, was, to, chains) && Rooted(to, chains) && s !in to && s !in was && s in from
    ensures var now := to[s := SetDef(s, from[s].parentSetDefKey, from[s].parentSetDef, [])];
      && Added(from, was, now, chains[s := [s] + rest])
      && forall k | k in to :: s !in chains[k]
  {
    hide Chain;
    var now := to[s := SetDef(s, from[s].parentSetDefKey, from[s].parentSetDef, [])];
    forall k | k in to
      ensures k in chains && s !in chains[k]
      ensures AddedTo(if k in from then from[k].itemDefs else [], if k in was then was[k].itemDefs else [], now, chains[k], k)
    {
      assert InAll(to, chains[k]);
      assert AddedTo(if k in from then from[k].itemDefs else [], if k in was then was[k].itemDefs else [], to, chains[k], k);
    }
  }

  /** Items added to one set, where nothing has been added below it. */
  lemma AddedOn(from: SetDefs, was: SetDefs, mid: SetDefs, now: SetDefs, chains: map<Key, seq<Key>>, s: Key)
    requires Added(from, was, mid, chains) && s in mid && s in from && now.Keys == mid.Keys
    requires forall k | k in mid && k != s :: now[k] == mid[k]
    requires if s in was then mid == was else mid[s].itemDefs == [] && forall k | k in mid && k != s :: s !in chains[k]
    requires AddedTo(from[s].itemDefs, mid[s].itemDefs, now, chains[s], s)
    ensures Added(from, was, now, chains)
  {
    forall k | k in now && k != s
      ensures AddedTo(if k in from then from[k].itemDefs else [], if k in was then was[k].itemDefs else [], now, chains[k], k)
    {
      assert AddedTo(if k in from then from[k].itemDefs else [], if k in was then was[k].itemDefs else [], mid, chains[k], k);
    }
  }

  /** What a lookup has to find in the clone is there for every item down from the first set that was there. */
  lemma {:induction false} LookupHas(from: SetDefs, to: SetDefs, chains: map<Key, seq<Key>>, chain: seq<Key>, i: nat, key: Key)
    requires InAll(from, chain) && forall k | k in to :: k in chains && InAll(to, chains[k])
    requires i < |chain| && (forall h | 0 <= h < i :: chain[h] !in to) && Own(from[chain[i]].itemDefs, key).Some?
    ensures LookupAfter(from, to, chains, chain, key).Some?
    decreases |chain|
  {
    if i > 0 {
      assert forall k | 0 <= k < |chain[1..]| :: chain[1..][k] == chain[k + 1];
      LookupHas(from, to, chains, chain[1..], i - 1, key);
    }
  }

  lemma ItemsFound(from: SetDefs, to: SetDefs, chains: map<Key, seq<Key>>, chain: seq<Key>)
    requires InAll(from, chain) && forall k | k in to :: k in chains && InAll(to, chains[k])
    ensures forall i, j | 0 <= i < |chain| && (forall h | 0 <= h < i :: chain[h] !in to) && 0 <= j < |from[chain[i]].itemDefs| ::
              LookupAfter(from, to, chains, chain, from[chain[i]].itemDefs[j].key).Some?
  {
    forall i, j | 0 <= i < |chain| && (forall h | 0 <= h < i :: chain[h] !in to) && 0 <= j < |from[chain[i]].itemDefs|
      ensures LookupAfter(from, to, chains, chain, from[chain[i]].itemDefs[j].key).Some?
    {
      var key := from[chain[i]].itemDefs[j].key;
      var r := OwnIs(from[chain[i]].itemDefs, key);
      LookupHas(from, to, chains, chain, i, key);
    }
  }

  lemma TypesOfSet(m: SetDefs, chain: seq<Key>, t: Types, s: Key)
    requires s in m && chain != [] && chain[0] == s
    ensures TypesKnown(m, chain, t) ==> forall j | 0 <= j < |m[s].itemDefs| :: m[s].itemDefs[j].typeId in t
  {
  }

  lemma KnownMore(m: SetDefs, t: Types, now: Types, s: Key, d: ItemDef)
    requires s in m && d.typeId in now && forall id | id in t :: id in now
    ensures AllKnown(m, t) ==> AllKnown(m[s := m[s].(itemDefs := m[s].itemDefs + [d])], now) && AllKnown(m, now)
  {
  }

  lemma NothingCloned(from: Types, was: Types)
    ensures TypesCloned(from, was, was)
  {
  }

  lemma NotMadeOf(from: Types, rank: map<nat, nat>, t: nat, i: nat, id: nat)
    requires TypesAcyclic(from, rank) && t in from && id in from && rank[t] < rank[id] && i < |MadeOf(from[t])|
    ensures MadeOf(from[t])[i] != id
  {
  }

  /** A member's type is cloned while the compound type is still incomplete. */
  lemma MemberCloned(from: Types, rank: map<nat, nat>, was: Types, before: Types, now: Types, id: nat, member: nat)
    requires TypesAcyclic(from, rank) && id in from && id !in was && id in before && member in now
    requires TypesCloned(from, was, before - {id}) && TypesCloned(from, before, now)
    requires member in from ==> rank[member] < rank[id]
    requires forall t | t in now && t !in before :: t in rank && member in rank && rank[t] <= rank[member]
    requires member !in from ==> now == before
    ensures TypesCloned(from, was, now - {id}) && id in now && now[id] == before[id]
  {
    forall t, i | t in now - {id} && t !in was && 0 <= i < |MadeOf(now[t])|
      ensures MadeOf(now[t])[i] in now - {id}
    {
      if t in before {
        assert t in before - {id};
        assert MadeOf((before - {id})[t])[i] in before - {id};
      } else {
        assert MadeOf(now[t])[i] in now;
        NotMadeOf(from, rank, t, i, id);
      }
    }
  }

  lemma Above(m: SetDefs, s: Key, chain: seq<Key>)
    requires Chain(m, s, chain) && InAll(m, chain) && m[s].parentSetDef.Some?
    ensures |chain| > 1 && m[s].parentSetDef.value == chain[1] && Chain(m, chain[1], chain[1..]) && InAll(m, chain[1..])
  {
    assert forall i | 0 <= i < |chain[1..]| :: chain[1..][i] == chain[i + 1];
  }

  /** A type added after all that it is made of. */
  lemma OneMoreType(from: Types, was: Types, mid: Types, id: nat)
    requires TypesCloned(from, was, mid) && id in from && id !in was
    requires forall i | 0 <= i < |MadeOf(from[id])| :: MadeOf(from[id])[i] in mid
    ensures TypesCloned(from, was, mid[id := from[id]])
  {
  }
}
