/** Trees of metadata sets along strong references, and what a clone of such a tree has to look like. */
module CloneModel {
  import opened Wrappers
  import opened Bytes
  import opened MetadataModel

  /** UUIDs; numbers, so that there is always a fresh one. */
  type Uid = nat

  const GENERATION_UID_KEY: Key :=
    [0x06, 0x0e, 0x2b, 0x34, 0x01, 0x01, 0x01, 0x02, 0x05, 0x20, 0x07, 0x01, 0x08, 0x00, 0x00, 0x00]

  /** What an item's type says about its value. */
  datatype Kind = Weak | Strong | StrongArray | Plain

  datatype Value = Data(bytes: seq<byte>) | Ref(uid: Uid) | Refs(uids: seq<Uid>)

  datatype Entry = Entry(key: Key, value: Value)

  datatype Node = Node(key: Key, entries: seq<Entry>)

  type Sets = map<Uid, Node>

  /** The known sets, and the known items of each with their kind. */
  datatype Defs = Defs(sets: set<Key>, items: map<(Key, Key), Kind>)

  function KindOf(d: Defs, setKey: Key, key: Key): Option<Kind>
  {
    if (setKey, key) in d.items then Some(d.items[(setKey, key)]) else None
  }

  /** Items that are not cloned: weak references, and the set's own and its generation's UID. */
  predicate Dropped(d: Defs, setKey: Key, key: Key)
  {
    var k := KindOf(d, setKey, key);
    k == Some(Weak) || ((k == None || k == Some(Plain)) && key in {INSTANCE_UID_KEY, GENERATION_UID_KEY})
  }

  /** The instance UID is never a reference. */
  predicate DefsOk(d: Defs)
  {
    forall k | k in d.items && k.1 == INSTANCE_UID_KEY :: d.items[k] == Weak || d.items[k] == Plain
  }

  /* ---- Trees ---- */

  datatype Tree = Tree(key: Key, branches: seq<Branch>)

  datatype Branch = Leaf(key: Key, value: Value) | Child(key: Key, tree: Tree) | Children(key: Key, trees: seq<Tree>)

  /** The sets of a tree. */
  function Size(t: Tree): nat
    decreases t, 0
  {
    1 + BranchesSize(t.branches)
  }

  function BranchesSize(b: seq<Branch>): nat
    decreases b, 0
  {
    if b == [] then 0
    else BranchesSize(b[..|b| - 1]) + match b[|b| - 1]
                                      case Leaf(_, _) => 0
                                      case Child(_, t) => Size(t)
                                      case Children(_, t) => TreesSize(t)
  }

  function TreesSize(t: seq<Tree>): nat
    decreases t, 0
  {
    if t == [] then 0 else TreesSize(t[..|t| - 1]) + Size(t[|t| - 1])
  }

  lemma BranchesNext(b: seq<Branch>, x: Branch)
    ensures BranchesSize(b + [x]) == BranchesSize(b) + match x
                                                       case Leaf(_, _) => 0
                                                       case Child(_, t) => Size(t)
                                                       case Children(_, t) => TreesSize(t)
  {
    assert (b + [x])[..|b|] == b;
  }

  lemma TreesNext(t: seq<Tree>, x: Tree)
    ensures TreesSize(t + [x]) == TreesSize(t) + Size(x)
  {
    assert (t + [x])[..|t|] == t;
  }

  /** The set unfolds to the tree: the same key, and item by item the same plain values and, along the strong
      references, the same trees. */
  predicate Unfolds(d: Defs, s: Sets, uid: Uid, t: Tree)
    decreases t, 0
  {
    uid in s && s[uid].key == t.key && EntriesUnfold(d, s, t.key, s[uid].entries, t.branches)
  }

  predicate EntriesUnfold(d: Defs, s: Sets, setKey: Key, entries: seq<Entry>, b: seq<Branch>)
    decreases b, |entries|
  {
    if entries == [] then b == []
    else
      var e, f := entries[|entries| - 1], entries[..|entries| - 1];
      if Dropped(d, setKey, e.key) then EntriesUnfold(d, s, setKey, f, b)
      else b != [] && EntriesUnfold(d, s, setKey, f, b[..|b| - 1]) && EntryUnfolds(d, s, setKey, e, b[|b| - 1])
  }

  predicate EntryUnfolds(d: Defs, s: Sets, setKey: Key, e: Entry, b: Branch)
    decreases b, 0
  {
    match b
    case Leaf(key, value) => KindOf(d, setKey, e.key) == Some(Plain) && e == Entry(key, value)
    case Child(key, tree) => KindOf(d, setKey, e.key) == Some(Strong) && e.key == key && e.value.Ref? && Unfolds(d, s, e.value.uid, tree)
    case Children(key, trees) =>
      KindOf(d, setKey, e.key) == Some(StrongArray) && e.key == key && e.value.Refs? && RefsUnfold(d, s, e.value.uids, trees)
  }

  predicate RefsUnfold(d: Defs, s: Sets, uids: seq<Uid>, trees: seq<Tree>)
    decreases trees, 0
  {
    if uids == [] then trees == []
    else trees != [] && RefsUnfold(d, s, uids[..|uids| - 1], trees[..|trees| - 1])
         && Unfolds(d, s, uids[|uids| - 1], trees[|trees| - 1])
  }

  /** A set unfolds to one tree at most. */
  lemma {:induction false} UniqueTree(d: Defs, s: Sets, uid: Uid, t: Tree, u: Tree)
    requires Unfolds(d, s, uid, t) && Unfolds(d, s, uid, u)
    ensures t == u
    decreases t, 0
  {
    UniqueBranches(d, s, t.key, s[uid].entries, t.branches, u.branches);
  }

  lemma {:induction false} UniqueBranches(d: Defs, s: Sets, setKey: Key, entries: seq<Entry>, b: seq<Branch>, c: seq<Branch>)
    requires EntriesUnfold(d, s, setKey, entries, b) && EntriesUnfold(d, s, setKey, entries, c)
    ensures b == c
    decreases b, |entries|
  {
    if entries != [] {
      var e, f := entries[|entries| - 1], entries[..|entries| - 1];
      if Dropped(d, setKey, e.key) {
        UniqueBranches(d, s, setKey, f, b, c);
      } else {
        UniqueBranches(d, s, setKey, f, b[..|b| - 1], c[..|c| - 1]);
        UniqueBranch(d, s, setKey, e, b[|b| - 1], c[|c| - 1]);
        assert b == b[..|b| - 1] + [b[|b| - 1]] && c == c[..|c| - 1] + [c[|c| - 1]];
      }
    }
  }

  lemma {:induction false} UniqueBranch(d: Defs, s: Sets, setKey: Key, e: Entry, b: Branch, c: Branch)
    requires EntryUnfolds(d, s, setKey, e, b) && EntryUnfolds(d, s, setKey, e, c)
    ensures b == c
    decreases b, 0
  {
    match b {
      case Leaf(_, _) =>
      case Child(_, tree) => UniqueTree(d, s, e.value.uid, tree, c.tree);
      case Children(_, trees) => UniqueTrees(d, s, e.value.uids, trees, c.trees);
    }
  }

  lemma {:induction false} UniqueTrees(d: Defs, s: Sets, uids: seq<Uid>, t: seq<Tree>, u: seq<Tree>)
    requires RefsUnfold(d, s, uids, t) && RefsUnfold(d, s, uids, u)
    ensures t == u
    decreases t, 0
  {
    if uids != [] {
      UniqueTrees(d, s, uids[..|uids| - 1], t[..|t| - 1], u[..|u| - 1]);
      UniqueTree(d, s, uids[|uids| - 1], t[|t| - 1], u[|u| - 1]);
      assert t == t[..|t| - 1] + [t[|t| - 1]] && u == u[..|u| - 1] + [u[|u| - 1]];
    }
  }

  /** All that s has is in s', unchanged. */
  predicate Extends<V(==)>(s: map<Uid, V>, s': map<Uid, V>)
  {
    forall u | u in s :: u in s' && s'[u] == s[u]
  }

  lemma {:induction false} MoreSets(d: Defs, s: Sets, s': Sets, uid: Uid, t: Tree)
    requires Extends(s, s') && Unfolds(d, s, uid, t)
    ensures Unfolds(d, s', uid, t)
    decreases t, 0
  {
    MoreEntries(d, s, s', t.key, s[uid].entries, t.branches);
  }

  lemma {:induction false} MoreEntries(d: Defs, s: Sets, s': Sets, setKey: Key, entries: seq<Entry>, b: seq<Branch>)
    requires Extends(s, s') && EntriesUnfold(d, s, setKey, entries, b)
    ensures EntriesUnfold(d, s', setKey, entries, b)
    decreases b, |entries|
  {
    if entries != [] {
      var e, f := entries[|entries| - 1], entries[..|entries| - 1];
      if Dropped(d, setKey, e.key) {
        MoreEntries(d, s, s', setKey, f, b);
      } else {
        MoreEntries(d, s, s', setKey, f, b[..|b| - 1]);
        MoreEntry(d, s, s', setKey, e, b[|b| - 1]);
      }
    }
  }

  lemma {:induction false} MoreEntry(d: Defs, s: Sets, s': Sets, setKey: Key, e: Entry, b: Branch)
    requires Extends(s, s') && EntryUnfolds(d, s, setKey, e, b)
    ensures EntryUnfolds(d, s', setKey, e, b)
    decreases b, 0
  {
    match b {
      case Leaf(_, _) =>
      case Child(_, tree) => MoreSets(d, s, s', e.value.uid, tree);
      case Children(_, trees) => MoreRefs(d, s, s', e.value.uids, trees);
    }
  }

  lemma {:induction false} MoreRefs(d: Defs, s: Sets, s': Sets, uids: seq<Uid>, trees: seq<Tree>)
    requires Extends(s, s') && RefsUnfold(d, s, uids, trees)
    ensures RefsUnfold(d, s', uids, trees)
    decreases trees, 0
  {
    if uids != [] {
      MoreRefs(d, s, s', uids[..|uids| - 1], trees[..|trees| - 1]);
      MoreSets(d, s, s', uids[|uids| - 1], trees[|trees| - 1]);
    }
  }

  /* ---- Unfolding an acyclic source ---- */

  /** Items have the shape their type says. */
  predicate Shaped(d: Defs, s: Sets)
  {
    forall u, i | u in s && 0 <= i < |s[u].entries| ::
      var k, v := KindOf(d, s[u].key, s[u].entries[i].key), s[u].entries[i].value;
      (k == Some(Strong) ==> v.Ref?) && (k == Some(StrongArray) ==> v.Refs?)
  }

  /** No set has two items with the same key. */
  predicate DistinctKeys(s: Sets)
  {
    forall u, i, j | u in s && 0 <= i < j < |s[u].entries| :: s[u].entries[i].key != s[u].entries[j].key
  }

  /** Strong references do not run in circles: they lead to sets of lower rank. */
  predicate Acyclic(d: Defs, s: Sets, rank: map<Uid, nat>)
  {
    && (forall u | u in s :: u in rank)
    && (forall u, i | u in s && 0 <= i < |s[u].entries| && KindOf(d, s[u].key, s[u].entries[i].key) == Some(Strong)
          && s[u].entries[i].value.Ref? && s[u].entries[i].value.uid in s :: rank[s[u].entries[i].value.uid] < rank[u])
    && (forall u, i, j | u in s && 0 <= i < |s[u].entries| && KindOf(d, s[u].key, s[u].entries[i].key) == Some(StrongArray)
          && s[u].entries[i].value.Refs? && 0 <= j < |s[u].entries[i].value.uids| && s[u].entries[i].value.uids[j] in s
          :: rank[s[u].entries[i].value.uids[j]] < rank[u])
  }

  predicate SourceOk(d: Defs, s: Sets, rank: map<Uid, nat>)
  {
    Shaped(d, s) && DistinctKeys(s) && Acyclic(d, s, rank)
  }

  /** The tree below a set, if every reference leads somewhere and every set and item is known. */
  function Unfold(d: Defs, s: Sets, rank: map<Uid, nat>, uid: Uid): Option<Tree>
    requires SourceOk(d, s, rank) && uid in s
    decreases rank[uid], 3, 0
  {
    if s[uid].key !in d.sets then None
    else match UnfoldEntries(d, s, rank, uid, |s[uid].entries|)
      case None => None
      case Some(b) => Some(Tree(s[uid].key, b))
  }

  /** The branches for a set's first n items. */
  function UnfoldEntries(d: Defs, s: Sets, rank: map<Uid, nat>, uid: Uid, n: nat): Option<seq<Branch>>
    requires SourceOk(d, s, rank) && uid in s && n <= |s[uid].entries|
    decreases rank[uid], 2, n
  {
    if n == 0 then Some([])
    else match UnfoldEntries(d, s, rank, uid, n - 1)
      case None => None
      case Some(b) =>
        var key := s[uid].entries[n - 1].key;
        if KindOf(d, s[uid].key, key).None? then None
        else if Dropped(d, s[uid].key, key) then Some(b)
        else match UnfoldEntry(d, s, rank, uid, n - 1)
          case None => None
          case Some(x) => Some(b + [x])
  }

  function UnfoldEntry(d: Defs, s: Sets, rank: map<Uid, nat>, uid: Uid, i: nat): Option<Branch>
    requires SourceOk(d, s, rank) && uid in s && i < |s[uid].entries|
    decreases rank[uid], 1, 0
  {
    var e := s[uid].entries[i];
    match KindOf(d, s[uid].key, e.key)
    case Some(Strong) =>
      if e.value.uid !in s then None
      else (match Unfold(d, s, rank, e.value.uid)
            case None => None
            case Some(t) => Some(Child(e.key, t)))
    case Some(StrongArray) =>
      (match UnfoldRefs(d, s, rank, uid, i, |e.value.uids|)
       case None => None
       case Some(t) => Some(Children(e.key, t)))
    case _ => Some(Leaf(e.key, e.value))
  }

  /** The trees of the first n references of an array item. */
  function UnfoldRefs(d: Defs, s: Sets, rank: map<Uid, nat>, uid: Uid, i: nat, n: nat): Option<seq<Tree>>
    requires SourceOk(d, s, rank) && uid in s && i < |s[uid].entries|
    requires KindOf(d, s[uid].key, s[uid].entries[i].key) == Some(StrongArray) && n <= |s[uid].entries[i].value.uids|
    decreases rank[uid], 0, n
  {
    if n == 0 then Some([])
    else match UnfoldRefs(d, s, rank, uid, i, n - 1)
      case None => None
      case Some(t) =>
        var r := s[uid].entries[i].value.uids[n - 1];
        if r !in s then None
        else match Unfold(d, s, rank, r)
          case None => None
          case Some(x) => Some(t + [x])
  }

  /** A known item whose strong references lead to sets among the given ones. */
  predicate EntryAmong(d: Defs, setKey: Key, e: Entry, among: set<Uid>)
  {
    && (setKey, e.key) in d.items
    && (d.items[(setKey, e.key)] == Strong ==> e.value.Ref? && e.value.uid in among)
    && (d.items[(setKey, e.key)] == StrongArray ==>
          e.value.Refs? && forall j | 0 <= j < |e.value.uids| :: e.value.uids[j] in among)
  }

  /** Sets that are known with all their items, and whose strong references lead to sets among them. */
  predicate Complete(d: Defs, s: Sets, among: set<Uid>)
  {
    forall u | u in among ::
      u in s && s[u].key in d.sets && forall i | 0 <= i < |s[u].entries| :: EntryAmong(d, s[u].key, s[u].entries[i], among)
  }

  /** In an acyclic source each of them has its tree. */
  lemma {:induction false} CompleteUnfolds(d: Defs, s: Sets, rank: map<Uid, nat>, among: set<Uid>, uid: Uid)
    requires SourceOk(d, s, rank) && Complete(d, s, among) && uid in among
    ensures uid in s && Unfold(d, s, rank, uid).Some?
    decreases if uid in rank then rank[uid] else 0, 3, 0
  {
    CompleteEntries(d, s, rank, among, uid, |s[uid].entries|);
  }

  lemma {:induction false} CompleteEntries(d: Defs, s: Sets, rank: map<Uid, nat>, among: set<Uid>, uid: Uid, n: nat)
    requires SourceOk(d, s, rank) && Complete(d, s, among) && uid in among && uid in s && n <= |s[uid].entries|
    ensures UnfoldEntries(d, s, rank, uid, n).Some?
    decreases rank[uid], 2, n
  {
    if n > 0 {
      CompleteEntries(d, s, rank, among, uid, n - 1);
      var e := s[uid].entries[n - 1];
      assert EntryAmong(d, s[uid].key, e, among);
      if KindOf(d, s[uid].key, e.key) == Some(Strong) {
        assert e.value.uid in s;
        CompleteUnfolds(d, s, rank, among, e.value.uid);
      } else if KindOf(d, s[uid].key, e.key) == Some(StrongArray) {
        CompleteRefs(d, s, rank, among, uid, n - 1, |e.value.uids|);
      }
    }
  }

  lemma {:induction false} CompleteRefs(d: Defs, s: Sets, rank: map<Uid, nat>, among: set<Uid>, uid: Uid, i: nat, n: nat)
    requires SourceOk(d, s, rank) && Complete(d, s, among) && uid in among && uid in s && i < |s[uid].entries|
    requires KindOf(d, s[uid].key, s[uid].entries[i].key) == Some(StrongArray) && n <= |s[uid].entries[i].value.uids|
    ensures UnfoldRefs(d, s, rank, uid, i, n).Some?
    decreases rank[uid], 0, n
  {
    if n > 0 {
      CompleteRefs(d, s, rank, among, uid, i, n - 1);
      var r := s[uid].entries[i].value.uids[n - 1];
      assert EntryAmong(d, s[uid].key, s[uid].entries[i], among);
      CompleteUnfolds(d, s, rank, among, r);
    }
  }

  /** And a set that has its tree is one of such sets. */
  lemma {:induction false} UnfoldsComplete(d: Defs, s: Sets, rank: map<Uid, nat>, uid: Uid) returns (among: set<Uid>)
    requires SourceOk(d, s, rank) && uid in s && Unfold(d, s, rank, uid).Some?
    ensures uid in among && Complete(d, s, among)
    decreases rank[uid], 3, 0
  {
    var a := EntriesComplete(d, s, rank, uid, |s[uid].entries|);
    among := a + {uid};
    forall u, i | u in among && u in s && 0 <= i < |s[u].entries|
      ensures EntryAmong(d, s[u].key, s[u].entries[i], among)
    {
      AmongMore(d, s[u].key, s[u].entries[i], a, among);
    }
  }

  lemma {:induction false} EntriesComplete(d: Defs, s: Sets, rank: map<Uid, nat>, uid: Uid, n: nat) returns (among: set<Uid>)
    requires SourceOk(d, s, rank) && uid in s && n <= |s[uid].entries| && UnfoldEntries(d, s, rank, uid, n).Some?
    ensures Complete(d, s, among) && forall i | 0 <= i < n :: EntryAmong(d, s[uid].key, s[uid].entries[i], among)
    decreases rank[uid], 2, n
  {
    hide EntryAmong, Complete;
    NoneComplete(d, s);
    among := {};
    if n > 0 {
      var a := EntriesComplete(d, s, rank, uid, n - 1);
      var b := EntryComplete(d, s, rank, uid, n - 1);
      among := a + b;
      CompleteJoin(d, s, a, b);
      AmongMore(d, s[uid].key, s[uid].entries[n - 1], b, among);
      forall i | 0 <= i < n - 1
        ensures EntryAmong(d, s[uid].key, s[uid].entries[i], among)
      {
        AmongMore(d, s[uid].key, s[uid].entries[i], a, among);
      }
    }
  }

  lemma {:induction false} EntryComplete(d: Defs, s: Sets, rank: map<Uid, nat>, uid: Uid, i: nat) returns (among: set<Uid>)
    requires SourceOk(d, s, rank) && uid in s && i < |s[uid].entries| && KindOf(d, s[uid].key, s[uid].entries[i].key).Some?
    requires Dropped(d, s[uid].key, s[uid].entries[i].key) || UnfoldEntry(d, s, rank, uid, i).Some?
    ensures Complete(d, s, among) && EntryAmong(d, s[uid].key, s[uid].entries[i], among)
    decreases rank[uid], 1, 0
  {
    hide Complete;
    NoneComplete(d, s);
    among := {};
    var e := s[uid].entries[i];
    if KindOf(d, s[uid].key, e.key) == Some(Strong) {
      among := UnfoldsComplete(d, s, rank, e.value.uid);
    } else if KindOf(d, s[uid].key, e.key) == Some(StrongArray) {
      among := RefsComplete(d, s, rank, uid, i, |e.value.uids|);
    }
  }

  lemma {:induction false} RefsComplete(d: Defs, s: Sets, rank: map<Uid, nat>, uid: Uid, i: nat, n: nat) returns (among: set<Uid>)
    requires SourceOk(d, s, rank) && uid in s && i < |s[uid].entries|
    requires KindOf(d, s[uid].key, s[uid].entries[i].key) == Some(StrongArray) && n <= |s[uid].entries[i].value.uids|
    requires UnfoldRefs(d, s, rank, uid, i, n).Some?
    ensures Complete(d, s, among) && forall j | 0 <= j < n :: s[uid].entries[i].value.uids[j] in among
    decreases rank[uid], 0, n
  {
    hide Complete;
    NoneComplete(d, s);
    among := {};
    if n > 0 {
      var a := RefsComplete(d, s, rank, uid, i, n - 1);
      var b := UnfoldsComplete(d, s, rank, s[uid].entries[i].value.uids[n - 1]);
      among := a + b;
      CompleteJoin(d, s, a, b);
    }
  }

  /** So exactly those sets have a tree. */
  lemma UnfoldsExactly(d: Defs, s: Sets, rank: map<Uid, nat>, uid: Uid)
    requires SourceOk(d, s, rank) && uid in s
    ensures Unfold(d, s, rank, uid).Some? <==> exists among: set<Uid> :: uid in among && forall u | u in among ::
              && u in s && s[u].key in d.sets
              && forall i | 0 <= i < |s[u].entries| ::
                   var e := s[u].entries[i];
                   && (s[u].key, e.key) in d.items
                   && (d.items[(s[u].key, e.key)] == Strong ==> e.value.Ref? && e.value.uid in among)
                   && (d.items[(s[u].key, e.key)] == StrongArray ==>
                         e.value.Refs? && forall j | 0 <= j < |e.value.uids| :: e.value.uids[j] in among)
  {
    hide Unfold, SourceOk;
    if Unfold(d, s, rank, uid).Some? {
      var among := UnfoldsComplete(d, s, rank, uid);
      assert uid in among;
    } else {
      forall among: set<Uid> | uid in among
        ensures !Complete(d, s, among)
      {
        if Complete(d, s, among) {
          CompleteUnfolds(d, s, rank, among, uid);
        }
      }
    }
  }

  lemma NoneComplete(d: Defs, s: Sets)
    ensures Complete(d, s, {})
  {
  }

  lemma AmongMore(d: Defs, setKey: Key, e: Entry, a: set<Uid>, b: set<Uid>)
    requires a <= b
    ensures EntryAmong(d, setKey, e, a) ==> EntryAmong(d, setKey, e, b)
  {
  }

  lemma CompleteJoin(d: Defs, s: Sets, a: set<Uid>, b: set<Uid>)
    requires Complete(d, s, a) && Complete(d, s, b)
    ensures Complete(d, s, a + b)
  {
    hide EntryAmong;
    forall u, i | u in a + b && u in s && 0 <= i < |s[u].entries|
      ensures EntryAmong(d, s[u].key, s[u].entries[i], a + b)
    {
      AmongMore(d, s[u].key, s[u].entries[i], a, a + b);
      AmongMore(d, s[u].key, s[u].entries[i], b, a + b);
    }
  }

  /** The tree of an acyclic source is a tree the source unfolds to. */
  lemma {:induction false} SourceUnfolds(d: Defs, s: Sets, rank: map<Uid, nat>, uid: Uid)
    requires SourceOk(d, s, rank) && uid in s && Unfold(d, s, rank, uid).Some?
    ensures Unfolds(d, s, uid, Unfold(d, s, rank, uid).value)
    decreases rank[uid], 3, 0
  {
    SourceEntries(d, s, rank, uid, |s[uid].entries|);
    assert s[uid].entries[..|s[uid].entries|] == s[uid].entries;
  }

  lemma {:induction false} SourceEntries(d: Defs, s: Sets, rank: map<Uid, nat>, uid: Uid, n: nat)
    requires SourceOk(d, s, rank) && uid in s && n <= |s[uid].entries| && UnfoldEntries(d, s, rank, uid, n).Some?
    ensures EntriesUnfold(d, s, s[uid].key, s[uid].entries[..n], UnfoldEntries(d, s, rank, uid, n).value)
    decreases rank[uid], 2, n
  {
    if n > 0 {
      SourceEntries(d, s, rank, uid, n - 1);
      var f := s[uid].entries[..n];
      assert f[..n - 1] == s[uid].entries[..n - 1];
      if !Dropped(d, s[uid].key, s[uid].entries[n - 1].key) {
        SourceEntry(d, s, rank, uid, n - 1);
        var b, x := UnfoldEntries(d, s, rank, uid, n - 1).value, UnfoldEntry(d, s, rank, uid, n - 1).value;
        assert (b + [x])[..|b|] == b;
      }
    }
  }

  lemma {:induction false} SourceEntry(d: Defs, s: Sets, rank: map<Uid, nat>, uid: Uid, i: nat)
    requires SourceOk(d, s, rank) && uid in s && i < |s[uid].entries| && UnfoldEntry(d, s, rank, uid, i).Some?
    requires KindOf(d, s[uid].key, s[uid].entries[i].key).Some? && !Dropped(d, s[uid].key, s[uid].entries[i].key)
    ensures EntryUnfolds(d, s, s[uid].key, s[uid].entries[i], UnfoldEntry(d, s, rank, uid, i).value)
    decreases rank[uid], 1, 0
  {
    var e := s[uid].entries[i];
    match KindOf(d, s[uid].key, e.key).value {
      case Strong => SourceUnfolds(d, s, rank, e.value.uid);
      case StrongArray =>
        SourceRefs(d, s, rank, uid, i, |e.value.uids|);
        assert e.value.uids[..|e.value.uids|] == e.value.uids;
      case _ =>
    }
  }

  lemma {:induction false} SourceRefs(d: Defs, s: Sets, rank: map<Uid, nat>, uid: Uid, i: nat, n: nat)
    requires SourceOk(d, s, rank) && uid in s && i < |s[uid].entries|
    requires KindOf(d, s[uid].key, s[uid].entries[i].key) == Some(StrongArray) && n <= |s[uid].entries[i].value.uids|
    requires UnfoldRefs(d, s, rank, uid, i, n).Some?
    ensures RefsUnfold(d, s, s[uid].entries[i].value.uids[..n], UnfoldRefs(d, s, rank, uid, i, n).value)
    decreases rank[uid], 0, n
  {
    if n > 0 {
      SourceRefs(d, s, rank, uid, i, n - 1);
      var r := s[uid].entries[i].value.uids;
      assert r[..n][..n - 1] == r[..n - 1];
      SourceUnfolds(d, s, rank, r[n - 1]);
      var t, x := UnfoldRefs(d, s, rank, uid, i, n - 1).value, Unfold(d, s, rank, r[n - 1]).value;
      assert (t + [x])[..|t|] == t;
    }
  }

  /* ---- Items of a set ---- */

  function Keys(entries: seq<Entry>): set<Key>
  {
    set i | 0 <= i < |entries| :: entries[i].key
  }

  /** No keys but those of `from` and InstanceUID. */
  predicate KeysWithin(entries: seq<Entry>, from: seq<Entry>)
  {
    Keys(entries) <= Keys(from) + {INSTANCE_UID_KEY}
  }

  /** Sets an item's value, adding the item if there is none with the key. */
  function Put(entries: seq<Entry>, key: Key, v: Value): seq<Entry>
  {
    if entries == [] then [Entry(key, v)]
    else if entries[0].key == key then [Entry(key, v)] + entries[1..]
    else [entries[0]] + Put(entries[1..], key, v)
  }

  lemma {:induction false} PutNew(entries: seq<Entry>, key: Key, v: Value)
    requires key !in Keys(entries)
    ensures Put(entries, key, v) == entries + [Entry(key, v)]
    decreases |entries|
  {
    if entries != [] {
      assert entries[0].key in Keys(entries);
      assert forall i | 0 <= i < |entries[1..]| :: entries[1..][i] == entries[i + 1];
      PutNew(entries[1..], key, v);
    }
  }

  lemma {:induction false} PutLast(entries: seq<Entry>, key: Key, w: Value, v: Value)
    requires key !in Keys(entries)
    ensures Put(entries + [Entry(key, w)], key, v) == entries + [Entry(key, v)]
    decreases |entries|
  {
    if entries != [] {
      assert entries[0].key in Keys(entries);
      assert forall i | 0 <= i < |entries[1..]| :: entries[1..][i] == entries[i + 1];
      PutLast(entries[1..], key, w, v);
      assert (entries + [Entry(key, w)])[1..] == entries[1..] + [Entry(key, w)];
    } else {
      assert [] + [Entry(key, w)] == [Entry(key, w)] && [Entry(key, w)][1..] == [];
    }
  }

  /* ---- What a clone's items are ---- */

  /** The set a new set is a clone of, and which of its items were cloned. */
  datatype Origin = Origin(uid: Uid, items: seq<nat>)

  type Origins = map<Uid, Origin>

  /** Items that are cloned: known ones that are no weak references, and neither the set's own nor its generation's UID. */
  predicate Wanted(d: Defs, setKey: Key, key: Key)
  {
    && (setKey, key) in d.items && d.items[(setKey, key)] != Weak
    && (d.items[(setKey, key)] == Plain ==> key != INSTANCE_UID_KEY && key != GENERATION_UID_KEY)
  }

  /** The set that `to` names is a clone of the one that `from` names. */
  predicate RefCloned(t: Sets, o: Origins, from: Uid, to: Uid)
  {
    to in t && to in o && o[to].uid == from
  }

  /** c is a clone of the item e: the same value, or references to clones. */
  predicate EntryCloned(d: Defs, t: Sets, o: Origins, setKey: Key, e: Entry, c: Entry)
  {
    && c.key == e.key && (setKey, e.key) in d.items
    && match d.items[(setKey, e.key)]
       case Plain => c.value == e.value
       case Strong => e.value.Ref? && c.value.Ref? && RefCloned(t, o, e.value.uid, c.value.uid)
       case StrongArray =>
         e.value.Refs? && c.value.Refs? && |c.value.uids| == |e.value.uids|
         && forall k | 0 <= k < |e.value.uids| :: RefCloned(t, o, e.value.uids[k], c.value.uids[k])
       case Weak => false
  }

  /** The items of a clone v: its instance UID, and then clones of those of the source's first n items that are wanted. */
  predicate ItemsCloned(d: Defs, t: Sets, o: Origins, from: Node, n: nat, idx: seq<nat>, v: Uid, entries: seq<Entry>)
  {
    && n <= |from.entries| && Places(idx, n) && |entries| == 1 + |idx|
    && entries[0] == Entry(INSTANCE_UID_KEY, Ref(v))
    && (forall i | 0 <= i < n :: i in idx <==> Wanted(d, from.key, from.entries[i].key))
    && forall j | 0 <= j < |idx| :: EntryCloned(d, t, o, from.key, from.entries[idx[j]], entries[j + 1])
  }

  predicate IsClone(d: Defs, src: Sets, t: Sets, o: Origins, v: Uid)
  {
    && v in t && v in o && o[v].uid in src && t[v].key == src[o[v].uid].key
    && ItemsCloned(d, t, o, src[o[v].uid], |src[o[v].uid].entries|, o[v].items, v, t[v].entries)
  }

  /** All of t are clones of sets of the source, and refer to each other only. */
  predicate AllClones(d: Defs, src: Sets, t: Sets, o: Origins)
  {
    forall v | v in t :: IsClone(d, src, t, o, v)
  }

  lemma MoreClones(d: Defs, t: Sets, o: Origins, t': Sets, o': Origins, from: Node, n: nat, idx: seq<nat>, v: Uid, entries: seq<Entry>)
    requires ItemsCloned(d, t, o, from, n, idx, v, entries) && Extends(t, t') && Extends(o, o')
    ensures ItemsCloned(d, t', o', from, n, idx, v, entries)
  {
    hide Wanted;
  }

  /** Clones made before and clones made after. */
  lemma ClonesJoin(d: Defs, src: Sets, t: Sets, o: Origins, u: Sets, t': Sets, o': Origins)
    requires AllClones(d, src, t, o) && AllClones(d, src, u, o') && Extends(o, o')
    requires Extends(t, t') && Extends(u, t') && t'.Keys == t.Keys + u.Keys
    ensures AllClones(d, src, t', o')
  {
    hide ItemsCloned;
    forall v | v in t'
      ensures IsClone(d, src, t', o', v)
    {
      if v in t {
        assert IsClone(d, src, t, o, v);
        MoreClones(d, t, o, t', o', src[o[v].uid], |src[o[v].uid].entries|, o[v].items, v, t[v].entries);
      } else {
        assert IsClone(d, src, u, o', v);
        MoreClones(d, u, o', t', o', src[o'[v].uid], |src[o'[v].uid].entries|, o'[v].items, v, u[v].entries);
      }
    }
  }

  /** The next item is cloned or not wanted. */
  lemma ItemCloned(d: Defs, t: Sets, o: Origins, from: Node, n: nat, idx: seq<nat>, v: Uid, entries: seq<Entry>, c: Entry)
    requires ItemsCloned(d, t, o, from, n, idx, v, entries) && n < |from.entries|
    requires Wanted(d, from.key, from.entries[n].key) && EntryCloned(d, t, o, from.key, from.entries[n], c)
    ensures ItemsCloned(d, t, o, from, n + 1, idx + [n], v, entries + [c])
  {
    hide Wanted, EntryCloned;
    NextPlace(idx, n);
  }

  lemma ItemLeftOut(d: Defs, t: Sets, o: Origins, from: Node, n: nat, idx: seq<nat>, v: Uid, entries: seq<Entry>)
    requires ItemsCloned(d, t, o, from, n, idx, v, entries) && n < |from.entries|
    requires !Wanted(d, from.key, from.entries[n].key)
    ensures ItemsCloned(d, t, o, from, n + 1, idx, v, entries)
  {
    hide Wanted, EntryCloned;
    NextPlace(idx, n);
  }

  /** One more clone, all of whose items are there. */
  lemma CloneDone(d: Defs, src: Sets, t: Sets, o: Origins, uid: Uid, idx: seq<nat>, v: Uid, node: Node)
    requires AllClones(d, src, t, o) && uid in src && v !in t && v !in o && node.key == src[uid].key
    requires ItemsCloned(d, t, o, src[uid], |src[uid].entries|, idx, v, node.entries)
    ensures AllClones(d, src, t[v := node], o[v := Origin(uid, idx)])
  {
    hide ItemsCloned;
    var t', o' := t[v := node], o[v := Origin(uid, idx)];
    forall w | w in t'
      ensures IsClone(d, src, t', o', w)
    {
      if w == v {
        MoreClones(d, t, o, t', o', src[uid], |src[uid].entries|, idx, v, node.entries);
      } else {
        assert IsClone(d, src, t, o, w);
        MoreClones(d, t, o, t', o', src[o[w].uid], |src[o[w].uid].entries|, o[w].items, w, t[w].entries);
      }
    }
  }
}

module CloneSet {
  import opened Wrappers
  import opened Bytes
  import opened MetadataModel
  import opened CloneModel

  /** The sets made since there were only those of `base`, without `cloned`, the one being filled. */
  function Made(s: Sets, base: set<Uid>, cloned: Uid): Sets
  {
    s - (base + {cloned})
  }

  /** The set being filled has the branches b, below which there are only sets made for it. */
  predicate Building(d: Defs, s: Sets, base: set<Uid>, cloned: Uid, key: Key, b: seq<Branch>)
  {
    && cloned in s && cloned !in base && base <= s.Keys && s[cloned].key == key
    && EntriesUnfold(d, Made(s, base, cloned), key, s[cloned].entries, b)
  }

  /** The set being filled has clones of the wanted ones of a source set's first n items, and the sets made for it are clones. */
  predicate Cloning(d: Defs, src: Sets, s: Sets, o: Origins, base: set<Uid>, cloned: Uid, from: Node, n: nat, idx: seq<nat>)
  {
    && cloned in s && AllClones(d, src, Made(s, base, cloned), o)
    && ItemsCloned(d, Made(s, base, cloned), o, from, n, idx, cloned, s[cloned].entries)
  }

  /** More origins, and only of sets that were not there. */
  predicate Grows(s: Sets, o: Origins, o': Origins)
  {
    Extends(o, o') && forall v | v in o' && v !in o :: v !in s
  }

  lemma Started(d: Defs, src: Sets, s: Sets, o: Origins, from: Node, cloned: Uid)
    requires DefsOk(d) && cloned !in s
    ensures var now := s[cloned := Node(from.key, [Entry(INSTANCE_UID_KEY, Ref(cloned))])];
      && Building(d, now, s.Keys, cloned, from.key, [])
      && Cloning(d, src, now, o, s.Keys, cloned, from, 0, [])
  {
    var e := [Entry(INSTANCE_UID_KEY, Ref(cloned))];
    assert e[..0] == [] && Dropped(d, from.key, INSTANCE_UID_KEY);
  }

  lemma CloningParts(d: Defs, src: Sets, s: Sets, o: Origins, base: set<Uid>, cloned: Uid, from: Node, n: nat, idx: seq<nat>)
    requires Cloning(d, src, s, o, base, cloned, from, n, idx)
    ensures AllClones(d, src, Made(s, base, cloned), o)
  {
  }

  /** Cloning another set leaves what has been cloned so far. */
  lemma StillCloning(d: Defs, src: Sets, s: Sets, o: Origins, s': Sets, o': Origins, base: set<Uid>, cloned: Uid, from: Node,
                     n: nat, idx: seq<nat>)
    requires Cloning(d, src, s, o, base, cloned, from, n, idx) && Extends(s, s') && Extends(o, o') && base <= s.Keys
    requires AllClones(d, src, s' - s.Keys, o')
    ensures Cloning(d, src, s', o', base, cloned, from, n, idx)
  {
    hide ItemsCloned, AllClones;
    var t, t' := Made(s, base, cloned), Made(s', base, cloned);
    ClonesJoin(d, src, t, o, s' - s.Keys, t', o');
    MoreClones(d, t, o, t', o', from, n, idx, cloned, s[cloned].entries);
  }

  /** One more item in the set being filled. */
  lemma CloningNext(d: Defs, src: Sets, s: Sets, o: Origins, base: set<Uid>, cloned: Uid, from: Node, n: nat, idx: seq<nat>, c: Entry)
    requires Cloning(d, src, s, o, base, cloned, from, n, idx) && n < |from.entries|
    requires Wanted(d, from.key, from.entries[n].key)
    requires EntryCloned(d, Made(s, base, cloned), o, from.key, from.entries[n], c)
    ensures Cloning(d, src, s[cloned := Node(from.key, s[cloned].entries + [c])], o, base, cloned, from, n + 1, idx + [n])
  {
    hide ItemsCloned, AllClones, Wanted, EntryCloned;
    var t := Made(s, base, cloned);
    assert Made(s[cloned := Node(from.key, s[cloned].entries + [c])], base, cloned) == t;
    ItemCloned(d, t, o, from, n, idx, cloned, s[cloned].entries, c);
  }

  lemma CloningSkips(d: Defs, src: Sets, s: Sets, o: Origins, base: set<Uid>, cloned: Uid, from: Node, n: nat, idx: seq<nat>)
    requires Cloning(d, src, s, o, base, cloned, from, n, idx) && n < |from.entries|
    requires !Wanted(d, from.key, from.entries[n].key)
    ensures Cloning(d, src, s, o, base, cloned, from, n + 1, idx)
  {
    hide ItemsCloned, AllClones, Wanted;
    ItemLeftOut(d, Made(s, base, cloned), o, from, n, idx, cloned, s[cloned].entries);
  }

  /** The filled set is a clone as well. */
  lemma Cloned(d: Defs, src: Sets, s: Sets, o: Origins, base: set<Uid>, cloned: Uid, uid: Uid, idx: seq<nat>)
    requires uid in src && Cloning(d, src, s, o, base, cloned, src[uid], |src[uid].entries|, idx)
    requires cloned !in base && cloned !in o && s[cloned].key == src[uid].key
    ensures AllClones(d, src, s - base, o[cloned := Origin(uid, idx)])
  {
    hide ItemsCloned, AllClones;
    var t := Made(s, base, cloned);
    CloneDone(d, src, t, o, uid, idx, cloned, s[cloned]);
    assert t[cloned := s[cloned]] == s - base;
  }

  lemma UnfoldIs(d: Defs, s: Sets, rank: map<Uid, nat>, uid: Uid)
    requires SourceOk(d, s, rank) && uid in s
    ensures s[uid].key !in d.sets ==> Unfold(d, s, rank, uid).None?
    ensures s[uid].key in d.sets ==>
              var b := UnfoldEntries(d, s, rank, uid, |s[uid].entries|);
              && Unfold(d, s, rank, uid).Some? == b.Some?
              && (b.Some? ==> Unfold(d, s, rank, uid).value == Tree(s[uid].key, b.value))
  {
  }

  /** The branch of an array item whose references have their trees. */
  lemma UnfoldArray(d: Defs, s: Sets, rank: map<Uid, nat>, uid: Uid, i: nat)
    requires SourceOk(d, s, rank) && uid in s && i < |s[uid].entries| && UnfoldEntries(d, s, rank, uid, i).Some?
    requires KindOf(d, s[uid].key, s[uid].entries[i].key) == Some(StrongArray)
    ensures var e := s[uid].entries[i];
      && e.value.Refs? && Wanted(d, s[uid].key, e.key)
      && UnfoldEntries(d, s, rank, uid, i + 1)
         == match UnfoldRefs(d, s, rank, uid, i, |e.value.uids|)
            case None => None
            case Some(t) => Some(UnfoldEntries(d, s, rank, uid, i).value + [Children(e.key, t)])
  {
    hide UnfoldRefs, Unfold;
  }

  lemma ArrayCloned(d: Defs, t: Sets, o: Origins, setKey: Key, e: Entry, elements: seq<Uid>)
    requires KindOf(d, setKey, e.key) == Some(StrongArray) && e.value.Refs? && |elements| == |e.value.uids|
    requires forall k | 0 <= k < |elements| :: RefCloned(t, o, e.value.uids[k], elements[k])
    ensures EntryCloned(d, t, o, setKey, e, Entry(e.key, Refs(elements)))
  {
    hide RefCloned;
  }

  lemma NoEntries(d: Defs, s: Sets, rank: map<Uid, nat>, uid: Uid)
    requires SourceOk(d, s, rank) && uid in s
    ensures UnfoldEntries(d, s, rank, uid, 0) == Some([])
  {
  }

  lemma NoClones(d: Defs, src: Sets, s: Sets, o: Origins)
    ensures AllClones(d, src, s - s.Keys, o)
  {
  }

  /** A reference filled into the array being cloned. */
  lemma RefFilled(t: Sets, o: Origins, t': Sets, o': Origins, from: seq<Uid>, elements: seq<Uid>, k: nat, r: Uid)
    requires k < |from| == |elements| && Extends(t, t') && Extends(o, o') && RefCloned(t', o', from[k], r)
    requires forall j | 0 <= j < k :: RefCloned(t, o, from[j], elements[j])
    ensures forall j | 0 <= j <= k :: RefCloned(t', o', from[j], elements[k := r][j])
  {
  }

  /** The filled set is the root of a tree of new sets. */
  lemma Finished(d: Defs, s: Sets, base: set<Uid>, cloned: Uid, key: Key, b: seq<Branch>)
    requires Building(d, s, base, cloned, key, b)
    ensures Unfolds(d, s - base, cloned, Tree(key, b))
  {
    hide EntriesUnfold;
    MoreEntries(d, Made(s, base, cloned), s - base, key, s[cloned].entries, b);
  }

  lemma {:induction false} UnfoldFails(d: Defs, s: Sets, rank: map<Uid, nat>, uid: Uid, i: nat, n: nat)
    requires SourceOk(d, s, rank) && uid in s && i <= n <= |s[uid].entries|
    requires UnfoldEntries(d, s, rank, uid, i).None?
    ensures UnfoldEntries(d, s, rank, uid, n).None?
    decreases n
  {
    hide UnfoldEntry, SourceOk;
    if i < n {
      UnfoldFails(d, s, rank, uid, i, n - 1);
    }
  }

  lemma {:induction false} RefsFail(d: Defs, s: Sets, rank: map<Uid, nat>, uid: Uid, i: nat, k: nat, n: nat)
    requires SourceOk(d, s, rank) && uid in s && i < |s[uid].entries|
    requires KindOf(d, s[uid].key, s[uid].entries[i].key) == Some(StrongArray) && k <= n <= |s[uid].entries[i].value.uids|
    requires UnfoldRefs(d, s, rank, uid, i, k).None?
    ensures UnfoldRefs(d, s, rank, uid, i, n).None?
    decreases n
  {
    hide Unfold, SourceOk;
    if k < n {
      RefsFail(d, s, rank, uid, i, k, n - 1);
    }
  }

  /** Made sets stay as they are when others are added and when the one being filled changes. */
  lemma StillBuilding(d: Defs, s: Sets, s': Sets, base: set<Uid>, cloned: Uid, key: Key, b: seq<Branch>)
    requires Building(d, s, base, cloned, key, b) && Extends(s, s')
    ensures Building(d, s', base, cloned, key, b)
  {
    hide EntriesUnfold;
    MoreEntries(d, Made(s, base, cloned), Made(s', base, cloned), key, s[cloned].entries, b);
  }

  /** One more item. */
  lemma ItemAdded(d: Defs, s: Sets, base: set<Uid>, cloned: Uid, key: Key, b: seq<Branch>, e: Entry, x: Branch)
    requires Building(d, s, base, cloned, key, b)
    requires !Dropped(d, key, e.key) && EntryUnfolds(d, Made(s, base, cloned), key, e, x)
    ensures Building(d, s[cloned := Node(key, s[cloned].entries + [e])], base, cloned, key, b + [x])
  {
    hide EntryUnfolds, Dropped;
    var f := s[cloned].entries;
    var s' := s[cloned := Node(key, f + [e])];
    assert Made(s', base, cloned) == Made(s, base, cloned);
    assert (f + [e])[..|f|] == f && (b + [x])[..|b|] == b;
  }

  /** A cloned item's key is new to the cloned set. */
  lemma KeyIsNew(d: Defs, s: Sets, uid: Uid, i: nat, entries: seq<Entry>)
    requires DefsOk(d) && DistinctKeys(s) && uid in s && i < |s[uid].entries|
    requires KeysWithin(entries, s[uid].entries[..i])
    requires !Dropped(d, s[uid].key, s[uid].entries[i].key)
    ensures s[uid].entries[i].key !in Keys(entries)
  {
    assert s[uid].entries[i].key != INSTANCE_UID_KEY;
  }

  lemma KeysGrow(s: Sets, uid: Uid, i: nat, entries: seq<Entry>, v: Value)
    requires uid in s && i < |s[uid].entries|
    requires KeysWithin(entries, s[uid].entries[..i])
    ensures KeysWithin(entries, s[uid].entries[..i + 1])
    ensures KeysWithin(entries + [Entry(s[uid].entries[i].key, v)], s[uid].entries[..i + 1])
  {
    var f, g := s[uid].entries[..i], s[uid].entries[..i + 1];
    assert g[i].key in Keys(g);
    forall k | k in Keys(f)
      ensures k in Keys(g)
    {
      var j :| 0 <= j < |f| && f[j].key == k;
      assert g[j].key == k;
    }
    forall k | k in Keys(entries + [Entry(s[uid].entries[i].key, v)])
      ensures k in Keys(g) + {INSTANCE_UID_KEY}
    {
      var j :| 0 <= j <= |entries| && (entries + [Entry(s[uid].entries[i].key, v)])[j].key == k;
      if j < |entries| {
        assert entries[j].key in Keys(entries);
      }
    }
  }

  lemma OwnKey(uid: Uid, from: seq<Entry>)
    ensures KeysWithin([Entry(INSTANCE_UID_KEY, Ref(uid))], from[..0])
  {
  }

  lemma SourceParts(d: Defs, s: Sets, rank: map<Uid, nat>)
    requires SourceOk(d, s, rank)
    ensures Shaped(d, s) && DistinctKeys(s) && Acyclic(d, s, rank)
  {
  }

  lemma BuildingParts(d: Defs, s: Sets, base: set<Uid>, cloned: Uid, key: Key, b: seq<Branch>)
    requires Building(d, s, base, cloned, key, b)
    ensures cloned in s && cloned !in base && base <= s.Keys && s[cloned].key == key
  {
  }

  lemma PlainUnfolds(d: Defs, s: Sets, setKey: Key, e: Entry)
    requires KindOf(d, setKey, e.key) == Some(Plain)
    ensures EntryUnfolds(d, s, setKey, e, Leaf(e.key, e.value))
  {
  }

  /** References of an item lead to sets of lower rank. */
  lemma LowerRank(d: Defs, s: Sets, rank: map<Uid, nat>, uid: Uid, i: nat)
    requires SourceOk(d, s, rank) && uid in s && i < |s[uid].entries|
    ensures uid in rank
    ensures var e := s[uid].entries[i];
      && (KindOf(d, s[uid].key, e.key) == Some(Strong) ==>
            e.value.Ref? && (e.value.uid in s ==> e.value.uid in rank && rank[e.value.uid] < rank[uid]))
      && (KindOf(d, s[uid].key, e.key) == Some(StrongArray) ==>
            e.value.Refs? && forall j | 0 <= j < |e.value.uids| && e.value.uids[j] in s ::
              e.value.uids[j] in rank && rank[e.value.uids[j]] < rank[uid])
  {
  }

  lemma StrongKept(d: Defs, setKey: Key, key: Key)
    requires KindOf(d, setKey, key) in {Some(Strong), Some(StrongArray)}
    ensures !Dropped(d, setKey, key)
  {
  }

  lemma ExtendsSelf(s: Sets, cloned: Uid)
    ensures Extends(s - {cloned}, s)
  {
  }

  lemma ExtendsFrom(s: Sets, t: Sets, t': Sets, cloned: Uid)
    requires Extends(s, t) || Extends(s - {cloned}, t)
    requires forall u | u in t && u != cloned :: u in t' && t'[u] == t[u]
    ensures Extends(s - {cloned}, t')
  {
  }

  lemma ExtendsAt(s: Sets, t: Sets, u: Uid)
    requires Extends(s, t) && u in s
    ensures u in t && t[u] == s[u]
  {
  }

  lemma MadeFrom(s: Sets, t: Sets, base: set<Uid>, cloned: Uid)
    requires base <= s.Keys && cloned in s
    ensures Extends(t - s.Keys, Made(t, base, cloned))
  {
  }

  lemma WithoutCloned(s: Sets, base: set<Uid>, cloned: Uid)
    ensures s - {cloned} - base == Made(s, base, cloned)
  {
  }

  lemma Overwritten(s: Sets, v: Uid, a: Node, b: Node)
    ensures s[v := a][v := b] == s[v := b]
  {
  }

  lemma SameMade(s: Sets, t: Sets, base: set<Uid>, cloned: Uid)
    requires cloned in s && cloned in t && t == s[cloned := t[cloned]]
    ensures Made(s, base, cloned) == Made(t, base, cloned)
  {
  }

  lemma MadeMore(s: Sets, t: Sets, base: set<Uid>, cloned: Uid)
    requires Extends(s, t)
    ensures Extends(Made(s, base, cloned), Made(t, base, cloned))
  {
  }

  lemma NoRefs(d: Defs, src: Sets, rank: map<Uid, nat>, uid: Uid, i: nat, s: Sets, base: set<Uid>, cloned: Uid, elements: seq<Uid>)
    requires SourceOk(d, src, rank) && uid in src && i < |src[uid].entries|
    requires KindOf(d, src[uid].key, src[uid].entries[i].key) == Some(StrongArray)
    ensures src[uid].entries[i].value.Refs? && UnfoldRefs(d, src, rank, uid, i, 0) == Some([])
    ensures RefsUnfold(d, Made(s, base, cloned), elements[..0], [])
  {
  }

  lemma RefStep(d: Defs, s: Sets, rank: map<Uid, nat>, uid: Uid, i: nat, k: nat)
    requires SourceOk(d, s, rank) && uid in s && i < |s[uid].entries|
    requires KindOf(d, s[uid].key, s[uid].entries[i].key) == Some(StrongArray)
    requires k < |s[uid].entries[i].value.uids| && UnfoldRefs(d, s, rank, uid, i, k).Some?
    ensures var r, t := s[uid].entries[i].value.uids[k], UnfoldRefs(d, s, rank, uid, i, k).value;
      UnfoldRefs(d, s, rank, uid, i, k + 1)
      == if r !in s || Unfold(d, s, rank, r).None? then None else Some(t + [Unfold(d, s, rank, r).value])
  {
    hide Unfold;
  }

  lemma RefAdded(d: Defs, s: Sets, elements: seq<Uid>, k: nat, r: Uid, trees: seq<Tree>, t: Tree)
    requires k < |elements| && RefsUnfold(d, s, elements[..k], trees) && Unfolds(d, s, r, t)
    ensures RefsUnfold(d, s, elements[k := r][..k + 1], trees + [t])
  {
    hide Unfolds;
    assert elements[k := r][..k + 1][..k] == elements[..k];
    assert (trees + [t])[..|trees|] == trees;
  }

  /** Cloning a set referred to leaves what has been cloned so far, with or without the array in progress. */
  lemma RestKept(d: Defs, src: Sets, was: Sets, wasO: Origins, rest: Sets, o: Origins, before: Sets, s: Sets, o': Origins,
                 after: Sets, base: set<Uid>, cloned: Uid, from: Node, b: seq<Branch>, n: nat, idx: seq<nat>)
    requires cloned in rest && rest[cloned].key == from.key && base <= rest.Keys && before.Keys == rest.Keys
    requires forall u | u in rest && u != cloned :: before[u] == rest[u]
    requires Building(d, rest, base, cloned, from.key, b) && Cloning(d, src, rest, o, base, cloned, from, n, idx)
    requires Extends(was - {cloned}, rest) && Grows(was, wasO, o)
    requires Extends(before, s) && Grows(before, o, o') && AllClones(d, src, s - before.Keys, o')
    requires after == s[cloned := rest[cloned]]
    ensures cloned in s && s[cloned] == before[cloned]
    ensures Extends(rest, after) && Extends(was - {cloned}, after) && Grows(was, wasO, o')
    ensures Building(d, after, base, cloned, from.key, b) && Cloning(d, src, after, o', base, cloned, from, n, idx)
    ensures Made(s, base, cloned) == Made(after, base, cloned) && AllClones(d, src, Made(s, base, cloned), o')
  {
    hide Building, Cloning, AllClones;
    assert Extends(rest, after) && after - rest.Keys == s - before.Keys;
    StillBuilding(d, rest, after, base, cloned, from.key, b);
    StillCloning(d, src, rest, o, after, o', base, cloned, from, n, idx);
    CloningParts(d, src, after, o', base, cloned, from, n, idx);
    SameMade(s, after, base, cloned);
  }

  /** One more reference of an array leads to a clone. */
  lemma ElementCloned(d: Defs, rest: Sets, o: Origins, before: Sets, s: Sets, o': Origins, after: Sets, base: set<Uid>, cloned: Uid,
                      uids: seq<Uid>, elements: seq<Uid>, k: nat, r: Uid, trees: seq<Tree>, tree: Tree)
    requires cloned in rest && base <= rest.Keys && before.Keys == rest.Keys
    requires Extends(rest, after) && Grows(before, o, o') && Made(s, base, cloned) == Made(after, base, cloned)
    requires k < |uids| == |elements| && RefsUnfold(d, Made(rest, base, cloned), elements[..k], trees)
    requires forall j | 0 <= j < k :: RefCloned(Made(rest, base, cloned), o, uids[j], elements[j])
    requires Unfolds(d, s - before.Keys, r, tree) && RefCloned(s - before.Keys, o', uids[k], r)
    ensures RefsUnfold(d, Made(after, base, cloned), elements[k := r][..k + 1], trees + [tree])
    ensures forall j | 0 <= j < k + 1 :: RefCloned(Made(after, base, cloned), o', uids[j], elements[k := r][j])
  {
    hide Unfolds, RefsUnfold, RefCloned, Extends, Made, Grows;
    var t, t' := Made(rest, base, cloned), Made(after, base, cloned);
    MadeFrom(before, s, base, cloned);
    MoreSets(d, s - before.Keys, t', r, tree);
    MadeMore(rest, after, base, cloned);
    MoreRefs(d, t, t', elements[..k], trees);
    RefAdded(d, t', elements, k, r, trees, tree);
    RefStays(s - before.Keys, t', o', uids[k], r);
    GrowsExtends(before, o, o');
    RefFilled(t, o, t', o', uids, elements, k, r);
  }

  /** There are n sets more. */
  predicate More(s: Sets, s': Sets, n: int)
  {
    |s'| == |s| + n
  }

  lemma SameNumber(s: Sets)
    ensures More(s, s, 0)
  {
  }

  lemma OneMore(s: Sets, v: Uid, node: Node)
    requires v !in s
    ensures More(s, s[v := node], 1)
  {
  }

  /** There are as many sets more as the branches c have sets more than the branches b. */
  predicate MoreFor(s: Sets, s': Sets, b: seq<Branch>, c: seq<Branch>)
  {
    |s'| + BranchesSize(b) == |s| + BranchesSize(c)
  }

  lemma NoneFor(s: Sets, b: seq<Branch>)
    ensures MoreFor(s, s, b, b)
  {
  }

  lemma MoreForOn(s: Sets, a: seq<Branch>, s': Sets, b: seq<Branch>, s'': Sets, c: seq<Branch>)
    requires MoreFor(s, s', a, b) && MoreFor(s', s'', b, c)
    ensures MoreFor(s, s'', a, c)
  {
  }

  lemma MoreForItem(s: Sets, s': Sets, n: nat, b: seq<Branch>, x: Branch)
    requires More(s, s', n) && n == match x
                                    case Leaf(_, _) => 0
                                    case Child(_, t) => Size(t)
                                    case Children(_, t) => TreesSize(t)
    ensures MoreFor(s, s', b, b + [x])
  {
    BranchesNext(b, x);
  }

  predicate MoreTrees(s: Sets, s': Sets, trees: seq<Tree>)
  {
    |s'| == |s| + TreesSize(trees)
  }

  lemma NoTrees(s: Sets, v: Uid, node: Node)
    requires v in s
    ensures MoreTrees(s, s[v := node], [])
  {
    MoreKept(s, 0, s, v, node);
  }

  lemma OneMoreTree(s: Sets, s': Sets, s'': Sets, v: Uid, node: Node, trees: seq<Tree>, t: Tree)
    requires MoreTrees(s, s', trees) && More(s', s'', Size(t)) && v in s''
    ensures MoreTrees(s, s''[v := node], trees + [t])
  {
    TreesNext(trees, t);
    MoreKept(s', Size(t), s'', v, node);
  }

  lemma MoreForTrees(s: Sets, s': Sets, b: seq<Branch>, key: Key, trees: seq<Tree>)
    requires MoreTrees(s, s', trees)
    ensures MoreFor(s, s', b, b + [Children(key, trees)])
  {
    BranchesNext(b, Children(key, trees));
  }

  lemma MoreInAll(s: Sets, v: Uid, created: Sets, s': Sets, key: Key, b: seq<Branch>)
    requires v !in s && v in created && created == s[v := created[v]] && MoreFor(created, s', [], b)
    ensures More(s, s', Size(Tree(key, b)))
  {
    OneMore(s, v, created[v]);
  }

  /** What a filled set is at the end: a clone, and the root of a tree of the new sets. */
  lemma TreeDone(d: Defs, src: Sets, was: Sets, wasO: Origins, created: Sets, s: Sets, o: Origins, cloned: Uid, uid: Uid,
                 idx: seq<nat>, b: seq<Branch>)
    requires uid in src && cloned !in was && cloned !in o && Grows(was, wasO, o)
    requires cloned in created && created == was[cloned := created[cloned]] && MoreFor(created, s, [], b)
    requires Building(d, s, was.Keys, cloned, src[uid].key, b)
    requires Cloning(d, src, s, o, was.Keys, cloned, src[uid], |src[uid].entries|, idx)
    ensures var o' := o[cloned := Origin(uid, idx)];
      && Grows(was, wasO, o') && AllClones(d, src, s - was.Keys, o') && RefCloned(s - was.Keys, o', uid, cloned)
    ensures Unfolds(d, s - was.Keys, cloned, Tree(src[uid].key, b)) && More(was, s, Size(Tree(src[uid].key, b)))
  {
    hide AllClones, Unfolds, More, MoreFor, Cloning, Grows, Size;
    Finished(d, s, was.Keys, cloned, src[uid].key, b);
    Cloned(d, src, s, o, was.Keys, cloned, uid, idx);
    OriginAdded(was, wasO, o, cloned, Origin(uid, idx));
    MoreInAll(was, cloned, created, s, src[uid].key, b);
  }

  lemma MoreKept(s: Sets, n: int, s': Sets, v: Uid, node: Node)
    requires More(s, s', n) && v in s'
    ensures More(s, s'[v := node], n)
  {
    assert s'[v := node].Keys == s'.Keys;
    assert |s'.Keys| == |s'| && |s'[v := node].Keys| == |s'[v := node]|;
  }

  lemma ExtendsSame(s: Sets, o: Origins)
    ensures Extends(s, s) && Grows(s, o, o)
  {
  }

  lemma ExtendsNew(s: Sets, s': Sets, v: Uid)
    requires v !in s && v in s' && s' == s[v := s'[v]]
    ensures Extends(s, s')
  {
  }

  lemma ExtendsWithout(s: Sets, s': Sets, v: Uid)
    requires v !in s && Extends(s, s')
    ensures Extends(s, s' - {v})
  {
  }

  lemma GrowsExtends(s: Sets, o: Origins, o': Origins)
    requires Grows(s, o, o')
    ensures Extends(o, o')
  {
  }

  lemma GrowsOn(s: Sets, o: Origins, s': Sets, o': Origins, s'': Sets, o'': Origins, cloned: Uid)
    requires Grows(s, o, o') && Grows(s', o', o'') && s.Keys <= s'.Keys
    ensures Grows(s, o, o'')
    ensures cloned in s' && cloned !in o' ==> cloned !in o''
    ensures cloned !in s && Extends(s, s') && Extends(s' - {cloned}, s'') ==> Extends(s, s'')
  {
  }

  lemma OriginAdded(s: Sets, o: Origins, o': Origins, v: Uid, x: Origin)
    requires Grows(s, o, o') && v !in s && v !in o'
    ensures Grows(s, o, o'[v := x])
  {
  }

  lemma RefStays(t: Sets, t': Sets, o: Origins, from: Uid, to: Uid)
    requires RefCloned(t, o, from, to) && Extends(t, t')
    ensures RefCloned(t', o, from, to)
  {
  }

  /** The header metadata that sets are cloned into. */
  class Header {
    const defs: Defs
    var sets: Sets
    /** Stands for the UUID generator: UIDs from here on are unused. */
    var nextUid: Uid
    /** What cloned sets are clones of. */
    ghost var origin: Origins

    constructor (d: Defs)
      requires DefsOk(d)
      ensures Valid() && defs == d && sets == map[]
    {
      defs, sets, nextUid, origin := d, map[], 0, map[];
    }

    ghost predicate Valid()
      reads this
    {
      DefsOk(defs) && (forall u | u in sets :: u < nextUid) && forall u | u in origin :: u < nextUid
    }

    /** Adds an empty set with a fresh UID. */
    method CreateSet(key: Key) returns (uid: Uid)
      requires Valid()
      modifies `sets, `nextUid
      ensures Valid() && uid !in old(sets) && uid !in origin
      ensures sets == old(sets)[uid := Node(key, [Entry(INSTANCE_UID_KEY, Ref(uid))])]
    {
      uid := nextUid;
      nextUid := nextUid + 1;
      sets := sets[uid := Node(key, [Entry(INSTANCE_UID_KEY, Ref(uid))])];
    }

    method PutItem(uid: Uid, key: Key, v: Value)
      requires Valid() && uid in sets
      modifies `sets
      ensures Valid() && sets == old(sets)[uid := Node(old(sets)[uid].key, Put(old(sets)[uid].entries, key, v))]
    {
      sets := sets[uid := Node(sets[uid].key, Put(sets[uid].entries, key, v))];
    }

    /** Clones a set and all it refers to strongly.  By themselves the new sets unfold to the source's tree, and there
        are no more of them than it has; where there is no tree, cloning fails. */
    method CloneTree(src: Sets, ghost rank: map<Uid, nat>, uid: Uid) returns (r: Option<Uid>)
      requires Valid() && SourceOk(defs, src, rank) && uid in src
      modifies this
      ensures Valid() && Extends(old(sets), sets) && Grows(old(sets), old(origin), origin)
      ensures r.Some? == Unfold(defs, src, rank, uid).Some?
      ensures r.Some? ==> r.value !in old(sets) && RefCloned(sets - old(sets).Keys, origin, uid, r.value)
                          && Unfolds(defs, sets - old(sets).Keys, r.value, Unfold(defs, src, rank, uid).value)
      ensures AllClones(defs, src, sets - old(sets).Keys, origin)
      ensures r.Some? ==> More(old(sets), sets, Size(Unfold(defs, src, rank, uid).value))
      decreases rank[uid], 2, 0
    {
      hide RefCloned, More, MoreFor, BranchesSize, Size, Unfold, Unfolds, UnfoldEntries, AllClones, SourceOk, Building, Grows, Made, Dropped, DefsOk, EntriesUnfold, Keys, KeysWithin, Cloning, Extends;
      var from := src[uid];
      ExtendsSame(sets, origin);
      NoClones(defs, src, sets, origin);
      UnfoldIs(defs, src, rank, uid);
      if from.key !in defs.sets {
        return None;
      }
      ghost var base := sets.Keys;
      var cloned := CreateSet(from.key);
      ExtendsNew(old(sets), sets, cloned);
      ghost var created := sets;
      Started(defs, src, old(sets), origin, from, cloned);
      OwnKey(cloned, from.entries);
      NoEntries(defs, src, rank, uid);
      NoneFor(sets, []);
      ghost var idx: seq<nat> := [];
      var i := 0;
      while i < |from.entries|
        invariant 0 <= i <= |from.entries| && Valid() && Extends(old(sets), sets) && Grows(old(sets), old(origin), origin)
        invariant cloned !in origin && cloned !in old(sets)
        invariant UnfoldEntries(defs, src, rank, uid, i).Some?
        invariant MoreFor(created, sets, [], UnfoldEntries(defs, src, rank, uid, i).value)
        invariant Building(defs, sets, base, cloned, from.key, UnfoldEntries(defs, src, rank, uid, i).value)
        invariant Cloning(defs, src, sets, origin, base, cloned, from, i, idx) && cloned in sets
        invariant KeysWithin(sets[cloned].entries, from.entries[..i])
      {
        ghost var s, o, b := sets, origin, UnfoldEntries(defs, src, rank, uid, i).value;
        BuildingParts(defs, sets, base, cloned, from.key, b);
        var ok;
        ok, idx := CloneItem(src, rank, uid, i, cloned, base, idx);
        GrowsOn(old(sets), old(origin), s, o, sets, origin, cloned);
        if !ok {
          UnfoldFails(defs, src, rank, uid, i + 1, |from.entries|);
          WithoutCloned(sets, base, cloned);
          ExtendsWithout(old(sets), sets, cloned);
          sets := sets - {cloned};
          return None;
        }
        ghost var c := UnfoldEntries(defs, src, rank, uid, i + 1).value;
        MoreForOn(created, [], s, b, sets, c);
        BuildingParts(defs, sets, base, cloned, from.key, c);
        i := i + 1;
      }
      BuildingParts(defs, sets, base, cloned, from.key, UnfoldEntries(defs, src, rank, uid, i).value);
      TreeDone(defs, src, old(sets), old(origin), created, sets, origin, cloned, uid, idx, UnfoldEntries(defs, src, rank, uid, i).value);
      origin := origin[cloned := Origin(uid, idx)];
      return Some(cloned);
    }

    /** Clones the i-th item of a set into its clone. */
    method CloneItem(src: Sets, ghost rank: map<Uid, nat>, uid: Uid, i: nat, cloned: Uid, ghost base: set<Uid>, ghost idx: seq<nat>)
        returns (ok: bool, ghost now: seq<nat>)
      requires Valid() && SourceOk(defs, src, rank) && uid in src && i < |src[uid].entries|
      requires UnfoldEntries(defs, src, rank, uid, i).Some?
      requires Building(defs, sets, base, cloned, src[uid].key, UnfoldEntries(defs, src, rank, uid, i).value)
      requires Cloning(defs, src, sets, origin, base, cloned, src[uid], i, idx)
      requires KeysWithin(sets[cloned].entries, src[uid].entries[..i])
      modifies this
      ensures Valid() && Extends(old(sets) - {cloned}, sets) && Grows(old(sets), old(origin), origin)
      ensures ok == UnfoldEntries(defs, src, rank, uid, i + 1).Some?
      ensures ok ==> Building(defs, sets, base, cloned, src[uid].key, UnfoldEntries(defs, src, rank, uid, i + 1).value)
      ensures ok ==> Cloning(defs, src, sets, origin, base, cloned, src[uid], i + 1, now)
      ensures ok ==> KeysWithin(sets[cloned].entries, src[uid].entries[..i + 1])
      ensures AllClones(defs, src, Made(sets, base, cloned), origin)
      ensures ok ==> MoreFor(old(sets), sets, UnfoldEntries(defs, src, rank, uid, i).value,
                             UnfoldEntries(defs, src, rank, uid, i + 1).value)
      decreases rank[uid], 1, 0
    {
      hide More, MoreFor, BranchesSize, Unfolds, EntryUnfolds, AllClones, SourceOk, EntriesUnfold, Keys, KeysWithin, Put, Building, Made, Cloning, Extends, DefsOk;
      now := idx;
      var fromItem, setKey := src[uid].entries[i], src[uid].key;
      var kind := KindOf(defs, setKey, fromItem.key);
      SourceParts(defs, src, rank);
      BuildingParts(defs, sets, base, cloned, setKey, UnfoldEntries(defs, src, rank, uid, i).value);
      CloningParts(defs, src, sets, origin, base, cloned, src[uid], i, idx);
      KeysGrow(src, uid, i, sets[cloned].entries, fromItem.value);
      ExtendsSelf(sets, cloned);
      ExtendsSame(sets, origin);
      SameNumber(sets);
      NoneFor(sets, UnfoldEntries(defs, src, rank, uid, i).value);
      if kind.None? {
        return false, idx;
      } else if kind.value.Weak? {
        CloningSkips(defs, src, sets, origin, base, cloned, src[uid], i, idx);
        return true, idx;
      } else if kind.value.StrongArray? {
        ok, now := CloneRefs(src, rank, uid, i, cloned, base, idx);
      } else if kind.value.Strong? {
        ok, now := CloneRef(src, rank, uid, i, cloned, base, idx);
      } else if fromItem.key != INSTANCE_UID_KEY && fromItem.key != GENERATION_UID_KEY {
        ghost var b, f := UnfoldEntries(defs, src, rank, uid, i).value, sets[cloned].entries;
        KeyIsNew(defs, src, uid, i, f);
        PutNew(f, fromItem.key, fromItem.value);
        PlainUnfolds(defs, Made(sets, base, cloned), setKey, fromItem);
        ItemAdded(defs, sets, base, cloned, setKey, b, fromItem, Leaf(fromItem.key, fromItem.value));
        CloningNext(defs, src, sets, origin, base, cloned, src[uid], i, idx, fromItem);
        ExtendsFrom(old(sets), sets, sets[cloned := Node(setKey, f + [fromItem])], cloned);
        MoreKept(sets, 0, sets, cloned, Node(setKey, f + [fromItem]));
        MoreForItem(sets, sets[cloned := Node(setKey, f + [fromItem])], 0, b, Leaf(fromItem.key, fromItem.value));
        PutItem(cloned, fromItem.key, fromItem.value);
        BuildingParts(defs, sets, base, cloned, setKey, b + [Leaf(fromItem.key, fromItem.value)]);
        CloningParts(defs, src, sets, origin, base, cloned, src[uid], i + 1, idx + [i]);
        return true, idx + [i];
      } else {
        CloningSkips(defs, src, sets, origin, base, cloned, src[uid], i, idx);
        return true, idx;
      }
    }

    /** Clones the set an item refers to and then the item. */
    method CloneRef(src: Sets, ghost rank: map<Uid, nat>, uid: Uid, i: nat, cloned: Uid, ghost base: set<Uid>, ghost idx: seq<nat>)
        returns (ok: bool, ghost now: seq<nat>)
      requires Valid() && SourceOk(defs, src, rank) && uid in src && i < |src[uid].entries|
      requires KindOf(defs, src[uid].key, src[uid].entries[i].key) == Some(Strong)
      requires UnfoldEntries(defs, src, rank, uid, i).Some?
      requires Building(defs, sets, base, cloned, src[uid].key, UnfoldEntries(defs, src, rank, uid, i).value)
      requires Cloning(defs, src, sets, origin, base, cloned, src[uid], i, idx)
      requires KeysWithin(sets[cloned].entries, src[uid].entries[..i])
      modifies this
      ensures Valid() && Extends(old(sets) - {cloned}, sets) && Grows(old(sets), old(origin), origin)
      ensures ok == UnfoldEntries(defs, src, rank, uid, i + 1).Some?
      ensures ok ==> Building(defs, sets, base, cloned, src[uid].key, UnfoldEntries(defs, src, rank, uid, i + 1).value)
      ensures ok ==> Cloning(defs, src, sets, origin, base, cloned, src[uid], i + 1, now)
      ensures ok ==> KeysWithin(sets[cloned].entries, src[uid].entries[..i + 1])
      ensures AllClones(defs, src, Made(sets, base, cloned), origin)
      ensures ok ==> MoreFor(old(sets), sets, UnfoldEntries(defs, src, rank, uid, i).value,
                             UnfoldEntries(defs, src, rank, uid, i + 1).value)
      decreases rank[uid], 0, 0
    {
      hide More, MoreFor, BranchesSize, Size, Unfolds, AllClones, SourceOk, EntriesUnfold, Keys, KeysWithin, Put, Building, Dropped, Extends, Cloning, Made, Grows;
      now := idx;
      var fromItem, setKey := src[uid].entries[i], src[uid].key;
      ghost var b := UnfoldEntries(defs, src, rank, uid, i).value;
      SourceParts(defs, src, rank);
      BuildingParts(defs, sets, base, cloned, setKey, b);
      ghost var f := sets[cloned].entries;
      StrongKept(defs, setKey, fromItem.key);
      CloningParts(defs, src, sets, origin, base, cloned, src[uid], i, idx);
      ExtendsSame(sets, origin);
      if fromItem.value.uid !in src {
        ExtendsSelf(sets, cloned);
        return false, idx;
      }
      var toRef := CloneTree(src, rank, fromItem.value.uid);
      GrowsExtends(old(sets), old(origin), origin);
      StillCloning(defs, src, old(sets), old(origin), sets, origin, base, cloned, src[uid], i, idx);
      CloningParts(defs, src, sets, origin, base, cloned, src[uid], i, idx);
      ExtendsFrom(old(sets), sets, sets, cloned);
      StillBuilding(defs, old(sets), sets, base, cloned, setKey, b);
      BuildingParts(defs, sets, base, cloned, setKey, b);
      if toRef.None? {
        return false, idx;
      }
      var tree := Unfold(defs, src, rank, fromItem.value.uid).value;
      var e := Entry(fromItem.key, Ref(toRef.value));
      MadeFrom(old(sets), sets, base, cloned);
      MoreSets(defs, sets - old(sets).Keys, Made(sets, base, cloned), toRef.value, tree);
      KeyIsNew(defs, src, uid, i, f);
      ExtendsAt(old(sets), sets, cloned);
      KeysGrow(src, uid, i, f, e.value);
      PutNew(f, fromItem.key, e.value);
      ItemAdded(defs, sets, base, cloned, setKey, b, e, Child(fromItem.key, tree));
      RefStays(sets - old(sets).Keys, Made(sets, base, cloned), origin, fromItem.value.uid, toRef.value);
      CloningNext(defs, src, sets, origin, base, cloned, src[uid], i, idx, e);
      ExtendsFrom(old(sets), sets, sets[cloned := Node(setKey, f + [e])], cloned);
      MoreKept(old(sets), Size(tree), sets, cloned, Node(setKey, f + [e]));
      MoreForItem(old(sets), sets[cloned := Node(setKey, f + [e])], Size(tree), b, Child(fromItem.key, tree));
      PutItem(cloned, fromItem.key, e.value);
      BuildingParts(defs, sets, base, cloned, setKey, b + [Child(fromItem.key, tree)]);
      CloningParts(defs, src, sets, origin, base, cloned, src[uid], i + 1, idx + [i]);
      return true, idx + [i];
    }

    /** Clones the sets an array item refers to, filling in the cloned array one by one. */
    method CloneRefs(src: Sets, ghost rank: map<Uid, nat>, uid: Uid, i: nat, cloned: Uid, ghost base: set<Uid>, ghost idx: seq<nat>)
        returns (ok: bool, ghost now: seq<nat>)
      requires Valid() && SourceOk(defs, src, rank) && uid in src && i < |src[uid].entries|
      requires KindOf(defs, src[uid].key, src[uid].entries[i].key) == Some(StrongArray)
      requires UnfoldEntries(defs, src, rank, uid, i).Some?
      requires Building(defs, sets, base, cloned, src[uid].key, UnfoldEntries(defs, src, rank, uid, i).value)
      requires Cloning(defs, src, sets, origin, base, cloned, src[uid], i, idx)
      requires KeysWithin(sets[cloned].entries, src[uid].entries[..i])
      modifies this
      ensures Valid() && Extends(old(sets) - {cloned}, sets) && Grows(old(sets), old(origin), origin)
      ensures ok == UnfoldEntries(defs, src, rank, uid, i + 1).Some?
      ensures ok ==> Building(defs, sets, base, cloned, src[uid].key, UnfoldEntries(defs, src, rank, uid, i + 1).value)
      ensures ok ==> Cloning(defs, src, sets, origin, base, cloned, src[uid], i + 1, now)
      ensures ok ==> KeysWithin(sets[cloned].entries, src[uid].entries[..i + 1])
      ensures AllClones(defs, src, Made(sets, base, cloned), origin)
      ensures ok ==> MoreFor(old(sets), sets, UnfoldEntries(defs, src, rank, uid, i).value,
                             UnfoldEntries(defs, src, rank, uid, i + 1).value)
      decreases rank[uid], 0, 0
    {
      hide UnfoldEntries, UnfoldEntry, Unfold, Wanted, EntryCloned, More, MoreFor, MoreTrees, BranchesSize, TreesSize, Size, Unfolds, AllClones, Cloning, Grows, RefCloned, SourceOk, EntriesUnfold, Keys, KeysWithin, Put, Building, Dropped, Extends, RefsUnfold, UnfoldRefs, Acyclic, Shaped, DistinctKeys, Made, DefsOk;
      now := idx;
      LowerRank(defs, src, rank, uid, i);
      UnfoldArray(defs, src, rank, uid, i);
      var fromItem, setKey := src[uid].entries[i], src[uid].key;
      ghost var b := UnfoldEntries(defs, src, rank, uid, i).value;
      SourceParts(defs, src, rank);
      BuildingParts(defs, sets, base, cloned, setKey, b);
      ghost var f := sets[cloned].entries;
      StrongKept(defs, setKey, fromItem.key);
      KeyIsNew(defs, src, uid, i, f);
      var uids := fromItem.value.uids;
      var elements: seq<Uid> := seq(|uids|, _ => 0);
      PutNew(f, fromItem.key, Refs(elements));
      PutItem(cloned, fromItem.key, Refs(elements));
      ghost var rest: Sets := old(sets);
      NoRefs(defs, src, rank, uid, i, rest, base, cloned, elements);
      ExtendsSelf(rest, cloned);
      ExtendsSame(rest, origin);
      NoTrees(rest, cloned, sets[cloned]);
      var k := 0;
      while k < |uids|
        invariant 0 <= k <= |uids| == |elements| && Valid() && Extends(old(sets) - {cloned}, rest)
        invariant Building(defs, rest, base, cloned, setKey, b) && cloned in rest && rest[cloned].entries == f
        invariant Cloning(defs, src, rest, origin, base, cloned, src[uid], i, idx) && Grows(old(sets), old(origin), origin)
        invariant forall j | 0 <= j < k :: RefCloned(Made(rest, base, cloned), origin, uids[j], elements[j])
        invariant sets == rest[cloned := Node(setKey, f + [Entry(fromItem.key, Refs(elements))])]
        invariant UnfoldRefs(defs, src, rank, uid, i, k).Some?
        invariant MoreTrees(old(sets), sets, UnfoldRefs(defs, src, rank, uid, i, k).value)
        invariant RefsUnfold(defs, Made(rest, base, cloned), elements[..k], UnfoldRefs(defs, src, rank, uid, i, k).value)
      {
        var r := uids[k];
        BuildingParts(defs, rest, base, cloned, setKey, b);
        CloningParts(defs, src, rest, origin, base, cloned, src[uid], i, idx);
        SameMade(rest, sets, base, cloned);
        if r !in src {
          RefStep(defs, src, rank, uid, i, k);
          RefsFail(defs, src, rank, uid, i, k + 1, |uids|);
          ExtendsFrom(old(sets), rest, sets, cloned);
          return false, idx;
        }
        ghost var before, o := sets, origin;
        var toRef := CloneTree(src, rank, r);
        ghost var after: Sets := sets[cloned := Node(setKey, f)];
        RestKept(defs, src, old(sets), old(origin), rest, o, before, sets, origin, after, base, cloned, src[uid], b, i, idx);
        RefStep(defs, src, rank, uid, i, k);
        if toRef.None? {
          RefsFail(defs, src, rank, uid, i, k + 1, |uids|);
          ExtendsFrom(old(sets), after, sets, cloned);
          return false, idx;
        }
        ElementCloned(defs, rest, o, before, sets, origin, after, base, cloned, uids, elements, k, toRef.value,
                      UnfoldRefs(defs, src, rank, uid, i, k).value, Unfold(defs, src, rank, r).value);
        PutLast(f, fromItem.key, Refs(elements), Refs(elements[k := toRef.value]));
        elements := elements[k := toRef.value];
        OneMoreTree(old(sets), before, sets, cloned, Node(setKey, f + [Entry(fromItem.key, Refs(elements))]),
                    UnfoldRefs(defs, src, rank, uid, i, k).value, Unfold(defs, src, rank, r).value);
        Overwritten(sets, cloned, Node(setKey, f), Node(setKey, f + [Entry(fromItem.key, Refs(elements))]));
        PutItem(cloned, fromItem.key, Refs(elements));
        rest := after;
        k := k + 1;
      }
      ghost var trees := UnfoldRefs(defs, src, rank, uid, i, k).value;
      var e := Entry(fromItem.key, Refs(elements));
      assert elements[..k] == elements;
      MoreForTrees(old(sets), sets, b, fromItem.key, trees);
      KeysGrow(src, uid, i, f, e.value);
      ItemAdded(defs, rest, base, cloned, setKey, b, e, Children(fromItem.key, trees));
      BuildingParts(defs, sets, base, cloned, setKey, b + [Children(fromItem.key, trees)]);
      ArrayCloned(defs, Made(rest, base, cloned), origin, setKey, fromItem, elements);
      CloningNext(defs, src, rest, origin, base, cloned, src[uid], i, idx, e);
      CloningParts(defs, src, sets, origin, base, cloned, src[uid], i + 1, idx + [i]);
      ExtendsFrom(old(sets), rest, sets, cloned);
      return true, idx + [i];
    }

    /** Clones a set and all it refers to strongly.  It succeeds exactly if the set is one of sets that are known with
        all their items and whose strong references lead to sets among them. */
    method CloneSet(src: Sets, ghost rank: map<Uid, nat>, uid: Uid) returns (r: Option<Uid>)
      requires Valid() && SourceOk(defs, src, rank) && uid in src
      modifies this
      ensures Valid() && forall v | v in old(sets) :: v in sets && sets[v] == old(sets)[v]
      ensures r.Some? <==> exists among: set<Uid> :: uid in among && forall u | u in among ::
                             && u in src && src[u].key in defs.sets
                             && forall i | 0 <= i < |src[u].entries| ::
                                  var e := src[u].entries[i];
                                  && (src[u].key, e.key) in defs.items
                                  && (defs.items[(src[u].key, e.key)] == Strong ==> e.value.Ref? && e.value.uid in among)
                                  && (defs.items[(src[u].key, e.key)] == StrongArray ==>
                                        e.value.Refs? && forall j | 0 <= j < |e.value.uids| :: e.value.uids[j] in among)
      ensures r.Some? ==> r.value in sets && r.value !in old(sets) && r.value in origin && origin[r.value].uid == uid
      // every new set is a clone: it has its instance UID and behind it as many items as were cloned
      ensures forall v | v in sets && v !in old(sets) ::
                && v in origin && origin[v].uid in src && sets[v].key == src[origin[v].uid].key
                && |sets[v].entries| == 1 + |origin[v].items| && sets[v].entries[0] == Entry(INSTANCE_UID_KEY, Ref(v))
      // these are, in their order, the items that are no weak references and neither InstanceUID nor GenerationUID
      ensures forall v, i, j | v in sets && v !in old(sets) && 0 <= i < j < |origin[v].items| :: origin[v].items[i] < origin[v].items[j]
      ensures forall v, i: nat | v in sets && v !in old(sets) ::
                var from := src[origin[v].uid];
                i in origin[v].items <==>
                  && i < |from.entries| && (from.key, from.entries[i].key) in defs.items
                  && defs.items[(from.key, from.entries[i].key)] != Weak
                  && !(defs.items[(from.key, from.entries[i].key)] == Plain
                       && from.entries[i].key in {INSTANCE_UID_KEY, GENERATION_UID_KEY})
      // each has its key and its value, or references to new sets that are clones of the sets referred to
      ensures forall v, j | v in sets && v !in old(sets) && 0 <= j < |origin[v].items| ::
                var from := src[origin[v].uid];
                && origin[v].items[j] < |from.entries|
                && var e, c := from.entries[origin[v].items[j]], sets[v].entries[j + 1];
                && c.key == e.key && (from.key, e.key) in defs.items
                && match defs.items[(from.key, e.key)]
                   case Plain => c.value == e.value
                   case Strong =>
                     && e.value.Ref? && c.value.Ref? && c.value.uid in sets && c.value.uid !in old(sets)
                     && origin[c.value.uid].uid == e.value.uid
                   case StrongArray =>
                     && e.value.Refs? && c.value.Refs? && |c.value.uids| == |e.value.uids|
                     && forall k | 0 <= k < |e.value.uids| ::
                          && c.value.uids[k] in sets && c.value.uids[k] !in old(sets)
                          && origin[c.value.uids[k]].uid == e.value.uids[k]
                   case Weak => false
    {
      hide Unfold, Unfolds, SourceOk, DefsOk, Grows, Size, More;
      UnfoldsExactly(defs, src, rank, uid);
      r := CloneTree(src, rank, uid);
      assert forall v :: v in sets && v !in old(sets) <==> v in sets - old(sets).Keys;
    }
  }
}
