/** Finding sets by instance UID from where the last one was found. */
module SetsIterator {
  import opened Wrappers

  type Uid = nat

  /** The place of the first set with the UID. */
  function Dereference(list: seq<Uid>, uid: Uid): (r: Option<nat>)
    ensures r.Some? <==> uid in list
    ensures r.Some? ==> r.value < |list| && list[r.value] == uid && uid !in list[..r.value]
  {
    if list == [] then None
    else if list[0] == uid then Some(0)
    else match Dereference(list[1..], uid)
      case None => None
      case Some(k) =>
        assert list[..k + 1] == [list[0]] + list[1..][..k];
        Some(k + 1)
  }

  /** Where a search from `start` round the end of the list finds the UID first. */
  function FindFrom(list: seq<Uid>, start: nat, uid: Uid): (r: Option<nat>)
    requires start <= |list|
    ensures r.Some? ==> r.value < |list|
  {
    match Dereference(list[start..], uid)
    case Some(k) => Some(start + k)
    case None => Dereference(list[..start], uid)
  }

  predicate Unique(list: seq<Uid>)
  {
    forall i, j | 0 <= i < j < |list| :: list[i] != list[j]
  }

  /** Where the search starts does not matter for a UID if and only if that UID does not occur on both sides of the
      start. */
  lemma StartMattersExactly(list: seq<Uid>, start: nat, uid: Uid)
    requires start <= |list|
    ensures FindFrom(list, start, uid) == Dereference(list, uid) <==> uid !in list[..start] || uid !in list[start..]
  {
    hide Dereference;
    SplitMembers(list, start, uid);
    if uid in list[..start] {
      var k := Dereference(list[..start], uid).value;
      assert list[..k] == list[..start][..k];
      FoundAt(list, k, uid);
    } else if uid in list[start..] {
      var k := Dereference(list[start..], uid).value;
      assert list[..start + k] == list[..start] + list[start..][..k];
      FoundAt(list, start + k, uid);
    }
  }

  /** With unique UIDs it does not matter for any. */
  lemma StartDoesNotMatter(list: seq<Uid>, start: nat, uid: Uid)
    requires start <= |list| && Unique(list)
    ensures FindFrom(list, start, uid) == Dereference(list, uid)
  {
    hide Dereference;
    StartMattersExactly(list, start, uid);
    forall k | 0 <= k < |list| - start
      ensures list[start..][k] !in list[..start]
    {
      assert list[start..][k] == list[start + k];
    }
  }

  /** A UID that occurs twice, looked for from its second place. */
  lemma StartMatters()
    ensures FindFrom([7, 7], 1, 7) != Dereference([7, 7], 7)
  {
    assert [7, 7][1..] == [7] && [7, 7][..1] == [7] && 7 in [7];
    StartMattersExactly([7, 7], 1, 7);
  }

  /** Nothing before k is the one looked for. */
  lemma FoundAt(list: seq<Uid>, k: nat, uid: Uid)
    requires k < |list| && list[k] == uid && uid !in list[..k]
    ensures Dereference(list, uid) == Some(k)
  {
  }

  /** An iterator over a list: the element it is on, if any, and the one that comes next. */
  class ListIterator {
    var next: nat
    var index: Option<nat>

    constructor ()
      ensures next == 0 && index == None
    {
      next, index := 0, None;
    }

    /** On an element, before the first one, or behind the last one. */
    predicate Valid(list: seq<Uid>)
      reads this
    {
      match index
      case None => next == 0 || next == |list|
      case Some(i) => next == i + 1 <= |list|
    }

    method Start()
      modifies this
      ensures next == 0 && index == None
    {
      next, index := 0, None;
    }

    method CopyFrom(otherNext: nat, otherIndex: Option<nat>)
      modifies this
      ensures next == otherNext && index == otherIndex
    {
      next, index := otherNext, otherIndex;
    }

    method Next(list: seq<Uid>) returns (more: bool)
      requires Valid(list)
      modifies this
      ensures Valid(list) && more == (old(next) < |list|)
      ensures more ==> index == Some(old(next)) && next == old(next) + 1
      ensures !more ==> index == None && next == old(next)
    {
      if next < |list| {
        index, next := Some(if index.Some? then index.value + 1 else 0), next + 1;
        return true;
      }
      index := None;
      return false;
    }
  }

  /** Looks for the UID from the iterator on to the end of the list. */
  method SearchOn(list: seq<Uid>, iter: ListIterator, ghost start: nat, uid: Uid) returns (r: Option<nat>)
    requires iter.Valid(list) && start <= iter.next <= |list| && uid !in list[start..iter.next]
    modifies iter
    ensures r == if uid in list[start..] then Some(start + Dereference(list[start..], uid).value) else None
    ensures iter.Valid(list) && (r.Some? ==> iter.index == r)
  {
    hide Dereference;
    var more := iter.Next(list);
    assert list[start..|list|] == list[start..];
    while more
      invariant iter.Valid(list) && more == iter.index.Some?
      invariant more ==> start <= iter.index.value && uid !in list[start..iter.index.value]
      invariant !more ==> uid !in list[start..]
      decreases |list| - iter.next, more
    {
      var k := iter.index.value;
      if list[k] == uid {
        assert list[start..][..k - start] == list[start..k];
        FoundAt(list[start..], k - start, uid);
        return Some(k);
      }
      assert list[start..k + 1] == list[start..k] + [list[k]];
      more := iter.Next(list);
    }
    return None;
  }

  /** Looks for the UID from the start of the list up to the element it was first looked for at. */
  method SearchBefore(list: seq<Uid>, iter: ListIterator, startIndex: Option<nat>, uid: Uid) returns (r: Option<nat>)
    requires startIndex.Some? ==> startIndex.value <= |list|
    modifies iter
    ensures var part := if startIndex.Some? then list[..startIndex.value] else list; r == Dereference(part, uid)
    ensures iter.Valid(list) && (r.Some? ==> iter.index == r)
  {
    hide Dereference;
    iter.Start();
    var more := iter.Next(list);
    assert list[..|list|] == list;
    while more && (startIndex.None? || iter.index.value < startIndex.value)
      invariant iter.Valid(list) && more == iter.index.Some?
      invariant more ==> uid !in list[..iter.index.value] && (startIndex.Some? ==> iter.index.value <= startIndex.value)
      invariant !more ==> uid !in list
      decreases |list| - iter.next, more
    {
      var k := iter.index.value;
      if list[k] == uid {
        FoundAt(list, k, uid);
        if startIndex.Some? {
          assert list[..startIndex.value][..k] == list[..k];
          FoundAt(list[..startIndex.value], k, uid);
        }
        return Some(k);
      }
      assert list[..k + 1] == list[..k] + [list[k]];
      more := iter.Next(list);
    }
    return None;
  }

  /** Looks for a set at the iterator's element, then behind it, then from the start of the list up to it. */
  method DereferenceFrom(list: seq<Uid>, iter: ListIterator, uid: Uid) returns (r: Option<nat>)
    requires iter.Valid(list)
    modifies iter
    ensures r == FindFrom(list, if old(iter.index).Some? then old(iter.index).value else old(iter.next), uid)
    ensures r.Some? <==> uid in list
    ensures var start := if old(iter.index).Some? then old(iter.index).value else old(iter.next);
            r == Dereference(list, uid) <==> uid !in list[..start] || uid !in list[start..]
    ensures Unique(list) ==> r == Dereference(list, uid)
    ensures r.Some? ==> iter.Valid(list) && iter.index == r
    ensures r.None? ==> iter.next == old(iter.next) && iter.index == old(iter.index)
  {
    hide Dereference, Unique;
    var startIndex, origNext := iter.index, iter.next;
    ghost var start := if startIndex.Some? then startIndex.value else origNext;
    StartMattersExactly(list, start, uid);
    if Unique(list) {
      StartDoesNotMatter(list, start, uid);
    }
    SplitMembers(list, start, uid);
    if startIndex.Some? && list[startIndex.value] == uid {
      FoundAt(list[start..], 0, uid);
      return startIndex;
    }
    assert startIndex.Some? ==> list[start..start + 1] == [list[start]];
    r := SearchOn(list, iter, start, uid);
    if r.Some? {
      return;
    }
    r := SearchBefore(list, iter, startIndex, uid);
    WholeList(list, start, uid);
    if r.None? {
      iter.CopyFrom(origNext, startIndex);
    }
  }

  lemma WholeList(list: seq<Uid>, start: nat, uid: Uid)
    requires start <= |list|
    ensures start == 0 && uid !in list[start..] ==> Dereference(list, uid) == Dereference(list[..start], uid)
    ensures start == |list| ==> Dereference(list, uid) == Dereference(list[..start], uid)
  {
    assert start == 0 ==> list[start..] == list;
    assert start == |list| ==> list[..start] == list;
  }

  lemma SplitMembers(list: seq<Uid>, start: nat, uid: Uid)
    requires start <= |list|
    ensures uid in list <==> uid in list[..start] || uid in list[start..]
  {
    assert list == list[..start] + list[start..];
  }
}
