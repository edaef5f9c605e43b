/** One file kept as many page files on disk, of which only the most recently used are open. */
module PageModel {
  import opened Bytes
  import opened Grid

  /** The page files' bytes are the file's, cut into pages; only the last page may be short. */
  ghost predicate Paged(files: seq<seq<byte>>, ps: nat, contents: seq<byte>)
  {
    && (forall k | 0 <= k < |files| :: files[k] == Extract(contents, Pos(k, ps), ps))
    && |contents| <= Pos(|files|, ps)
    && if |files| == 0 then contents == [] else Pos(|files| - 1, ps) <= |contents|
  }

  /** All pages but the last are full, and the last one ends the file. */
  lemma PageLengths(files: seq<seq<byte>>, ps: nat, contents: seq<byte>)
    requires Paged(files, ps, contents)
    ensures forall k | 0 <= k < |files| - 1 :: |files[k]| == ps
    ensures |files| > 0 ==> |files[|files| - 1]| <= ps
                            && Pos(|files| - 1, ps) + |files[|files| - 1]| == |contents|
  {
    hide Pos;
    if |files| > 0 {
      var n := |files|;
      PosNext(n - 1, ps);
      assert files[n - 1] == Extract(contents, Pos(n - 1, ps), ps);
      forall k | 0 <= k < n - 1
        ensures |files[k]| == ps
      {
        PosMono(k, n - 1, ps);
        assert files[k] == Extract(contents, Pos(k, ps), ps);
      }
    }
  }

  lemma EmptyFile(files: seq<seq<byte>>, ps: nat, contents: seq<byte>)
    requires Paged(files, ps, contents) && files == []
    ensures contents == []
  {
  }

  /** A new, empty last page behind full pages changes nothing. */
  lemma AddPage(files: seq<seq<byte>>, ps: nat, contents: seq<byte>)
    requires Paged(files, ps, contents) && |contents| == Pos(|files|, ps)
    ensures Paged(files + [[]], ps, contents)
  {
    hide Pos;
    PosNext(|files|, ps);
  }

  /** Writing inside one page, at or before the file's end, is one flat write. */
  lemma WriteKeepsPaged(files: seq<seq<byte>>, ps: nat, contents: seq<byte>, i: nat, o: nat, b: seq<byte>)
    requires Paged(files, ps, contents) && i < |files| && b != [] && o + |b| <= ps && Pos(i, ps) + o <= |contents|
    ensures Paged(files[i := Splice(files[i], o, b)], ps, Splice(contents, Pos(i, ps) + o, b))
  {
    hide Pos, Splice, Extract;
    var w, c := files[i := Splice(files[i], o, b)], Splice(contents, Pos(i, ps) + o, b);
    PosNext(i, ps);
    PosMono(i + 1, |files|, ps);
    forall k | 0 <= k < |files|
      ensures w[k] == Extract(c, Pos(k, ps), ps)
    {
      assert files[k] == Extract(contents, Pos(k, ps), ps);
      if k == i {
        SpliceExtractPage(contents, Pos(i, ps), ps, o, b);
      } else {
        if k < i {
          PosMono(k, i, ps);
        } else {
          PosMono(i, k, ps);
        }
        OtherPage(contents, Pos(i, ps) + o, b, Pos(k, ps), ps);
      }
    }
  }

  /** What a page file yields is what the flat file yields. */
  lemma ReadInPage(files: seq<seq<byte>>, ps: nat, contents: seq<byte>, i: nat, o: nat, n: nat)
    requires Paged(files, ps, contents) && i < |files| && o + n <= ps
    ensures Extract(files[i], o, n) == Extract(contents, Pos(i, ps) + o, n)
  {
    hide Pos;
    assert files[i] == Extract(contents, Pos(i, ps), ps);
  }

  lemma SpliceExtractPage(d: seq<byte>, at: nat, ps: nat, o: nat, b: seq<byte>)
    requires b != [] && o + |b| <= ps && at + o <= |d|
    ensures Splice(Extract(d, at, ps), o, b) == Extract(Splice(d, at + o, b), at, ps)
  {
    hide Splice;
    var l, r := Splice(Extract(d, at, ps), o, b), Extract(Splice(d, at + o, b), at, ps);
    assert |l| == |r|;
    assert forall k | 0 <= k < |l| :: l[k] == r[k];
  }

  lemma OtherPage(d: seq<byte>, w: nat, b: seq<byte>, at: nat, ps: nat)
    requires b != [] && w <= |d| && (at + ps <= w || w + |b| <= at)
    requires w + |b| <= at ==> w + |b| <= |d| || at >= w + |b|
    ensures Extract(Splice(d, w, b), at, ps) == Extract(d, at, ps)
  {
    hide Splice;
    var l, r := Extract(Splice(d, w, b), at, ps), Extract(d, at, ps);
    assert |l| == |r|;
    assert forall k | 0 <= k < |l| :: l[k] == r[k];
  }

  /* ---- Which pages stay open ---- */

  function Remove(order: seq<nat>, k: nat): seq<nat>
  {
    if order == [] then []
    else Remove(order[..|order| - 1], k) + if order[|order| - 1] == k then [] else [order[|order| - 1]]
  }

  /** Using page k: an open page moves to the end; otherwise the first page makes room if all descriptors
      are taken. */
  function Touch(order: seq<nat>, k: nat, max: nat): seq<nat>
  {
    if k in order then Remove(order, k) + [k]
    else (if |order| >= max && order != [] then order[1..] else order) + [k]
  }

  /** The pages open after a history of uses. */
  function OpenAfter(uses: seq<nat>, max: nat): seq<nat>
  {
    if uses == [] then [] else Touch(OpenAfter(uses[..|uses| - 1], max), uses[|uses| - 1], max)
  }

  lemma OneMoreUse(uses: seq<nat>, k: nat, max: nat)
    ensures OpenAfter(uses + [k], max) == Touch(OpenAfter(uses, max), k, max)
  {
    assert (uses + [k])[..|uses|] == uses;
  }

  /** The reference: all pages ever used, by their last use, the most recent at the end. */
  function ByLastUse(uses: seq<nat>): seq<nat>
  {
    if uses == [] then [] else Remove(ByLastUse(uses[..|uses| - 1]), uses[|uses| - 1]) + [uses[|uses| - 1]]
  }

  function LastN(s: seq<nat>, n: nat): seq<nat>
  {
    if |s| <= n then s else s[|s| - n..]
  }

  predicate Distinct(s: seq<nat>)
  {
    forall i, j | 0 <= i < j < |s| :: s[i] != s[j]
  }

  lemma {:induction false} RemoveAbsent(s: seq<nat>, k: nat)
    ensures k !in s ==> Remove(s, k) == s
    ensures k !in Remove(s, k)
    ensures forall x :: x in Remove(s, k) <==> x in s && x != k
  {
    if s != [] {
      RemoveAbsent(s[..|s| - 1], k);
      assert s == s[..|s| - 1] + [s[|s| - 1]];
    }
  }

  lemma FrontDistinct(s: seq<nat>)
    requires Distinct(s) && s != []
    ensures Distinct(s[..|s| - 1]) && s[|s| - 1] !in s[..|s| - 1]
  {
  }

  lemma AppendDistinct(s: seq<nat>, x: nat)
    requires Distinct(s) && x !in s
    ensures Distinct(s + [x]) && s + [] == s
  {
  }

  lemma {:induction false} RemoveDistinct(s: seq<nat>, k: nat)
    requires Distinct(s)
    ensures Distinct(Remove(s, k)) && |Remove(s, k)| == |s| - (if k in s then 1 else 0)
  {
    hide Distinct;
    if s != [] {
      var f, x := s[..|s| - 1], s[|s| - 1];
      FrontDistinct(s);
      RemoveDistinct(f, k);
      RemoveAbsent(f, k);
      AppendDistinct(Remove(f, k), x);
      assert s == f + [x];
    }
  }

  /** In a list without repetitions, removing is cutting out one place. */
  lemma {:induction false} RemoveAt(s: seq<nat>, i: nat)
    requires Distinct(s) && i < |s|
    ensures Remove(s, s[i]) == s[..i] + s[i + 1..]
  {
    var f, x := s[..|s| - 1], s[|s| - 1];
    assert s == f + [x];
    if i == |s| - 1 {
      RemoveAbsent(f, x);
    } else {
      RemoveAt(f, i);
      assert f[i] == s[i];
      assert s[i + 1..] == f[i + 1..] + [x];
    }
  }

  lemma IndexInLast(s: seq<nat>, n: nat, i: nat)
    requires Distinct(s) && i < |s|
    ensures s[i] in LastN(s, n) <==> i >= |s| - |LastN(s, n)|
  {
    var t := LastN(s, n);
    if i >= |s| - |t| {
      assert t[i - (|s| - |t|)] == s[i];
    }
    if s[i] in t {
      var x :| 0 <= x < |t| && t[x] == s[i];
      assert s[x + (|s| - |t|)] == s[i];
    }
  }

  lemma DistinctLast(s: seq<nat>, n: nat)
    requires Distinct(s)
    ensures Distinct(LastN(s, n)) && |LastN(s, n)| <= |s|
  {
  }

  /** Removing an element commutes with keeping the last n, one fewer being kept if it was among them. */
  lemma LastNRemoveIn(s: seq<nat>, k: nat, n: nat)
    requires Distinct(s) && k in LastN(s, n)
    ensures n > 0 && LastN(Remove(s, k), n - 1) == Remove(LastN(s, n), k)
  {
    hide Remove, Distinct, LastN;
    var t := LastN(s, n);
    DistinctLast(s, n);
    var j :| 0 <= j < |t| && t[j] == k;
    CutLast(s, n, j);
    RemoveAt(s, |s| - |t| + j);
    RemoveAt(t, j);
  }

  /** Cutting out one of the last n elements leaves the last n - 1 without it. */
  lemma CutLast(s: seq<nat>, n: nat, j: nat)
    requires j < |LastN(s, n)|
    ensures var t, i := LastN(s, n), |s| - |LastN(s, n)| + j;
      i >= 0 && n > 0 && s[i] == t[j] && LastN(s[..i] + s[i + 1..], n - 1) == t[..j] + t[j + 1..]
  {
    var d := |s| - |LastN(s, n)|;
    var r := s[..d + j] + s[d + j + 1..];
    DropCut(s, d, d + j);
    LastNIs(s, n, d);
    LastNIs(r, n - 1, d);
  }

  lemma LastNIs(r: seq<nat>, n: nat, d: nat)
    requires d <= |r| && ((d == 0 && |r| <= n) || |r| == d + n)
    ensures LastN(r, n) == r[d..]
  {
  }

  /** Cutting out a place behind the first d elements and dropping those d commute. */
  lemma DropCut(s: seq<nat>, d: nat, i: nat)
    requires d <= i < |s|
    ensures (s[..i] + s[i + 1..])[d..] == s[d..][..i - d] + s[d..][i - d + 1..]
  {
  }

  lemma LastNRemoveOut(s: seq<nat>, k: nat, n: nat)
    requires Distinct(s) && k !in LastN(s, n) && n > 0
    ensures LastN(Remove(s, k), n - 1) == if |s| >= n then LastN(s, n)[1..] else LastN(s, n)
  {
    hide Remove;
    var t := LastN(s, n);
    if k in s {
      var i :| 0 <= i < |s| && s[i] == k;
      IndexInLast(s, n, i);
      RemoveAt(s, i);
      var r := s[..i] + s[i + 1..];
      assert r[|r| - (n - 1)..] == s[|s| - (n - 1)..];
    } else {
      RemoveAbsent(s, k);
    }
  }

  lemma TouchKeepsLast(all: seq<nat>, k: nat, max: nat)
    requires max > 0 && Distinct(all)
    ensures Touch(LastN(all, max), k, max) == LastN(Remove(all, k) + [k], max)
  {
    hide Remove, Distinct;
    var t, r := LastN(all, max), Remove(all, k);
    if k in t {
      LastNRemoveIn(all, k, max);
    } else {
      LastNRemoveOut(all, k, max);
    }
    assert LastN(r + [k], max) == LastN(r, max - 1) + [k];
  }

  lemma {:induction false} ByLastUseDistinct(uses: seq<nat>)
    ensures Distinct(ByLastUse(uses))
  {
    if uses != [] {
      ByLastUseDistinct(uses[..|uses| - 1]);
      RemoveDistinct(ByLastUse(uses[..|uses| - 1]), uses[|uses| - 1]);
      RemoveAbsent(ByLastUse(uses[..|uses| - 1]), uses[|uses| - 1]);
    }
  }

  /** After any history the open pages are exactly the `max` most recently used ones, in order of last use; so
      the page closed to make room is always the least recently used of the open ones. */
  lemma {:induction false} OpenAreMostRecent(uses: seq<nat>, max: nat)
    requires max > 0
    ensures OpenAfter(uses, max) == LastN(ByLastUse(uses), max)
  {
    if uses != [] {
      var f, k := uses[..|uses| - 1], uses[|uses| - 1];
      var all := ByLastUse(f);
      OpenAreMostRecent(f, max);
      ByLastUseDistinct(f);
      TouchKeepsLast(all, k, max);
    }
  }
}

module PageFile {
  import opened Wrappers
  import opened Bytes
  import opened Grid
  import opened MxfFile
  import opened PageModel

  const MAX_FILE_DESCRIPTORS: nat := 32

  const PAGE_ALLOC_INCR: nat := 64

  datatype Mode = ReadMode | WriteMode | ModifyMode

  /** An open page file: a node of the descriptor list, the page it belongs to and the stream position. */
  class FileDescriptor {
    var prev: FileDescriptor?
    var next: FileDescriptor?
    var page: Page
    var filePos: nat

    constructor (p: Page)
      ensures page == p && prev == null && next == null && filePos == 0
    {
      page, prev, next, filePos := p, null, null, 0;
    }
  }

  /** What is known of a page file, open or not. */
  class Page {
    var fileDescriptor: FileDescriptor?
    var wasOpenedBefore: bool
    var index: nat
    var size: nat
    var offset: int

    constructor (index: nat, size: nat)
      ensures fileDescriptor == null && !wasOpenedBefore && this.index == index && this.size == size && offset == 0
    {
      fileDescriptor, wasOpenedBefore, offset := null, false, 0;
      this.index, this.size := index, size;
    }

    constructor Copy(p: Page)
      ensures fileDescriptor == p.fileDescriptor && wasOpenedBefore == p.wasOpenedBefore
      ensures index == p.index && size == p.size && offset == p.offset
    {
      fileDescriptor, wasOpenedBefore := p.fileDescriptor, p.wasOpenedBefore;
      index, size, offset := p.index, p.size, p.offset;
    }
  }

  /** The open descriptors, least recently used first, and the pages they belong to. */
  class DescriptorList {
    const maxDescriptors: nat
    var head: FileDescriptor?
    var tail: FileDescriptor?
    var numFileDescriptors: nat

    /** The list from head to tail. */
    ghost var nodes: seq<FileDescriptor>

    ghost predicate Linked()
      reads this, nodes`prev, nodes`next
    {
      && |nodes| == numFileDescriptors <= maxDescriptors && maxDescriptors > 0
      && (forall i, j | 0 <= i < j < |nodes| :: nodes[i] != nodes[j])
      && head == (if nodes == [] then null else nodes[0])
      && tail == (if nodes == [] then null else nodes[|nodes| - 1])
      && (nodes != [] ==> nodes[0].prev == null && nodes[|nodes| - 1].next == null)
      && (forall i {:trigger nodes[i].prev} | 1 <= i < |nodes| :: nodes[i].prev == nodes[i - 1])
      && (forall i {:trigger nodes[i].next} | 0 <= i < |nodes| - 1 :: nodes[i].next == nodes[i + 1])
    }

    constructor (max: nat)
      requires max > 0
      ensures Linked() && nodes == [] && maxDescriptors == max
    {
      maxDescriptors := max;
      head, tail, numFileDescriptors, nodes := null, null, 0, [];
    }

    /** An open descriptor becomes the most recently used. */
    method MoveToTail(fd: FileDescriptor, ghost k: nat)
      requires Linked() && k < |nodes| && nodes[k] == fd
      modifies `head, `tail, `nodes, nodes`prev, nodes`next
      ensures Linked() && nodes == ToEnd(old(nodes), k)
    {
      hide ToEnd;
      if fd == tail {
        assert nodes == ToEnd(nodes, k);
        return;
      }
      assert nodes[k].next == nodes[k + 1];
      assert k > 0 ==> nodes[k].prev == nodes[k - 1];
      if fd.next != null {
        fd.next.prev := fd.prev;
      }
      if fd.prev != null {
        fd.prev.next := fd.next;
      }
      if head == fd {
        head := fd.next;
      }
      fd.next := null;
      fd.prev := tail;
      if tail != null {
        tail.next := fd;
      }
      tail := fd;
      nodes := ToEnd(nodes, k);
    }

    /** Closes the least recently used descriptor. */
    method CloseHead(ghost page: Page)
      requires Linked() && nodes != [] && nodes[0].page == page
      modifies `head, `tail, `numFileDescriptors, `nodes, nodes`prev, page`fileDescriptor
      ensures Linked() && nodes == old(nodes[1..])
      ensures page.fileDescriptor == null
    {
      assert |nodes| > 1 ==> nodes[0].next == nodes[1];
      head.page.fileDescriptor := null;
      if tail == head {
        head, tail := null, null;
        numFileDescriptors := numFileDescriptors - 1;
      } else {
        var newHead := head.next;
        head := newHead;
        newHead.prev := null;
        numFileDescriptors := numFileDescriptors - 1;
      }
      nodes := nodes[1..];
    }

    /** Appends a new descriptor as the most recently used. */
    method Append(fd: FileDescriptor)
      requires Linked() && fd !in nodes && numFileDescriptors < maxDescriptors && fd.next == null
      modifies `head, `tail, `numFileDescriptors, `nodes, nodes`next, fd`prev
      ensures Linked() && nodes == old(nodes) + [fd]
    {
      if tail != null {
        tail.next := fd;
      }
      fd.prev := tail;
      tail := fd;
      if head == null {
        head := fd;
      }
      numFileDescriptors := numFileDescriptors + 1;
      nodes := nodes + [fd];
    }
  }

  /* ---- Fields of pages and descriptors as values ---- */

  ghost function Fds(pages: seq<Page>): (r: seq<FileDescriptor?>)
    reads pages`fileDescriptor
    ensures |r| == |pages| && forall k | 0 <= k < |pages| :: r[k] == pages[k].fileDescriptor
  {
    if pages == [] then [] else Fds(pages[..|pages| - 1]) + [pages[|pages| - 1].fileDescriptor]
  }

  ghost function Owners(nodes: seq<FileDescriptor>): (r: seq<Page>)
    reads nodes`page
    ensures |r| == |nodes| && forall k | 0 <= k < |nodes| :: r[k] == nodes[k].page
  {
    if nodes == [] then [] else Owners(nodes[..|nodes| - 1]) + [nodes[|nodes| - 1].page]
  }

  ghost function Streams(nodes: seq<FileDescriptor>): (r: seq<nat>)
    reads nodes`filePos
    ensures |r| == |nodes| && forall k | 0 <= k < |nodes| :: r[k] == nodes[k].filePos
  {
    if nodes == [] then [] else Streams(nodes[..|nodes| - 1]) + [nodes[|nodes| - 1].filePos]
  }

  ghost function Offsets(pages: seq<Page>): (r: seq<int>)
    reads pages`offset
    ensures |r| == |pages| && forall k | 0 <= k < |pages| :: r[k] == pages[k].offset
  {
    if pages == [] then [] else Offsets(pages[..|pages| - 1]) + [pages[|pages| - 1].offset]
  }

  /** Open descriptors and their pages point at each other; the pages without a descriptor are the others. */
  ghost predicate Backlinks(nodes: seq<FileDescriptor>, owners: seq<Page>, order: seq<nat>,
                            pages: seq<Page>, fds: seq<FileDescriptor?>)
  {
    && |order| == |nodes| == |owners| && |fds| == |pages|
    && (forall i, j | 0 <= i < j < |nodes| :: nodes[i] != nodes[j])
    && (forall i, j | 0 <= i < j < |pages| :: pages[i] != pages[j])
    && (forall i | 0 <= i < |order| :: order[i] < |pages| && owners[i] == pages[order[i]] && fds[order[i]] == nodes[i])
    && (forall k | 0 <= k < |pages| :: fds[k] != null ==> k in order)
  }

  /** The streams stand where the pages say. */
  ghost predicate Tracked(order: seq<nat>, streams: seq<nat>, offsets: seq<int>)
  {
    && |order| == |streams|
    && forall i | 0 <= i < |order| :: order[i] < |offsets| && offsets[order[i]] == streams[i]
  }

  lemma NothingOpen(pages: seq<Page>)
    requires forall k | 0 <= k < |pages| :: pages[k].fileDescriptor == null
    requires forall i, j | 0 <= i < j < |pages| :: pages[i] != pages[j]
    ensures Backlinks([], Owners([]), [], pages, Fds(pages)) && Tracked([], Streams([]), Offsets(pages))
  {
  }

  lemma NotOpen(nodes: seq<FileDescriptor>, owners: seq<Page>, order: seq<nat>, pages: seq<Page>,
                fds: seq<FileDescriptor?>, k: nat)
    requires Backlinks(nodes, owners, order, pages, fds) && k < |pages| && fds[k] == null
    ensures k !in order && |order| == |nodes|
  {
  }

  lemma OpenDistinct(nodes: seq<FileDescriptor>, owners: seq<Page>, order: seq<nat>, pages: seq<Page>, fds: seq<FileDescriptor?>)
    requires Backlinks(nodes, owners, order, pages, fds)
    ensures Distinct(order)
  {
    forall i, j | 0 <= i < j < |order|
      ensures order[i] != order[j]
    {
      assert fds[order[i]] == nodes[i] && fds[order[j]] == nodes[j];
    }
  }

  lemma OpenIndex(nodes: seq<FileDescriptor>, owners: seq<Page>, order: seq<nat>, pages: seq<Page>,
                  fds: seq<FileDescriptor?>, k: nat) returns (i: nat)
    requires Backlinks(nodes, owners, order, pages, fds) && k < |pages| && fds[k] != null
    ensures i < |order| == |nodes| && order[i] == k && nodes[i] == fds[k]
  {
    assert k in order;
    i :| i < |order| && order[i] == k;
  }

  /** s with its i-th element moved to the end. */
  function ToEnd<T>(s: seq<T>, i: nat): (r: seq<T>)
    requires i < |s|
    ensures |r| == |s|
    ensures forall j | 0 <= j < |s| :: r[j] == s[if j < i then j else if j < |s| - 1 then j + 1 else i]
  {
    s[..i] + s[i + 1..] + [s[i]]
  }

  lemma FieldsToEnd(nodes: seq<FileDescriptor>, i: nat)
    requires i < |nodes|
    ensures Owners(ToEnd(nodes, i)) == ToEnd(Owners(nodes), i) && Streams(ToEnd(nodes, i)) == ToEnd(Streams(nodes), i)
  {
    hide Owners, Streams, ToEnd;
    var n := ToEnd(nodes, i);
    forall j | 0 <= j < |nodes|
      ensures Owners(n)[j] == ToEnd(Owners(nodes), i)[j] && Streams(n)[j] == ToEnd(Streams(nodes), i)[j]
    {
      assert Owners(n)[j] == n[j].page && Streams(n)[j] == n[j].filePos;
    }
  }

  lemma FieldsAppend(nodes: seq<FileDescriptor>, fd: FileDescriptor)
    ensures Owners(nodes + [fd]) == Owners(nodes) + [fd.page] && Streams(nodes + [fd]) == Streams(nodes) + [fd.filePos]
  {
  }

  lemma InToEnd(order: seq<nat>, i: nat, k: nat)
    requires i < |order| && k in order
    ensures k in ToEnd(order, i)
  {
    assert order == order[..i] + [order[i]] + order[i + 1..];
  }

  lemma MovedLinks(nodes: seq<FileDescriptor>, owners: seq<Page>, order: seq<nat>, pages: seq<Page>,
                   fds: seq<FileDescriptor?>, i: nat)
    requires Backlinks(nodes, owners, order, pages, fds) && i < |nodes|
    ensures Backlinks(ToEnd(nodes, i), ToEnd(owners, i), ToEnd(order, i), pages, fds)
  {
    hide ToEnd;
    forall k | 0 <= k < |pages| && fds[k] != null
      ensures k in ToEnd(order, i)
    {
      InToEnd(order, i, k);
    }
  }

  lemma TouchOpen(order: seq<nat>, i: nat, max: nat)
    requires Distinct(order) && i < |order|
    ensures Touch(order, order[i], max) == ToEnd(order, i)
  {
    hide Remove;
    RemoveAt(order, i);
  }

  lemma MovedTracks(order: seq<nat>, streams: seq<nat>, offsets: seq<int>, i: nat)
    requires Tracked(order, streams, offsets) && i < |order|
    ensures Tracked(ToEnd(order, i), ToEnd(streams, i), offsets)
  {
  }

  lemma ClosedLinks(nodes: seq<FileDescriptor>, owners: seq<Page>, order: seq<nat>, pages: seq<Page>, fds: seq<FileDescriptor?>)
    requires Backlinks(nodes, owners, order, pages, fds) && nodes != []
    ensures Backlinks(nodes[1..], owners[1..], order[1..], pages, fds[order[0] := null])
  {
    OpenDistinct(nodes, owners, order, pages, fds);
    forall k | 0 <= k < |pages| && fds[order[0] := null][k] != null
      ensures k in order[1..]
    {
      assert k in order && k != order[0];
      assert order == [order[0]] + order[1..];
    }
  }

  lemma ClosedTracks(order: seq<nat>, streams: seq<nat>, offsets: seq<int>)
    requires Tracked(order, streams, offsets) && order != []
    ensures Tracked(order[1..], streams[1..], offsets)
  {
  }

  lemma AddedLinks(nodes: seq<FileDescriptor>, owners: seq<Page>, order: seq<nat>, pages: seq<Page>,
                   fds: seq<FileDescriptor?>, fd: FileDescriptor, k: nat)
    requires Backlinks(nodes, owners, order, pages, fds) && fd !in nodes && k < |pages| && fds[k] == null
    ensures k !in order
    ensures Backlinks(nodes + [fd], owners + [pages[k]], order + [k], pages, fds[k := fd])
  {
  }

  lemma AddedTracks(order: seq<nat>, streams: seq<nat>, offsets: seq<int>, k: nat)
    requires Tracked(order, streams, offsets) && k < |offsets| && k !in order
    ensures Tracked(order + [k], streams + [0], offsets[k := 0])
  {
  }

  lemma FirstLinks(nodes: seq<FileDescriptor>, owners: seq<Page>, order: seq<nat>, pages: seq<Page>, fds: seq<FileDescriptor?>)
    requires Backlinks(nodes, owners, order, pages, fds) && nodes != []
    ensures |order| == |nodes| && order[0] < |pages| && owners[0] == pages[order[0]]
    ensures forall k | 0 <= k < |pages| && k != order[0] :: pages[k] != pages[order[0]]
  {
  }

  lemma DistinctPages(nodes: seq<FileDescriptor>, owners: seq<Page>, order: seq<nat>, pages: seq<Page>,
                      fds: seq<FileDescriptor?>, k: nat)
    requires Backlinks(nodes, owners, order, pages, fds) && k < |pages|
    ensures |order| == |nodes| && forall j | 0 <= j < |pages| && j != k :: pages[j] != pages[k]
  {
  }

  /** The first n page files. */
  ghost function FilesOf(disk: map<nat, seq<byte>>, n: nat): (r: seq<seq<byte>>)
    requires forall k | 0 <= k < n :: k in disk
    ensures |r| == n && forall k | 0 <= k < n :: r[k] == disk[k]
  {
    seq(n, k requires 0 <= k < n => disk[k])
  }

  lemma NewPageOnDisk(disk: map<nat, seq<byte>>, n: nat, ps: nat, contents: seq<byte>)
    requires forall k | 0 <= k < n :: k in disk
    requires Paged(FilesOf(disk, n), ps, contents) && |contents| == Pos(n, ps)
    ensures Paged(FilesOf(disk[n := []], n + 1), ps, contents)
  {
    hide Paged, Pos;
    AddPage(FilesOf(disk, n), ps, contents);
    assert FilesOf(disk[n := []], n + 1) == FilesOf(disk, n) + [[]];
  }

  lemma WriteOnDisk(disk: map<nat, seq<byte>>, n: nat, ps: nat, contents: seq<byte>, i: nat, o: nat, b: seq<byte>)
    requires forall k | 0 <= k < n :: k in disk
    requires Paged(FilesOf(disk, n), ps, contents) && i < n && b != [] && o + |b| <= ps && Pos(i, ps) + o <= |contents|
    ensures Paged(FilesOf(disk[i := Splice(disk[i], o, b)], n), ps, Splice(contents, Pos(i, ps) + o, b))
  {
    hide Paged, Pos, Splice;
    WriteKeepsPaged(FilesOf(disk, n), ps, contents, i, o, b);
    assert FilesOf(disk[i := Splice(disk[i], o, b)], n) == FilesOf(disk, n)[i := Splice(disk[i], o, b)];
  }

  /** A position in a file of n pages lies on one of them or, at the very end, on the next one. */
  lemma PageInReach(files: seq<seq<byte>>, ps: nat, contents: seq<byte>, position: nat)
    requires ps > 0 && Paged(files, ps, contents) && position <= |contents|
    ensures PageOf(position, ps) <= |files|
    ensures PageOf(position, ps) == |files| <==> position == Pos(|files|, ps)
    ensures PageOf(position, ps) == |files| ==> |contents| == Pos(|files|, ps)
  {
    hide Pos;
    Locate(position, ps);
    PosMono(|files|, PageOf(position, ps), ps);
    PosMono(PageOf(position, ps), |files|, ps);
  }

  /** The bytes from a position to the end of its page. */
  function Room(position: nat, ps: nat): (r: nat)
    requires ps > 0
    ensures 0 < r <= ps
  {
    Locate(position, ps);
    Pos(PageOf(position, ps), ps) + ps - position
  }

  /** The disk after the file of a closed page is opened. */
  function AfterOpening(mode: Mode, disk: map<nat, seq<byte>>, k: nat, before: bool): map<nat, seq<byte>>
  {
    if (mode.WriteMode? && !before) || (mode.ModifyMode? && k !in disk) then disk[k := []] else disk
  }

  lemma Opened(mode: Mode, disk: map<nat, seq<byte>>, k: nat, before: bool)
    ensures k in disk && (mode.WriteMode? ==> before) ==> AfterOpening(mode, disk, k, before) == disk
    ensures !mode.ReadMode? && k !in disk && !before ==> AfterOpening(mode, disk, k, before) == disk[k := []]
    ensures mode.WriteMode? && !before ==> AfterOpening(mode, disk, k, before) == disk[k := []]
  {
  }

  /** Records for n page files on disk, all but the last taken to be full. */
  method NewPages(files: map<nat, seq<byte>>, n: nat, size: nat) returns (pages: seq<Page>)
    requires forall k | 0 <= k < n :: k in files && (k < n - 1 ==> |files[k]| == size)
    ensures |pages| == n && fresh(pages)
    ensures forall i, j | 0 <= i < j < n :: pages[i] != pages[j]
    ensures forall k | 0 <= k < n ::
              pages[k].fileDescriptor == null && pages[k].index == k && pages[k].size == |files[k]|
  {
    pages := [];
    var i := 0;
    while i < n
      invariant 0 <= i <= n && |pages| == i && fresh(pages)
      invariant forall j, k | 0 <= j < k < i :: pages[j] != pages[k]
      invariant forall k | 0 <= k < i ::
                  pages[k].fileDescriptor == null && pages[k].index == k && pages[k].size == |files[k]|
    {
      var p := new Page(i, if i == n - 1 then |files[i]| else size);
      pages := pages + [p];
      i := i + 1;
    }
  }

  ghost predicate Different(pages: seq<Page>)
  {
    forall i, j | 0 <= i < j < |pages| :: pages[i] != pages[j]
  }

  /** No descriptor belongs to two pages, and all are in the list. */
  ghost predicate OnePageEach(fds: seq<FileDescriptor?>, nodes: seq<FileDescriptor>)
  {
    && (forall k | 0 <= k < |fds| && fds[k] != null :: fds[k] in nodes)
    && (forall j, k | 0 <= j < k < |fds| && fds[j] != null :: fds[j] != fds[k])
  }

  /** Copies of page records, as made when the page array is reallocated. */
  method CopyPages(pages: seq<Page>) returns (copies: seq<Page>)
    ensures |copies| == |pages| && fresh(copies)
    ensures Different(copies)
    ensures Fds(copies) == Fds(pages) && Offsets(copies) == Offsets(pages)
    ensures forall k | 0 <= k < |pages| ::
              copies[k].index == pages[k].index && copies[k].size == pages[k].size
              && copies[k].wasOpenedBefore == pages[k].wasOpenedBefore
  {
    copies := [];
    var i := 0;
    while i < |pages|
      invariant 0 <= i <= |pages| && |copies| == i && fresh(copies)
      invariant forall j, k | 0 <= j < k < i :: copies[j] != copies[k]
      invariant forall k | 0 <= k < i ::
                  copies[k].fileDescriptor == pages[k].fileDescriptor && copies[k].offset == pages[k].offset
                  && copies[k].index == pages[k].index && copies[k].size == pages[k].size
                  && copies[k].wasOpenedBefore == pages[k].wasOpenedBefore
    {
      var p := new Page.Copy(pages[i]);
      copies := copies + [p];
      i := i + 1;
    }
  }

  lemma FdsOfOpen(nodes: seq<FileDescriptor>, owners: seq<Page>, order: seq<nat>, pages: seq<Page>, fds: seq<FileDescriptor?>)
    requires Backlinks(nodes, owners, order, pages, fds)
    ensures OnePageEach(fds, nodes)
  {
    forall k | 0 <= k < |pages| && fds[k] != null
      ensures fds[k] in nodes
    {
      var i := OpenIndex(nodes, owners, order, pages, fds, k);
    }
    forall j, k | 0 <= j < k < |pages| && fds[j] != null && fds[k] != null
      ensures fds[j] != fds[k]
    {
      var i := OpenIndex(nodes, owners, order, pages, fds, j);
      var i' := OpenIndex(nodes, owners, order, pages, fds, k);
    }
  }

  /** Points the open descriptors at the new places of their pages. */
  method Relink(copies: seq<Page>, ghost nodes: seq<FileDescriptor>)
    requires OnePageEach(Fds(copies), nodes)
    modifies nodes`page
    ensures forall k | 0 <= k < |copies| && copies[k].fileDescriptor != null :: copies[k].fileDescriptor.page == copies[k]
  {
    var i := 0;
    ghost var fds := Fds(copies);
    while i < |copies|
      invariant 0 <= i <= |copies|
      invariant forall k | 0 <= k < |copies| :: fds[k] == copies[k].fileDescriptor
      invariant forall k | 0 <= k < i && copies[k].fileDescriptor != null :: copies[k].fileDescriptor.page == copies[k]
    {
      if copies[i].fileDescriptor != null {
        copies[i].fileDescriptor.page := copies[i];
      }
      i := i + 1;
    }
  }

  lemma RelinkedPages(nodes: seq<FileDescriptor>, owners: seq<Page>, order: seq<nat>, pages: seq<Page>,
                      copies: seq<Page>)
    requires Backlinks(nodes, owners, order, pages, Fds(copies)) && |copies| == |pages| && Different(copies)
    requires forall k | 0 <= k < |copies| && copies[k].fileDescriptor != null :: copies[k].fileDescriptor.page == copies[k]
    ensures Backlinks(nodes, Owners(nodes), order, copies, Fds(copies))
  {
  }

  /** The pages at new places, with their descriptors pointed there. */
  method MovePages(pages: seq<Page>, ghost nodes: seq<FileDescriptor>, ghost order: seq<nat>) returns (copies: seq<Page>)
    requires Backlinks(nodes, Owners(nodes), order, pages, Fds(pages))
    modifies nodes`page
    ensures |copies| == |pages| && fresh(copies) && Backlinks(nodes, Owners(nodes), order, copies, Fds(copies))
    ensures Streams(nodes) == old(Streams(nodes)) && Offsets(copies) == old(Offsets(pages))
    ensures forall k | 0 <= k < |pages| ::
              copies[k].index == old(pages[k].index) && copies[k].size == old(pages[k].size)
              && copies[k].wasOpenedBefore == old(pages[k].wasOpenedBefore)
  {
    hide Backlinks, Fds, Owners, Streams, Offsets, Different, OnePageEach;
    ghost var owners, fds := Owners(nodes), Fds(pages);
    FdsOfOpen(nodes, owners, order, pages, fds);
    copies := CopyPages(pages);
    Relink(copies, nodes);
    RelinkedPages(nodes, owners, order, pages, copies);
  }

  lemma Repositioned(nodes: seq<FileDescriptor>, owners: seq<Page>, order: seq<nat>, pages: seq<Page>,
                     fds: seq<FileDescriptor?>, streams: seq<nat>, offsets: seq<int>, k: nat, o: nat) returns (i: nat)
    requires Backlinks(nodes, owners, order, pages, fds) && k < |pages| && fds[k] != null
    requires Tracked(order, streams, offsets)
    ensures i < |nodes| == |order| == |streams| && nodes[i] == fds[k] && k < |offsets| && offsets[k] == streams[i]
    ensures Tracked(order, streams[i := o], offsets[k := o])
    ensures forall j | 0 <= j < |nodes| && j != i :: nodes[j] != nodes[i]
    ensures forall j | 0 <= j < |pages| && j != k :: pages[j] != pages[k]
  {
    i := OpenIndex(nodes, owners, order, pages, fds, k);
    OpenDistinct(nodes, owners, order, pages, fds);
  }

  lemma OneMorePage(nodes: seq<FileDescriptor>, owners: seq<Page>, order: seq<nat>, pages: seq<Page>,
                    fds: seq<FileDescriptor?>, p: Page)
    requires Backlinks(nodes, owners, order, pages, fds) && p !in pages
    ensures Backlinks(nodes, owners, order, pages + [p], fds + [null])
  {
  }

  lemma OneMoreTracked(order: seq<nat>, streams: seq<nat>, offsets: seq<int>, o: int)
    requires Tracked(order, streams, offsets)
    ensures Tracked(order, streams, offsets + [o])
  {
  }

  class PageFile {
    const pageSize: nat
    const mode: Mode
    const list: DescriptorList
    /** The page files on disk. */
    var disk: map<nat, seq<byte>>
    var position: nat
    var pages: seq<Page>
    var numPagesAllocated: nat

    /** The bytes of the file. */
    ghost var contents: seq<byte>
    /** The numbers of the open pages, least recently used first. */
    ghost var order: seq<nat>
    /** The numbers of all pages used so far. */
    ghost var uses: seq<nat>

    constructor (openMode: Mode, size: nat, files: map<nat, seq<byte>>, records: seq<Page>, l: DescriptorList, ghost c: seq<byte>)
      ensures mode == openMode && pageSize == size && disk == files && pages == records && list == l && contents == c
      ensures position == 0 && order == []
      ensures uses == [] && numPagesAllocated >= |records|
    {
      pageSize, mode, disk, position, pages, list := size, openMode, files, 0, records, l;
      contents, order, uses := c, [], [];
      numPagesAllocated := if |records| == 0 then 0 else if |records| < PAGE_ALLOC_INCR then PAGE_ALLOC_INCR else |records|;
    }

    /** The first n page files on disk hold the file. */
    ghost predicate OnDisk(n: nat)
      reads `disk, `pages, `contents, pages`size, pages`wasOpenedBefore
    {
      && 0 < pageSize <= UINT32_MAX && n <= |pages|
      && (forall k | 0 <= k < n :: k in disk && pages[k].size == |disk[k]|)
      && (mode.WriteMode? ==> forall k | 0 <= k < n :: pages[k].wasOpenedBefore)
      && (mode.ModifyMode? ==> forall k | k in disk :: k < n)
      && Paged(FilesOf(disk, n), pageSize, contents)
    }

    ghost predicate Links()
      reads `order, `pages, list`nodes, list.nodes`page, pages`fileDescriptor
    {
      Backlinks(list.nodes, Owners(list.nodes), order, pages, Fds(pages))
    }

    ghost predicate Tracks()
      reads `order, `pages, list`nodes, list.nodes`filePos, pages`offset
    {
      Tracked(order, Streams(list.nodes), Offsets(pages))
    }

    ghost predicate Numbered()
      reads `pages, `numPagesAllocated, pages`index
    {
      |pages| <= numPagesAllocated && forall k | 0 <= k < |pages| :: pages[k].index == k
    }

    ghost predicate Consistent()
      reads `order, `pages, `numPagesAllocated, list, list.nodes, pages`fileDescriptor, pages`offset, pages`index
    {
      list.Linked() && Links() && Tracks() && Numbered()
    }

    ghost predicate Valid()
      reads this, list, list.nodes, pages
    {
      Consistent() && OnDisk(|pages|) && position <= |contents| && order == OpenAfter(uses, list.maxDescriptors)
    }

    /** The open pages are the most recently used ones. */
    lemma OpenPages()
      requires Valid()
      ensures order == LastN(ByLastUse(uses), list.maxDescriptors)
      ensures |order| == list.numFileDescriptors <= list.maxDescriptors
      ensures forall k | 0 <= k < |pages| :: pages[k].fileDescriptor != null <==> k in LastN(ByLastUse(uses), list.maxDescriptors)
    {
      OpenAreMostRecent(uses, list.maxDescriptors);
    }

    /** An open page becomes the most recently used. */
    method UseOpenPage(ghost k: nat, page: Page)
      requires Consistent() && k < |pages| && pages[k] == page && page.fileDescriptor != null
      modifies `order, list, list.nodes`prev, list.nodes`next
      ensures Consistent() && order == Touch(old(order), k, list.maxDescriptors)
      ensures forall i | 0 <= i < |list.nodes| :: list.nodes[i] in old(list.nodes)
    {
      hide Backlinks, Tracked, Remove, Fds, Owners, Streams, Offsets, ToEnd, DescriptorList.Linked;
      ghost var nodes, owners, streams, was := list.nodes, Owners(list.nodes), Streams(list.nodes), order;
      OpenDistinct(nodes, owners, order, pages, Fds(pages));
      ghost var i := OpenIndex(nodes, owners, order, pages, Fds(pages), k);
      MovedLinks(nodes, owners, order, pages, Fds(pages), i);
      MovedTracks(order, streams, Offsets(pages), i);
      TouchOpen(order, i, list.maxDescriptors);
      list.MoveToTail(page.fileDescriptor, i);
      FieldsToEnd(nodes, i);
      order := ToEnd(order, i);
    }

    /** Closes the least recently used page. */
    method CloseLeastUsed()
      requires Consistent() && list.nodes != []
      modifies `order, list, list.nodes`prev, pages`fileDescriptor
      ensures Consistent() && order == old(order)[1..] && list.nodes == old(list.nodes)[1..]
      ensures forall k | 0 <= k < |pages| && old(pages[k].fileDescriptor) == null :: pages[k].fileDescriptor == null
    {
      hide Backlinks, Tracked, Fds, Owners, Streams, Offsets;
      ghost var nodes, owners, fds, streams := list.nodes, Owners(list.nodes), Fds(pages), Streams(list.nodes);
      FirstLinks(nodes, owners, order, pages, fds);
      ClosedLinks(nodes, owners, order, pages, fds);
      ClosedTracks(order, streams, Offsets(pages));
      list.CloseHead(pages[order[0]]);
      assert Fds(pages) == fds[order[0] := null];
      assert Owners(list.nodes) == owners[1..] && Streams(list.nodes) == streams[1..];
      order := order[1..];
    }

    /** Closes the least recently used page if all descriptors are taken. */
    method MakeRoom()
      requires Consistent()
      modifies `order, list, list.nodes`prev, pages`fileDescriptor
      ensures Consistent() && list.numFileDescriptors < list.maxDescriptors
      ensures order == if |old(order)| >= list.maxDescriptors then old(order)[1..] else old(order)
      ensures forall k | 0 <= k < |pages| && old(pages[k].fileDescriptor) == null :: pages[k].fileDescriptor == null
      ensures forall i | 0 <= i < |list.nodes| :: list.nodes[i] in old(list.nodes)
    {
      hide Tracked, Fds, Owners, Streams, Offsets;
      if list.numFileDescriptors >= list.maxDescriptors {
        CloseLeastUsed();
      }
    }

    /** A new descriptor for a closed page, the stream at its start. */
    method Attach(ghost k: nat, page: Page) returns (fd: FileDescriptor)
      requires Consistent() && k < |pages| && pages[k] == page && page.fileDescriptor == null
      modifies page`fileDescriptor, page`wasOpenedBefore, page`offset
      ensures fresh(fd) && fd.page == page && fd.next == null && fd.filePos == 0
      ensures page.fileDescriptor != null && page.wasOpenedBefore && page.offset == 0
      ensures k !in order && list.Linked() && Numbered()
      ensures Backlinks(list.nodes + [fd], Owners(list.nodes) + [page], order + [k], pages, Fds(pages))
      ensures Tracked(order + [k], Streams(list.nodes) + [0], Offsets(pages))
    {
      hide Backlinks, Tracked, Fds, Owners, Streams, Offsets, DescriptorList.Linked;
      ghost var nodes, owners, fds, streams := list.nodes, Owners(list.nodes), Fds(pages), Streams(list.nodes);
      ghost var offsets := Offsets(pages);
      fd := new FileDescriptor(page);
      AddedLinks(nodes, owners, order, pages, fds, fd, k);
      AddedTracks(order, streams, offsets, k);
      DistinctPages(nodes, owners, order, pages, fds, k);
      page.fileDescriptor := fd;
      page.wasOpenedBefore := true;
      page.offset := 0;
      assert Fds(pages) == fds[k := fd];
      assert Offsets(pages) == offsets[k := 0];
    }

    /** A closed page is opened, with the stream at its start, as the most recently used. */
    method AddDescriptor(ghost k: nat, page: Page)
      requires Consistent() && k < |pages| && pages[k] == page && page.fileDescriptor == null
      requires list.numFileDescriptors < list.maxDescriptors
      modifies `order, list, list.nodes`next, page`fileDescriptor, page`wasOpenedBefore, page`offset
      ensures Consistent() && k !in old(order) && order == old(order) + [k]
      ensures page.fileDescriptor != null && page.wasOpenedBefore && page.offset == 0
      ensures forall i | 0 <= i < |list.nodes| :: list.nodes[i] in old(list.nodes) || fresh(list.nodes[i])
    {
      hide Backlinks, Tracked, Fds, Owners, Streams, Offsets, DescriptorList.Linked;
      var fd := Attach(k, page);
      ghost var nodes, owners, streams := list.nodes, Owners(list.nodes), Streams(list.nodes);
      FieldsAppend(nodes, fd);
      list.Append(fd);
      assert Owners(list.nodes) == owners + [page];
      assert Streams(list.nodes) == streams + [0];
      order := order + [k];
      assert Links();
      assert Tracks();
    }

    /** Opens the file of a page on disk: in write mode the first opening creates it empty, in modify mode an
        opening creates it if it is missing. */
    method Fopen(page: Page) returns (ok: bool)
      modifies `disk
      ensures disk == AfterOpening(mode, old(disk), page.index, page.wasOpenedBefore)
      ensures ok == (page.index in disk)
    {
      match mode {
        case ReadMode =>
          ok := page.index in disk;
        case WriteMode =>
          if !page.wasOpenedBefore {
            disk := disk[page.index := []];
            ok := true;
          } else {
            ok := page.index in disk;
          }
        case ModifyMode =>
          if page.index !in disk {
            disk := disk[page.index := []];
          }
          ok := true;
      }
    }

    /** Opens the page's file if need be and makes it the most recently used.  A page opened for the first time
        in a new file is created empty; a later opening keeps what was written. */
    method OpenFile(ghost k: nat, page: Page) returns (ok: bool)
      requires Consistent() && k < |pages| && pages[k] == page
      modifies `disk, `order, list, list.nodes`prev, list.nodes`next,
               pages`fileDescriptor, page`wasOpenedBefore, page`offset
      ensures Consistent()
      ensures ok == (old(page.fileDescriptor) != null || k in disk)
      ensures disk == if old(page.fileDescriptor) != null then old(disk)
                      else AfterOpening(mode, old(disk), k, old(page.wasOpenedBefore))
      ensures ok ==> order == Touch(old(order), k, list.maxDescriptors) && page.fileDescriptor != null
      ensures ok ==> page.wasOpenedBefore || old(page.fileDescriptor) != null
      ensures old(page.wasOpenedBefore) ==> page.wasOpenedBefore
      ensures forall i | 0 <= i < |list.nodes| :: list.nodes[i] in old(list.nodes) || fresh(list.nodes[i])
    {
      hide Backlinks, Tracked, Fds, Owners, Streams, Offsets, Remove;
      assert page in pages;
      if page.fileDescriptor != null {
        UseOpenPage(k, page);
        return true;
      }
      NotOpen(list.nodes, Owners(list.nodes), order, pages, Fds(pages), k);
      ghost var max := list.maxDescriptors;
      assert list.numFileDescriptors == |order| && max > 0;
      MakeRoom();
      ok := Fopen(page);
      if ok {
        assert forall i | 0 <= i < |list.nodes| :: list.nodes[i] in old(list.nodes);
        AddDescriptor(k, page);
      }
    }

    /** Makes the page array longer: the pages move, and the open descriptors are pointed at their new places. */
    method Reallocate()
      requires Consistent()
      modifies `pages, `numPagesAllocated, list.nodes`page
      ensures Consistent() && numPagesAllocated > |pages| == |old(pages)| && fresh(pages)
      ensures forall k | 0 <= k < |pages| ::
                pages[k].size == old(pages[k].size) && pages[k].wasOpenedBefore == old(pages[k].wasOpenedBefore)
    {
      hide Links, Tracks, Numbered, Backlinks, Tracked, Fds, Owners, Streams, Offsets, DescriptorList.Linked;
      LinksAndTracks();
      var copies := MovePages(pages, list.nodes, order);
      pages := copies;
      numPagesAllocated := numPagesAllocated + PAGE_ALLOC_INCR;
      LinksAndTracks();
    }

    lemma LinksAndTracks()
      ensures Links() <==> Backlinks(list.nodes, Owners(list.nodes), order, pages, Fds(pages))
      ensures Tracks() <==> Tracked(order, Streams(list.nodes), Offsets(pages))
      ensures Numbered() <==> |pages| <= numPagesAllocated && forall k | 0 <= k < |pages| :: pages[k].index == k
    {
      hide Backlinks, Tracked, Fds, Owners, Streams, Offsets;
    }

    twostate lemma StillOnDisk(n: nat)
      requires old(OnDisk(n)) && old(|pages|) == n && |pages| == n + 1 && disk == old(disk) && contents == old(contents)
      requires forall k | 0 <= k < n ::
                 pages[k].size == old(pages[k].size) && pages[k].wasOpenedBefore == old(pages[k].wasOpenedBefore)
      ensures OnDisk(n)
    {
    }

    /** A record for one more page, not yet on disk. */
    method AppendPage()
      requires Consistent()
      modifies `pages, `numPagesAllocated, list.nodes`page
      ensures Consistent() && |pages| == |old(pages)| + 1
      ensures forall k | 0 <= k < |old(pages)| ::
                pages[k].size == old(pages[k].size) && pages[k].wasOpenedBefore == old(pages[k].wasOpenedBefore)
      ensures var p := pages[|old(pages)|]; p.size == 0 && !p.wasOpenedBefore && p.fileDescriptor == null
      ensures forall k | 0 <= k < |pages| :: pages[k] in old(pages) || fresh(pages[k])
    {
      hide Backlinks, Tracked, Fds, Owners, Streams, Offsets, DescriptorList.Linked;
      if |pages| == numPagesAllocated {
        Reallocate();
      }
      ghost var nodes, owners, fds, streams, offsets := list.nodes, Owners(list.nodes), Fds(pages), Streams(list.nodes), Offsets(pages);
      var p := new Page(|pages|, 0);
      OneMorePage(nodes, owners, order, pages, fds, p);
      OneMoreTracked(order, streams, offsets, 0);
      pages := pages + [p];
      assert Fds(pages) == fds + [null];
      assert Offsets(pages) == offsets + [0];
      assert Links() && Tracks() && Numbered();
    }

    lemma PageOfPosition()
      requires Valid()
      ensures pageSize > 0 && PageOf(position, pageSize) <= |pages|
      ensures PageOf(position, pageSize) == |pages| <==> position == Pos(|pages|, pageSize)
      ensures PageOf(position, pageSize) == |pages| ==> |contents| == Pos(|pages|, pageSize)
    {
      hide Pos, PageOf, Paged;
      PageInReach(FilesOf(disk, |pages|), pageSize, contents, position);
    }

    /** Opens page k: one of the n pages on disk or the one just added behind them. */
    method OpenKnown(k: nat, ghost n: nat) returns (page: Page)
      requires Consistent() && OnDisk(n) && k < |pages| && (|pages| == n || (|pages| == n + 1 && k == n))
      requires k == n ==> !mode.ReadMode? && pages[k].size == 0 && !pages[k].wasOpenedBefore && pages[k].fileDescriptor == null
      requires k == n ==> |contents| == Pos(n, pageSize)
      modifies `disk, `order, list, list.nodes`prev, list.nodes`next,
               pages`fileDescriptor, pages`wasOpenedBefore, pages`offset
      ensures Consistent() && OnDisk(|pages|) && page == pages[k] && page.fileDescriptor != null
      ensures order == Touch(old(order), k, list.maxDescriptors)
      ensures disk == old(disk) || disk == old(disk)[n := []]
      ensures forall i | 0 <= i < |list.nodes| :: list.nodes[i] in old(list.nodes) || fresh(list.nodes[i])
    {
      hide Consistent, Touch, Paged, Pos, FilesOf, AfterOpening;
      if k == n {
        NewPageOnDisk(disk, n, pageSize, contents);
      }
      Opened(mode, disk, k, pages[k].wasOpenedBefore);
      var ok := OpenFile(k, pages[k]);
      page := pages[k];
    }

    /** The page at the file position, opened; null at the end of a file that is only read. */
    method OpenPage() returns (page: Page?)
      requires Valid()
      modifies `disk, `pages, `numPagesAllocated, `order, `uses, list, list.nodes,
               pages`fileDescriptor, pages`wasOpenedBefore, pages`offset
      ensures Valid()
      ensures disk == old(disk) || disk == old(disk)[|old(pages)| := []]
      ensures page == null <==> mode.ReadMode? && position == Pos(|old(pages)|, pageSize)
      ensures page != null ==> var k := PageOf(position, pageSize);
                && k < |pages| && pages[k] == page && page.fileDescriptor != null
                && order == Touch(old(order), k, list.maxDescriptors) && uses == old(uses) + [k]
      ensures forall k | 0 <= k < |pages| :: pages[k] in old(pages) || fresh(pages[k])
      ensures forall i | 0 <= i < |list.nodes| :: list.nodes[i] in old(list.nodes) || fresh(list.nodes[i])
    {
      hide Consistent, OnDisk, Touch, OpenAfter, Paged, Pos, PageOf, FilesOf;
      PageOfPosition();
      var k := position / pageSize;
      Locate(position, pageSize);
      page := null;
      if k < |pages| || (k == |pages| && !mode.ReadMode?) {
        ghost var n := |pages|;
        if k == |pages| {
          AppendPage();
          StillOnDisk(n);
        }
        page := OpenKnown(k, n);
        OneMoreUse(uses, k, list.maxDescriptors);
        uses := uses + [k];
      }
    }

    /** `fseeko`, `fread` and `fwrite` all end by moving the stream: page and descriptor follow. */
    method MoveStream(ghost k: nat, page: Page, fd: FileDescriptor, o: nat)
      requires Consistent() && k < |pages| && pages[k] == page && page.fileDescriptor == fd
      modifies page`offset, fd`filePos
      ensures Consistent() && page.offset == fd.filePos == o
    {
      hide Backlinks, Tracked, Fds, Owners, Streams, Offsets, DescriptorList.Linked;
      ghost var nodes, streams, offsets := list.nodes, Streams(list.nodes), Offsets(pages);
      ghost var i := Repositioned(nodes, Owners(nodes), order, pages, Fds(pages), streams, offsets, k, o);
      page.offset := o;
      fd.filePos := o;
      assert Offsets(pages) == offsets[k := o];
      assert Streams(nodes) == streams[i := o];
      assert Links();
      assert Tracks();
    }

    /** An open page's stream stands at the page's offset. */
    lemma StreamAtOffset(k: nat)
      requires Consistent() && k < |pages| && pages[k].fileDescriptor != null
      ensures pages[k].offset == pages[k].fileDescriptor.filePos && pages[k].fileDescriptor in list.nodes
    {
      ghost var i := Repositioned(list.nodes, Owners(list.nodes), order, pages, Fds(pages),
                                  Streams(list.nodes), Offsets(pages), k, 0);
    }

    /** Sets the page's stream at the file position. */
    method SetAtPosition(ghost k: nat, page: Page, fd: FileDescriptor)
      requires Valid() && k < |pages| && pages[k] == page && page.fileDescriptor == fd
      requires Pos(k, pageSize) <= position <= Pos(k, pageSize) + page.size
      modifies page`offset, page`size, fd`filePos
      ensures Valid() && page.offset == fd.filePos == position - Pos(k, pageSize) && page.size == old(page.size)
    {
      hide Backlinks, Tracked, Fds, Owners, Streams, Offsets, DescriptorList.Linked, Paged, Pos, OpenAfter;
      PosIsProduct(k, pageSize);
      StreamAtOffset(k);
      assert pageSize * page.index == Pos(k, pageSize);
      if page.offset < 0 || position != pageSize * page.index + page.offset {
        var offset: nat := position - pageSize * page.index;
        MoveStream(k, page, fd, offset);
        page.size := Max(page.offset, page.size);
      }
    }

    lemma PositionBounds()
      requires Valid()
      ensures position <= |contents| <= Pos(|pages|, pageSize) && pageSize > 0
    {
    }

    /** What is known of the page a position lies in. */
    lemma PageBounds(k: nat)
      requires Valid() && k == PageOf(position, pageSize) && k < |pages|
      ensures pages[k].index == k && pageSize * k == Pos(k, pageSize) && k in disk && pages[k].size == |disk[k]|
      ensures Pos(k, pageSize) <= position < Pos(k, pageSize) + pageSize
      ensures position <= Pos(k, pageSize) + pages[k].size
      ensures Paged(FilesOf(disk, |pages|), pageSize, contents) && pages[k].size <= pageSize
      ensures pages[k].fileDescriptor != null ==> pages[k].fileDescriptor in list.nodes
    {
      hide Pos, OpenAfter;
      Locate(position, pageSize);
      PosIsProduct(k, pageSize);
      PageLengths(FilesOf(disk, |pages|), pageSize, contents);
      if pages[k].fileDescriptor != null {
        StreamAtOffset(k);
      }
    }

    /** Reads n bytes of an open page from the place its stream is at, or as many as there are. */
    method TakeFromPage(ghost k: nat, page: Page, fd: FileDescriptor, n: nat) returns (b: seq<byte>)
      requires Valid() && k < |pages| && pages[k] == page && page.fileDescriptor == fd && page.offset == fd.filePos
      requires fd.filePos + n <= pageSize && fd.filePos <= page.size
      modifies page`offset, page`size, fd`filePos
      ensures Valid() && b == Extract(contents, Pos(k, pageSize) + old(fd.filePos), n)
    {
      hide Links, Tracks, DescriptorList.Linked, Paged, Pos, OpenAfter, FilesOf, Extract;
      ReadInPage(FilesOf(disk, |pages|), pageSize, contents, k, fd.filePos, n);
      b := Extract(disk[page.index], fd.filePos, n);
      MoveStream(k, page, fd, fd.filePos + |b|);
      page.size := Max(page.offset, page.size);
    }

    /** At most `count` bytes from the open page at the position. */
    method ReadOpenPage(ghost k: nat, page: Page, count: nat) returns (b: seq<byte>)
      requires Valid() && k == PageOf(position, pageSize) && k < |pages| && pages[k] == page && page.fileDescriptor != null
      modifies `position, page`offset, page`size, page.fileDescriptor`filePos
      ensures Valid() && position == old(position) + |b|
      ensures b == Extract(contents, old(position), Min(count, Room(old(position), pageSize)))
    {
      hide Links, Tracks, DescriptorList.Linked, Paged, Pos, PageOf, OpenAfter, FilesOf;
      PageBounds(k);
      var fd := page.fileDescriptor;
      if position <= pageSize * page.index + page.size {
        SetAtPosition(k, page, fd);
        b := TakeFromPage(k, page, fd, Min(count, pageSize - page.offset));
        position := position + |b|;
      } else {
        b := [];
      }
    }

    /** At most `count` bytes from the page at the position. */
    method ReadFromPage(count: nat) returns (b: seq<byte>)
      requires Valid()
      modifies `position, `disk, `pages, `numPagesAllocated, `order, `uses, list, list.nodes,
               pages`fileDescriptor, pages`wasOpenedBefore, pages`offset, pages`size
      ensures Valid() && position == old(position) + |b|
      ensures b == Extract(contents, old(position), Min(count, Room(old(position), pageSize)))
      ensures forall k | 0 <= k < |pages| :: pages[k] in old(pages) || fresh(pages[k])
      ensures forall i | 0 <= i < |list.nodes| :: list.nodes[i] in old(list.nodes) || fresh(list.nodes[i])
    {
      hide Valid, Pos, PageOf, OpenAfter, Touch, Room;
      PositionBounds();
      var page := OpenPage();
      if page == null {
        return [];
      }
      ghost var k := PageOf(position, pageSize);
      PageBounds(k);
      b := ReadOpenPage(k, page, count);
    }

    /** Writes b in an open page at the place its stream is at. */
    method StoreInPage(ghost k: nat, page: Page, fd: FileDescriptor, b: seq<byte>)
      requires Valid() && k < |pages| && pages[k] == page && page.fileDescriptor == fd && page.offset == fd.filePos
      requires b != [] && fd.filePos + |b| <= pageSize && Pos(k, pageSize) + fd.filePos <= |contents|
      modifies `disk, `contents, page`offset, page`size, fd`filePos
      ensures Valid() && contents == Splice(old(contents), Pos(k, pageSize) + old(fd.filePos), b)
    {
      hide Links, Tracks, DescriptorList.Linked, Paged, Pos, OpenAfter, FilesOf, Splice;
      DifferentPages(k);
      WriteOnDisk(disk, |pages|, pageSize, contents, k, fd.filePos, b);
      disk := disk[page.index := Splice(disk[page.index], fd.filePos, b)];
      contents := Splice(contents, Pos(k, pageSize) + fd.filePos, b);
      MoveStream(k, page, fd, fd.filePos + |b|);
      page.size := Max(page.offset, page.size);
    }

    lemma DifferentPages(k: nat)
      requires Consistent() && k < |pages|
      ensures forall j | 0 <= j < |pages| && j != k :: pages[j] != pages[k]
    {
    }

    /** As many bytes as fit in the open page at the position; none if the file is only read. */
    method WriteOpenPage(ghost k: nat, page: Page, data: seq<byte>) returns (n: nat)
      requires Valid() && k == PageOf(position, pageSize) && k < |pages| && pages[k] == page && page.fileDescriptor != null
      requires data != []
      modifies `position, `disk, `contents, page`offset, page`size, page.fileDescriptor`filePos
      ensures Valid() && position == old(position) + n
      ensures n == if mode.ReadMode? then 0 else Min(|data|, Room(old(position), pageSize))
      ensures contents == Splice(old(contents), old(position), data[..n])
    {
      hide Links, Tracks, DescriptorList.Linked, Paged, Pos, PageOf, OpenAfter, FilesOf, Splice;
      PageBounds(k);
      var fd := page.fileDescriptor;
      n := 0;
      if position <= pageSize * page.index + page.size {
        SetAtPosition(k, page, fd);
        n := if mode.ReadMode? then 0 else Min(|data|, pageSize - page.offset);
        if n > 0 {
          StoreInPage(k, page, fd, data[..n]);
          position := position + n;
        }
      }
    }

    /** As many bytes as fit in the page at the position; none if the file is only read. */
    method WriteToPage(data: seq<byte>) returns (n: nat)
      requires Valid() && data != []
      modifies `position, `disk, `contents, `pages, `numPagesAllocated, `order, `uses, list, list.nodes,
               pages`fileDescriptor, pages`wasOpenedBefore, pages`offset, pages`size
      ensures Valid() && position == old(position) + n
      ensures n == if mode.ReadMode? then 0 else Min(|data|, Room(old(position), pageSize))
      ensures contents == Splice(old(contents), old(position), data[..n])
      ensures forall k | 0 <= k < |pages| :: pages[k] in old(pages) || fresh(pages[k])
      ensures forall i | 0 <= i < |list.nodes| :: list.nodes[i] in old(list.nodes) || fresh(list.nodes[i])
    {
      hide Valid, Pos, PageOf, OpenAfter, Touch, Room, Splice;
      PositionBounds();
      var page := OpenPage();
      if page == null {
        return 0;
      }
      ghost var k := PageOf(position, pageSize);
      PageBounds(k);
      n := WriteOpenPage(k, page, data);
    }

    /** A read at any position is a read of the flat file, however many pages it crosses. */
    method Read(count: nat) returns (b: seq<byte>)
      requires Valid()
      modifies `position, `disk, `pages, `numPagesAllocated, `order, `uses, list, list.nodes,
               pages`fileDescriptor, pages`wasOpenedBefore, pages`offset, pages`size
      ensures Valid()
      ensures b == Extract(contents, old(position), count) && position == old(position) + |b|
      ensures forall k | 0 <= k < |pages| :: pages[k] in old(pages) || fresh(pages[k])
      ensures forall i | 0 <= i < |list.nodes| :: list.nodes[i] in old(list.nodes) || fresh(list.nodes[i])
    {
      hide Valid, Room, Extract;
      ghost var at := position;
      b := [];
      PositionBounds();
      while |b| < count
        invariant Valid() && position == at + |b| <= |contents| && |b| <= count && pageSize > 0
        invariant b == Extract(contents, at, |b|)
        invariant forall k | 0 <= k < |pages| :: pages[k] in old(pages) || fresh(pages[k])
        invariant forall i | 0 <= i < |list.nodes| :: list.nodes[i] in old(list.nodes) || fresh(list.nodes[i])
      {
        var more := ReadFromPage(count - |b|);
        PositionBounds();
        if more == [] {
          ExtractAll(contents, at, |b|, count);
          break;
        }
        ExtractMore(contents, at, |b|, |more|);
        b := b + more;
      }
    }

    /** A write at any position up to the end is one write to the flat file, however many pages it crosses. */
    method Write(data: seq<byte>) returns (n: nat)
      requires Valid()
      modifies `position, `disk, `contents, `pages, `numPagesAllocated, `order, `uses, list, list.nodes,
               pages`fileDescriptor, pages`wasOpenedBefore, pages`offset, pages`size
      ensures Valid()
      ensures n == (if mode.ReadMode? then 0 else |data|) && position == old(position) + n
      ensures contents == Splice(old(contents), old(position), data[..n])
      ensures forall k | 0 <= k < |pages| :: pages[k] in old(pages) || fresh(pages[k])
      ensures forall i | 0 <= i < |list.nodes| :: list.nodes[i] in old(list.nodes) || fresh(list.nodes[i])
    {
      hide Valid, Room, Splice, Written;
      ghost var at, was := position, contents;
      n := 0;
      PositionBounds();
      WrittenNone(contents, at, data);
      while n < |data|
        invariant Valid() && position == at + n && 0 <= n <= |data| && pageSize > 0
        invariant mode.ReadMode? ==> n == 0 && contents == was
        invariant Written(was, at, data, n, contents)
        invariant forall k | 0 <= k < |pages| :: pages[k] in old(pages) || fresh(pages[k])
        invariant forall i | 0 <= i < |list.nodes| :: list.nodes[i] in old(list.nodes) || fresh(list.nodes[i])
      {
        ghost var before := contents;
        var more := WriteToPage(data[n..]);
        PositionBounds();
        if more == 0 {
          break;
        }
        assert data[n..][..more] == data[n..n + more];
        WrittenMore(was, at, data, n, more, before, contents);
        n := n + more;
      }
      WrittenIs(was, at, data, n, contents);
    }

    method Size() returns (size: nat)
      requires Valid()
      ensures size == |contents|
    {
      hide Pos, Paged, Consistent, OpenAfter, FilesOf;
      if |pages| == 0 {
        EmptyFile(FilesOf(disk, |pages|), pageSize, contents);
        return 0;
      }
      PageLengths(FilesOf(disk, |pages|), pageSize, contents);
      PosIsProduct(|pages| - 1, pageSize);
      size := pageSize * (|pages| - 1) + pages[|pages| - 1].size;
    }

    method Seek(offset: int, whence: Whence) returns (ok: bool)
      requires Valid()
      modifies `position
      ensures Valid()
      ensures var p := match whence
                       case SeekSet => offset
                       case SeekCur => old(position) + offset
                       case SeekEnd => |contents| + offset;
              ok == (0 <= p <= |contents|) && position == if ok then p else old(position)
    {
      hide Consistent, OnDisk, OpenAfter;
      var size := Size();
      var p := match whence
        case SeekSet => offset
        case SeekCur => position + offset
        case SeekEnd => size + offset;
      ok := 0 <= p <= size;
      if ok {
        position := p;
      }
    }
  }

  /** Opens a page file: a new one (`n` is 0) or one whose first n page files are on disk. */
  method Open(openMode: Mode, size: nat, files: map<nat, seq<byte>>, n: nat, ghost c: seq<byte>) returns (f: PageFile)
    requires 0 < size <= UINT32_MAX
    requires (openMode.WriteMode? <==> n == 0) && forall k | 0 <= k < n :: k in files
    requires openMode.ModifyMode? ==> forall k | k in files :: k < n
    requires Paged(FilesOf(files, n), size, c)
    ensures f.Valid() && f.contents == c && f.position == 0 && f.mode == openMode && f.pageSize == size
    ensures fresh(f) && fresh(f.list) && fresh(f.pages) && f.list.nodes == []
    ensures f.list.maxDescriptors == MAX_FILE_DESCRIPTORS
  {
    hide Pos, Paged, FilesOf, Backlinks, Tracked, Fds, Owners, Streams, Offsets;
    PageLengths(FilesOf(files, n), size, c);
    var records := NewPages(files, n, size);
    var list := new DescriptorList(MAX_FILE_DESCRIPTORS);
    NothingOpen(records);
    f := new PageFile(openMode, size, files, records, list, c);
  }
}
