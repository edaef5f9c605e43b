/** The write-back page cache as a value: what its ring of slots, its dirty run and its target must
    satisfy, and what each elementary step does to them. */
module CacheModel {
  import opened Wrappers
  import opened Bytes
  import opened Grid

  datatype Page = Page(position: int, size: nat, isDirty: bool)

  /** `held[s]` is the number of the file page in slot s, or -1; `lo` is the number of the first dirty
      page; `contents` is the file the cache presents, dirty pages included. */
  datatype View = View(
    ps: nat, n: nat, pages: seq<Page>, cache: seq<byte>, target: seq<byte>,
    first: nat, cnt: nat, held: seq<int>, lo: nat, contents: seq<byte>)

  ghost predicate Shape(v: View)
  {
    && v.ps > 0 && v.n > 0
    && |v.pages| == |v.held| == v.n
    && |v.cache| == Pos(v.n, v.ps)
    && v.first < v.n
  }

  lemma SlotFits(v: View, s: nat)
    requires Shape(v) && s < v.n
    ensures Pos(s, v.ps) + v.ps <= |v.cache|
    ensures Pos(s + 1, v.ps) == Pos(s, v.ps) + v.ps
  {
    PosMono(s, v.n, v.ps);
  }

  /** Slot s shows page p: right slot, right position, and bytes of the presented file; a short page
      can only be the last one. */
  ghost predicate Shows(v: View, s: nat, p: nat)
    requires Shape(v) && s < v.n
  {
    SlotFits(v, s);
    var at, size := Pos(p, v.ps), v.pages[s].size;
    && Slot(p, v.n) == s
    && v.pages[s].position == at
    && size <= v.ps
    && at + size <= |v.contents|
    && v.cache[Pos(s, v.ps)..Pos(s, v.ps) + size] == v.contents[at..at + size]
    && (size < v.ps ==> at + size == |v.contents|)
  }

  /** A slot that shows no page: never read, or blanked for writing at the end of the file. */
  ghost predicate Empty(s: nat, page: Page)
  {
    !page.isDirty && (page.position == -1 || (page.position == 0 && s != 0))
  }

  ghost predicate SlotsOk(v: View)
    requires Shape(v)
  {
    forall s | 0 <= s < v.n ::
      if v.held[s] >= 0 then Shows(v, s, v.held[s]) else Empty(s, v.pages[s])
  }

  /** The dirty slots are exactly those of pages lo .. lo + cnt - 1, laid round the ring from `first`. */
  ghost predicate RingOk(v: View)
    requires Shape(v)
  {
    && (forall s | 0 <= s < v.n :: v.pages[s].isDirty <==> v.lo <= v.held[s] < v.lo + v.cnt)
    && (forall p: nat | v.lo <= p < v.lo + v.cnt :: v.held[Slot(p, v.n)] == p)
    && (v.cnt > 0 ==> v.first == Slot(v.lo, v.n))
  }

  /** One past the last dirty byte. */
  ghost function DirtyEnd(v: View): nat
    requires Shape(v)
  {
    if v.cnt == 0 then 0
    else Pos(v.lo + v.cnt - 1, v.ps) + v.pages[Slot(v.lo + v.cnt - 1, v.n)].size
  }

  /** The presented file is the target overlaid with the dirty pages. */
  ghost predicate TargetOk(v: View)
    requires Shape(v)
  {
    && |v.contents| == Max(|v.target|, DirtyEnd(v))
    && (v.cnt > 0 ==> Pos(v.lo, v.ps) <= |v.target|)
    && forall k | 0 <= k < |v.target| && !(v.cnt > 0 && Pos(v.lo, v.ps) <= k < DirtyEnd(v)) ::
         v.target[k] == v.contents[k]
  }

  ghost predicate Inv(v: View)
  {
    Shape(v) && SlotsOk(v) && RingOk(v) && TargetOk(v)
  }

  /** A clean cache presents exactly its target. */
  lemma CleanIsTarget(v: View)
    requires Inv(v) && v.cnt == 0
    ensures v.contents == v.target
  {
    hide Pos, Slot, PageOf, Splice;
  }

  lemma HeldSlot(v: View, s: nat)
    requires Inv(v) && s < v.n && v.held[s] >= 0
    ensures Slot(v.held[s], v.n) == s
  {
    hide Pos, Slot, PageOf, Splice;
    assert Shows(v, s, v.held[s]);
  }

  /** Every page of the dirty run is in its slot, dirty. */
  lemma InRun(v: View, y: nat)
    requires Inv(v)
    ensures v.lo <= y < v.lo + v.cnt ==> v.held[Slot(y, v.n)] == y && v.pages[Slot(y, v.n)].isDirty
  {
    hide Pos, Slot, PageOf, Splice;
  }

  /** The slots of a ring cannot hold more dirty pages than there are slots. */
  lemma RunFitsRing(v: View)
    requires Inv(v)
    ensures v.cnt <= v.n
  {
    hide Pos, Slot, PageOf, Splice;
    InRun(v, v.lo);
    InRun(v, v.lo + v.n);
    SlotAhead(v.lo, v.n, v.n);
  }

  /** Dirty slot s is `d` slots round the ring from the first one. */
  lemma DirtySlotOffset(v: View, s: nat)
    requires Inv(v) && s < v.n && v.pages[s].isDirty
    ensures v.lo <= v.held[s] < v.lo + v.cnt
    ensures v.cnt <= v.n
    ensures var d := v.held[s] - v.lo;
            s == if v.first + d < v.n then v.first + d else v.first + d - v.n
  {
    hide Pos, Slot, PageOf, Splice;
    RunFitsRing(v);
    SlotAhead(v.lo, v.held[s] - v.lo, v.n);
  }

  /** The slot `d` round the ring from the first dirty one holds the d-th dirty page. */
  lemma DirtyAt(v: View, d: nat)
    requires Inv(v) && d < v.cnt
    ensures v.cnt <= v.n
    ensures var s := if v.first + d < v.n then v.first + d else v.first + d - v.n;
            s < v.n && v.pages[s].isDirty && v.held[s] == v.lo + d && s == Slot(v.lo + d, v.n)
  {
    hide Pos, Slot, PageOf, Splice;
    RunFitsRing(v);
    SlotAhead(v.lo, d, v.n);
    assert v.held[Slot(v.lo + d, v.n)] == v.lo + d;
  }

  /** The slot of the last dirty page, and what it says of the presented file's size. */
  lemma LastDirty(v: View)
    requires Inv(v) && v.cnt > 0
    ensures var s := (v.first + v.cnt - 1) % v.n;
            s < v.n && |v.contents| == Max(|v.target|, v.pages[s].position + v.pages[s].size)
  {
    hide Pos, Slot, PageOf, Splice;
    RunFitsRing(v);
    DirtyAt(v, v.cnt - 1);
    var e := v.first + v.cnt - 1;
    if e < v.n {
      ModSmall(e, v.n);
    } else {
      ModPlus(e - v.n, v.n);
      ModSmall(e - v.n, v.n);
    }
    assert Shows(v, e % v.n, v.lo + v.cnt - 1);
  }

  /** All dirty pages but the last are full. */
  lemma DirtyPagesFull(v: View, p: nat)
    requires Inv(v) && v.lo <= p < v.lo + v.cnt
    ensures v.held[Slot(p, v.n)] == p
    ensures p + 1 < v.lo + v.cnt ==> v.pages[Slot(p, v.n)].size == v.ps
    ensures Pos(p, v.ps) + v.pages[Slot(p, v.n)].size <= DirtyEnd(v) <= |v.contents|
  {
    hide Pos, Slot, PageOf, Splice;
    var s, last := Slot(p, v.n), v.lo + v.cnt - 1;
    assert v.held[Slot(last, v.n)] == last;
    assert Shows(v, s, p) && Shows(v, Slot(last, v.n), last);
    PosMono(p, last, v.ps);
  }

  /** Consecutive slots holding consecutive pages are one run of the presented file. */
  lemma {:induction false} RunBytes(v: View, s: nat, p: nat, k: nat)
    requires Shape(v) && k > 0 && s + k <= v.n
    requires forall x | s <= x < s + k :: v.held[x] == p + x - s && Shows(v, x, v.held[x])
    requires forall x | s <= x < s + k - 1 :: v.pages[x].size == v.ps
    ensures var len := Pos(k - 1, v.ps) + v.pages[s + k - 1].size;
            && Pos(s, v.ps) + len <= |v.cache|
            && Pos(p, v.ps) + len <= |v.contents|
            && v.cache[Pos(s, v.ps)..Pos(s, v.ps) + len] == v.contents[Pos(p, v.ps)..Pos(p, v.ps) + len]
  {
    hide Slot, Splice, Pos;
    var e := s + k - 1;
    assert v.held[e] == p + e - s;
    SlotFits(v, e);
    PosSum(s, k - 1, v.ps);
    PosSum(p, k - 1, v.ps);
    if k > 1 {
      RunBytes(v, s, p, k - 1);
      var m, z := Pos(k - 1, v.ps), v.pages[e].size;
      assert v.pages[e - 1].size == v.ps;
      PosNext(k - 2, v.ps);
      JoinRanges(v.cache, Pos(s, v.ps), v.contents, Pos(p, v.ps), m, z);
    } else {
      PosZero(v.ps);
    }
  }

  /* ---- Flushing ---- */

  /** k slots from i marked clean. */
  function Cleaned(pages: seq<Page>, i: nat, k: nat): (r: seq<Page>)
    requires i + k <= |pages|
    ensures |r| == |pages|
    ensures forall s | 0 <= s < |r| :: r[s] == if i <= s < i + k then pages[s].(isDirty := false) else pages[s]
  {
    seq(|pages|, s requires 0 <= s < |pages| => if i <= s < i + k then pages[s].(isDirty := false) else pages[s])
  }

  /** Bytes written when k slots from i are flushed in one call. */
  ghost function FlushLen(v: View, i: nat, k: nat): nat
    requires Shape(v) && 0 < k && i + k <= v.n
  {
    Pos(k - 1, v.ps) + v.pages[i + k - 1].size
  }

  /** The k dirty pages from p, in slots i .. i + k - 1, written to the target. */
  ghost function Flushed(v: View, i: nat, p: nat, k: nat): View
    requires Shape(v) && 0 < k && i + k <= v.n && k <= v.cnt
    requires Pos(i, v.ps) + FlushLen(v, i, k) <= |v.cache|
  {
    v.(pages := Cleaned(v.pages, i, k),
       target := Splice(v.target, Pos(p, v.ps), v.cache[Pos(i, v.ps)..Pos(i, v.ps) + FlushLen(v, i, k)]),
       first := if p == v.lo then Slot(v.first + k, v.n) else v.first,
       cnt := v.cnt - k,
       lo := if p == v.lo then v.lo + k else v.lo)
  }

  /** A prefix or a suffix of the dirty run can be flushed. */
  ghost predicate Flushable(v: View, i: nat, p: nat, k: nat)
  {
    && Inv(v) && 0 < k && i + k <= v.n
    && v.lo <= p && p + k <= v.lo + v.cnt && (p == v.lo || p + k == v.lo + v.cnt)
    && Slot(p, v.n) == i
  }

  /** The slots and pages of a flushable run, matched one to one. */
  lemma FlushableSlots(v: View, i: nat, p: nat, k: nat)
    requires Flushable(v, i, p, k)
    ensures k <= v.cnt <= v.n
    ensures forall x | i <= x < i + k :: v.held[x] == p + x - i && v.pages[x].isDirty
    ensures forall y: nat | p <= y < p + k :: Slot(y, v.n) == i + y - p
  {
    hide Pos, Slot, PageOf, Splice;
    RunFitsRing(v);
    forall y: nat | p <= y < p + k
      ensures Slot(y, v.n) == i + y - p
    {
      SlotAhead(p, y - p, v.n);
    }
    forall x | i <= x < i + k
      ensures v.held[x] == p + x - i && v.pages[x].isDirty
    {
      var y: nat := p + x - i;
      assert Slot(y, v.n) == x && v.held[Slot(y, v.n)] == y;
    }
  }

  /** What a flushable run writes: the presented file's own bytes, up to the end of its last page. */
  lemma FlushableBytes(v: View, i: nat, p: nat, k: nat)
    requires Flushable(v, i, p, k)
    ensures k <= v.cnt <= v.n
    ensures Pos(i, v.ps) + FlushLen(v, i, k) <= |v.cache|
    ensures Pos(p, v.ps) + FlushLen(v, i, k) <= DirtyEnd(v) <= |v.contents|
    ensures p + k == v.lo + v.cnt ==> Pos(p, v.ps) + FlushLen(v, i, k) == DirtyEnd(v)
    ensures p + k < v.lo + v.cnt ==> Pos(p, v.ps) + FlushLen(v, i, k) == Pos(p + k, v.ps)
    ensures v.cache[Pos(i, v.ps)..Pos(i, v.ps) + FlushLen(v, i, k)]
            == v.contents[Pos(p, v.ps)..Pos(p, v.ps) + FlushLen(v, i, k)]
  {
    hide Pos, Slot, PageOf, Splice, TargetOk, RingOk;
    FlushableSlots(v, i, p, k);
    forall x | i <= x < i + k
      ensures v.held[x] == p + x - i && Shows(v, x, v.held[x])
      ensures x < i + k - 1 ==> v.pages[x].size == v.ps
    {
      assert v.held[x] == p + x - i;
      DirtyPagesFull(v, p + x - i);
    }
    RunBytes(v, i, p, k);
    var l := p + k - 1;
    assert Slot(l, v.n) == i + k - 1;
    DirtyPagesFull(v, l);
    PosSum(p, k - 1, v.ps);
    PosNext(l, v.ps);
  }

  /** A flushable run is written from its first page's position, and only the front of the dirty run
      starts in the first dirty slot. */
  lemma FlushableStart(v: View, i: nat, p: nat, k: nat)
    requires Flushable(v, i, p, k)
    ensures Shape(v) && i + k <= v.n && v.pages[i].position == Pos(p, v.ps)
    ensures i == v.first <==> p == v.lo
    ensures v.cnt <= v.n && k <= v.cnt
  {
    hide Pos, Slot, PageOf, Splice, TargetOk;
    FlushableSlots(v, i, p, k);
    assert v.held[i] == p;
    assert Shows(v, i, p);
    if i == v.first {
      SlotInjective(v.lo, p, v.n);
    }
  }

  /** A slot keeps showing its page while its position, size and bytes stay. */
  lemma StillShows(v: View, w: View, s: nat, p: nat)
    requires Shape(v) && Shape(w) && s < v.n && w.n == v.n && w.ps == v.ps
    requires Shows(v, s, p) && Pos(s, v.ps) + v.ps <= |v.cache|
    requires w.pages[s].position == v.pages[s].position && w.pages[s].size == v.pages[s].size
    requires w.contents == v.contents
    requires forall k | Pos(s, v.ps) <= k < Pos(s, v.ps) + v.pages[s].size :: w.cache[k] == v.cache[k]
    ensures Shows(w, s, p)
  {
    hide Pos, Slot, PageOf, Splice;
    SlotFits(v, s);
    var a, z := Pos(s, v.ps), v.pages[s].size;
    assert w.cache[a..a + z] == v.cache[a..a + z];
  }

  /** Flushing a prefix or a suffix of the run keeps every invariant and the presented file. */
  lemma FlushKeepsInv(v: View, i: nat, p: nat, k: nat)
    requires Flushable(v, i, p, k)
    ensures Pos(i, v.ps) + FlushLen(v, i, k) <= |v.cache| && k <= v.cnt
    ensures Inv(Flushed(v, i, p, k))
  {
    hide Pos, Slot, PageOf, Splice;
    FlushableBytes(v, i, p, k);
    FlushedSlots(v, i, p, k);
    FlushedRing(v, i, p, k);
    FlushedTarget(v, i, p, k);
  }

  lemma FlushedSlots(v: View, i: nat, p: nat, k: nat)
    requires Flushable(v, i, p, k)
    requires Pos(i, v.ps) + FlushLen(v, i, k) <= |v.cache| && k <= v.cnt
    ensures Shape(Flushed(v, i, p, k)) && SlotsOk(Flushed(v, i, p, k))
  {
    hide Pos, Slot, PageOf, Splice;
    var w := Flushed(v, i, p, k);
    forall s | 0 <= s < v.n
      ensures if w.held[s] >= 0 then Shows(w, s, w.held[s]) else Empty(s, w.pages[s])
    {
      if v.held[s] >= 0 {
        SlotFits(v, s);
        StillShows(v, w, s, v.held[s]);
      }
    }
  }

  lemma FlushedRing(v: View, i: nat, p: nat, k: nat)
    requires Flushable(v, i, p, k)
    requires Pos(i, v.ps) + FlushLen(v, i, k) <= |v.cache| && k <= v.cnt
    ensures RingOk(Flushed(v, i, p, k))
  {
    hide Pos, Slot, PageOf, Splice, SlotsOk, TargetOk, Shows, Empty;
    FlushableSlots(v, i, p, k);
    var w := Flushed(v, i, p, k);
    forall s | 0 <= s < v.n
      ensures w.pages[s].isDirty <==> w.lo <= w.held[s] < w.lo + w.cnt
    {
      if v.held[s] >= 0 {
        HeldSlot(v, s);
      }
    }
    if p == v.lo {
      FirstMoves(v.lo, v.first, k, v.n);
    }
  }

  lemma FirstMoves(lo: nat, first: nat, k: nat, n: nat)
    requires n > 0 && k <= n && first == Slot(lo, n)
    ensures Slot(first + k, n) == Slot(lo + k, n)
  {
    hide Slot;
    SlotAhead(lo, k, n);
    SlotSmall(first, n);
    SlotAhead(first, k, n);
  }

  lemma FlushedTarget(v: View, i: nat, p: nat, k: nat)
    requires Flushable(v, i, p, k)
    requires Pos(i, v.ps) + FlushLen(v, i, k) <= |v.cache| && k <= v.cnt
    ensures TargetOk(Flushed(v, i, p, k))
  {
    hide Pos, Slot, PageOf, Splice, SlotsOk, RingOk, Shows, DirtyEnd;
    FlushableBytes(v, i, p, k);
    var w := Flushed(v, i, p, k);
    FlushedEnd(v, i, p, k);
    if w.cnt == 0 {
      NothingDirty(w);
    }
    var a, len := Pos(p, v.ps), FlushLen(v, i, k);
    PosMono(v.lo, p, v.ps);
    PosMono(p + k, v.lo + v.cnt, v.ps);
    SpliceOfContents(v.target, v.contents, a, len);
  }

  lemma NothingDirty(v: View)
    requires Shape(v) && v.cnt == 0
    ensures DirtyEnd(v) == 0
  {
  }

  lemma SpliceOfContents(target: seq<byte>, contents: seq<byte>, a: nat, len: nat)
    requires a + len <= |contents|
    ensures var t := Splice(target, a, contents[a..a + len]);
      && |t| == (if len == 0 then |target| else Max(|target|, a + len))
      && (forall x | a <= x < a + len :: t[x] == contents[x])
      && forall x | 0 <= x < |target| && !(a <= x < a + len) :: t[x] == target[x]
  {
    hide Splice;
  }

  /** The dirty range left by a flush. */
  lemma FlushedEnd(v: View, i: nat, p: nat, k: nat)
    requires Flushable(v, i, p, k)
    requires Pos(i, v.ps) + FlushLen(v, i, k) <= |v.cache| && k <= v.cnt
    ensures var w := Flushed(v, i, p, k);
            && (p > v.lo ==> DirtyEnd(w) == Pos(p, v.ps))
            && (p == v.lo && w.cnt > 0 ==> DirtyEnd(w) == DirtyEnd(v))
  {
    hide Pos, Slot, PageOf, Splice, SlotsOk, RingOk, TargetOk, Shows;
    FlushableSlots(v, i, p, k);
    var w := Flushed(v, i, p, k);
    if w.cnt > 0 {
      var last := w.lo + w.cnt - 1;
      DirtyPagesFull(v, last);
      PosNext(last, v.ps);
    }
  }

  /* ---- Loading pages from the target ---- */

  /** Whether a load of `m` full pages and, if `rest` > 0, one short one from slot s on fills slot j. */
  predicate Filled(s: nat, m: nat, rest: nat, j: int)
  {
    s <= j < s + m || (j == s + m && rest > 0)
  }

  function LoadedPages(pages: seq<Page>, s: nat, r: nat, m: nat, rest: nat, ps: nat): (w: seq<Page>)
    ensures |w| == |pages|
    ensures forall j | 0 <= j < |w| ::
              w[j] == if Filled(s, m, rest, j)
                      then pages[j].(size := if j < s + m then ps else rest, position := Pos(r + j - s, ps)) else pages[j]
  {
    seq(|pages|, j requires 0 <= j < |pages| =>
      if Filled(s, m, rest, j)
      then pages[j].(size := if j < s + m then ps else rest, position := Pos(r + j - s, ps)) else pages[j])
  }

  function LoadedHeld(held: seq<int>, s: nat, r: nat, m: nat, rest: nat): (w: seq<int>)
    ensures |w| == |held|
    ensures forall j | 0 <= j < |w| :: w[j] == if Filled(s, m, rest, j) then r + j - s else held[j]
  {
    seq(|held|, j requires 0 <= j < |held| => if Filled(s, m, rest, j) then r + j - s else held[j])
  }

  /** The pages and bytes a read of the target from page r puts in slots s on. */
  ghost function Loaded(v: View, s: nat, r: nat, chunk: seq<byte>, m: nat, rest: nat): View
    requires Shape(v) && Pos(s, v.ps) + |chunk| <= |v.cache|
  {
    v.(pages := LoadedPages(v.pages, s, r, m, rest, v.ps),
       cache := Splice(v.cache, Pos(s, v.ps), chunk),
       held := LoadedHeld(v.held, s, r, m, rest))
  }

  /** The target has been read from page r for up to k pages into slots that are all clean. */
  ghost predicate Loadable(v: View, s: nat, r: nat, k: nat, chunk: seq<byte>, m: nat, rest: nat)
  {
    && Inv(v) && s + k <= v.n && Slot(r, v.n) == s
    && (forall j | s <= j < s + k :: !v.pages[j].isDirty)
    && chunk == Extract(v.target, Pos(r, v.ps), Pos(k, v.ps))
    && |chunk| == Pos(m, v.ps) + rest && rest < v.ps && m + (if rest > 0 then 1 else 0) <= k
  }

  /** The slots a load fills, and that none of its pages is dirty. */
  lemma LoadableSlots(v: View, s: nat, r: nat, k: nat, chunk: seq<byte>, m: nat, rest: nat)
    requires Loadable(v, s, r, k, chunk, m, rest)
    ensures forall y: nat | r <= y < r + k :: Slot(y, v.n) == s + y - r && !(v.lo <= y < v.lo + v.cnt)
  {
    hide Pos, Slot, PageOf, Splice;
    forall y: nat | r <= y < r + k
      ensures Slot(y, v.n) == s + y - r && !(v.lo <= y < v.lo + v.cnt)
    {
      SlotAhead(r, y - r, v.n);
      InRun(v, y);
    }
  }

  /** As none of the k pages is dirty, the whole dirty run lies on one side of them. */
  lemma DirtyOutside(v: View, s: nat, r: nat, k: nat, chunk: seq<byte>, m: nat, rest: nat)
    requires Loadable(v, s, r, k, chunk, m, rest) && k > 0
    ensures v.cnt == 0 || DirtyEnd(v) <= Pos(r, v.ps) || Pos(r + k, v.ps) <= Pos(v.lo, v.ps)
  {
    hide Pos, Slot, PageOf, Splice;
    if v.cnt > 0 {
      var c := if r <= v.lo then v.lo else r;
      LoadableSlots(v, s, r, k, chunk, m, rest);
      assert r <= c < r + k ==> Slot(c, v.n) == s + c - r;
      PosMono(r + k, v.lo, v.ps);
      PosMono(v.lo + v.cnt, r, v.ps);
      PosNext(v.lo + v.cnt - 1, v.ps);
      DirtyPagesFull(v, v.lo + v.cnt - 1);
      assert Shows(v, Slot(v.lo + v.cnt - 1, v.n), v.lo + v.cnt - 1);
    }
  }

  /** Outside the dirty bytes the target reads as the presented file. */
  lemma TargetRange(v: View, at: nat, len: nat)
    requires Inv(v) && (v.cnt == 0 || DirtyEnd(v) <= at || at + len <= Pos(v.lo, v.ps))
    ensures Extract(v.target, at, len) == Extract(v.contents, at, len)
  {
    hide Pos, Slot, PageOf, Splice, SlotsOk, RingOk, Shows;
  }

  /** Pages that are not dirty read from the target as they stand in the presented file. */
  lemma CleanRangeIsTarget(v: View, s: nat, r: nat, k: nat, chunk: seq<byte>, m: nat, rest: nat)
    requires Loadable(v, s, r, k, chunk, m, rest)
    ensures Pos(s, v.ps) + |chunk| <= |v.cache|
    ensures chunk == Extract(v.contents, Pos(r, v.ps), Pos(k, v.ps))
    ensures k > 0 ==> Pos(k, v.ps) > 0
  {
    hide Pos, Slot, PageOf, Splice, SlotsOk, RingOk, Shows, TargetOk, Extract;
    PosSum(s, k, v.ps);
    PosSum(r, k, v.ps);
    PosMono(s + k, v.n, v.ps);
    PosZero(v.ps);
    if k > 0 {
      PosMono(0, k, v.ps);
      DirtyOutside(v, s, r, k, chunk, m, rest);
      TargetRange(v, Pos(r, v.ps), Pos(k, v.ps));
    }
  }

  lemma LoadKeepsInv(v: View, s: nat, r: nat, k: nat, chunk: seq<byte>, m: nat, rest: nat)
    requires Loadable(v, s, r, k, chunk, m, rest)
    ensures Pos(s, v.ps) + |chunk| <= |v.cache|
    ensures Inv(Loaded(v, s, r, chunk, m, rest))
  {
    hide Pos, Slot, PageOf, Splice;
    CleanRangeIsTarget(v, s, r, k, chunk, m, rest);
    var w := Loaded(v, s, r, chunk, m, rest);
    forall j | 0 <= j < v.n
      ensures if w.held[j] >= 0 then Shows(w, j, w.held[j]) else Empty(j, w.pages[j])
    {
      if Filled(s, m, rest, j) {
        LoadedSlot(v, s, r, k, chunk, m, rest, j);
      } else if v.held[j] >= 0 {
        UnloadedSlot(v, s, r, chunk, m, rest, j);
      }
    }
    LoadedRing(v, s, r, k, chunk, m, rest);
  }

  lemma LoadedRing(v: View, s: nat, r: nat, k: nat, chunk: seq<byte>, m: nat, rest: nat)
    requires Loadable(v, s, r, k, chunk, m, rest) && Pos(s, v.ps) + |chunk| <= |v.cache|
    requires Shape(Loaded(v, s, r, chunk, m, rest))
    ensures RingOk(Loaded(v, s, r, chunk, m, rest)) && TargetOk(Loaded(v, s, r, chunk, m, rest))
  {
    hide Pos, Slot, PageOf, Splice, SlotsOk, Shows, Extract, TargetOk, Loadable;
    var w := Loaded(v, s, r, chunk, m, rest);
    LoadedClean(v, s, r, k, chunk, m, rest);
    forall j | 0 <= j < v.n
      ensures w.pages[j].isDirty <==> w.lo <= w.held[j] < w.lo + w.cnt
    {
    }
    forall p: nat | v.lo <= p < v.lo + v.cnt
      ensures w.held[Slot(p, v.n)] == p
    {
      assert v.held[Slot(p, v.n)] == p;
    }
    LoadedTarget(v, w);
  }

  /** Loading fills clean slots with pages outside the dirty run. */
  lemma LoadedClean(v: View, s: nat, r: nat, k: nat, chunk: seq<byte>, m: nat, rest: nat)
    requires Loadable(v, s, r, k, chunk, m, rest) && Pos(s, v.ps) + |chunk| <= |v.cache|
    ensures Inv(v)
    ensures var w := Loaded(v, s, r, chunk, m, rest);
      && w.ps == v.ps && w.n == v.n && w.lo == v.lo && w.cnt == v.cnt && w.first == v.first
      && w.target == v.target && w.contents == v.contents && |w.pages| == |w.held| == v.n
      && forall j | 0 <= j < v.n ::
           w.pages[j].isDirty == v.pages[j].isDirty
           && (v.pages[j].isDirty ==> w.pages[j] == v.pages[j] && w.held[j] == v.held[j])
           && (!v.pages[j].isDirty ==> !(v.lo <= w.held[j] < v.lo + v.cnt))
  {
    hide Pos, Slot, PageOf, Splice, SlotsOk, Shows, Extract, TargetOk;
    var w := Loaded(v, s, r, chunk, m, rest);
    LoadableSlots(v, s, r, k, chunk, m, rest);
    forall j | 0 <= j < v.n && !v.pages[j].isDirty
      ensures !(v.lo <= w.held[j] < v.lo + v.cnt)
    {
      if Filled(s, m, rest, j) {
        var y: nat := r + j - s;
        assert Slot(y, v.n) == j;
      }
    }
  }

  /** The target and the end of the dirty run are the same if the dirty pages are. */
  lemma LoadedTarget(v: View, w: View)
    requires Inv(v) && Shape(w) && w.ps == v.ps && w.n == v.n && w.lo == v.lo && w.cnt == v.cnt
    requires w.target == v.target && w.contents == v.contents
    requires forall j | 0 <= j < v.n && v.pages[j].isDirty :: w.pages[j] == v.pages[j]
    ensures TargetOk(w)
  {
    hide Pos, Slot, PageOf, Splice, SlotsOk, Shows;
    if v.cnt > 0 {
      InRun(v, v.lo + v.cnt - 1);
    }
    assert DirtyEnd(w) == DirtyEnd(v);
  }

  lemma UnloadedSlot(v: View, s: nat, r: nat, chunk: seq<byte>, m: nat, rest: nat, j: nat)
    requires Shape(v) && j < v.n && v.held[j] >= 0 && Shows(v, j, v.held[j])
    requires s <= v.n && Pos(s, v.ps) + |chunk| <= |v.cache| && |chunk| == Pos(m, v.ps) + rest && rest < v.ps
    requires !Filled(s, m, rest, j)
    ensures Shape(Loaded(v, s, r, chunk, m, rest))
    ensures Shows(Loaded(v, s, r, chunk, m, rest), j, v.held[j])
  {
    hide Pos, Slot, PageOf, Splice;
    var w := Loaded(v, s, r, chunk, m, rest);
    SlotFits(v, j);
    PosSum(s, m, v.ps);
    PosMono(j, s, v.ps);
    PosMono(s + m, j, v.ps);
    PosNext(s + m, v.ps);
    PosMono(s + m + 1, j, v.ps);
    StillShows(v, w, j, v.held[j]);
  }

  lemma LoadedSlot(v: View, s: nat, r: nat, k: nat, chunk: seq<byte>, m: nat, rest: nat, j: nat)
    requires Loadable(v, s, r, k, chunk, m, rest)
    requires Filled(s, m, rest, j)
    ensures Pos(s, v.ps) + |chunk| <= |v.cache|
    ensures Shows(Loaded(v, s, r, chunk, m, rest), j, r + j - s)
  {
    hide Pos, Slot, PageOf, Splice, SlotsOk, RingOk, TargetOk, Extract;
    CleanRangeIsTarget(v, s, r, k, chunk, m, rest);
    var w := Loaded(v, s, r, chunk, m, rest);
    var d: nat := j - s;
    var y: nat := r + d;
    LoadableSlots(v, s, r, k, chunk, m, rest);
    assert Slot(y, v.n) == j;
    LoadedBytes(v, s, r, k, chunk, d, w.pages[j].size, m, rest);
  }

  lemma LoadedBytes(v: View, s: nat, r: nat, k: nat, chunk: seq<byte>, d: nat, z: nat, m: nat, rest: nat)
    requires Shape(v) && s + d < v.n && d <= m <= k && 0 < z <= v.ps && |chunk| == Pos(m, v.ps) + rest
    requires if d < m then z == v.ps else z == rest
    requires chunk == Extract(v.contents, Pos(r, v.ps), Pos(k, v.ps)) && Pos(s, v.ps) + |chunk| <= |v.cache|
    ensures var a, b := Pos(s + d, v.ps), Pos(r + d, v.ps);
            && a + v.ps <= |v.cache| && b + z <= |v.contents|
            && |Splice(v.cache, Pos(s, v.ps), chunk)| == |v.cache|
            && Splice(v.cache, Pos(s, v.ps), chunk)[a..a + z] == v.contents[b..b + z]
            && (z < v.ps && m < k ==> b + z == |v.contents|)
  {
    hide Pos, Slot, PageOf, Splice, SlotsOk, RingOk, TargetOk, Extract;
    SlotFits(v, s + d);
    PosSum(s, d, v.ps);
    PosSum(r, d, v.ps);
    PosNext(d, v.ps);
    PosMono(d, m, v.ps);
    PosMono(m, k, v.ps);
    SpliceWithin(v.cache, Pos(s, v.ps), chunk, Pos(d, v.ps), z);
    ExtractWithin(v.contents, Pos(r, v.ps), Pos(k, v.ps), Pos(d, v.ps), z);
  }

  /** A read of the target that starts at a page boundary yields full pages and at most one short one. */
  lemma LoadableChunk(v: View, s: nat, r: nat, k: nat, chunk: seq<byte>, m: nat, rest: nat)
    requires Inv(v) && s + k <= v.n && Slot(r, v.n) == s
    requires forall j | s <= j < s + k :: !v.pages[j].isDirty
    requires chunk == Extract(v.target, Pos(r, v.ps), Pos(k, v.ps))
    requires |chunk| == Pos(m, v.ps) + rest && rest < v.ps && m + (if rest > 0 then 1 else 0) <= k
    ensures Loadable(v, s, r, k, chunk, m, rest)
  {
    hide Pos, Slot, PageOf, Splice, Extract;
  }

  /** At most k pages of bytes are full pages and a rest, and the rest needs a page of its own. */
  lemma CutInPages(len: nat, k: nat, ps: nat)
    requires ps > 0 && len <= Pos(k, ps)
    ensures var m, rest := len / ps, len % ps;
      len == Pos(m, ps) + rest && rest < ps && m + (if rest > 0 then 1 else 0) <= k
  {
    hide Pos;
    var m := len / ps;
    Locate(len, ps);
    PosMono(k, m, ps);
    PosMono(m, k, ps);
  }

  /** The pages one read call may ask for: within the bytes wanted and the ring's end, and none if their number wraps. */
  lemma ReadSpan(remCount: nat, ps: nat, n: nat, s: nat, k: nat)
    requires 0 < remCount <= UINT32_MAX && ps > 0 && s < n && k == Min(PagesFor32(remCount, ps), n - s)
    ensures remCount + ps - 1 > UINT32_MAX ==> k == 0
    ensures remCount + ps - 1 <= UINT32_MAX ==> 0 < k && Pos(k - 1, ps) < remCount
  {
    hide Pos, PagesFor, PagesFor32;
    if remCount + ps - 1 > UINT32_MAX {
      PagesFor32Wraps(remCount, ps);
    } else {
      PagesFor32Exact(remCount, ps);
      PagesForBounds(remCount, ps);
      PosMono(k - 1, PagesFor(remCount, ps) - 1, ps);
    }
  }

  lemma FetchedFrom(d: seq<byte>, at: nat, count: nat)
    ensures Extract(d, at, count) == [] <==> at >= |d| || count == 0
  {
  }

  lemma LoadedDirty(v: View, s: nat, r: nat, chunk: seq<byte>, m: nat, rest: nat)
    requires Shape(v) && Pos(s, v.ps) + |chunk| <= |v.cache|
    ensures var w := Loaded(v, s, r, chunk, m, rest);
      |w.pages| == v.n && forall j | 0 <= j < v.n :: w.pages[j].isDirty == v.pages[j].isDirty
  {
  }

  /** Every page a load fills starts inside the bytes wanted and inside the file, and the first page is
      filled if anything was read. */
  lemma LoadedSpan(v: View, w: View, s: nat, r: nat, k: nat, chunk: seq<byte>, m: nat, rest: nat, want: nat)
    requires Loadable(v, s, r, k, chunk, m, rest) && k > 0 && chunk != [] && Pos(k - 1, v.ps) < want
    requires Pos(s, v.ps) + |chunk| <= |v.cache| && w == Loaded(v, s, r, chunk, m, rest)
    ensures w.n == v.n && w.ps == v.ps && |w.held| == |w.pages| == v.n && w.held[s] == r
    ensures forall j | 0 <= j < v.n ::
              && (w.pages[j].position == -1 ==> v.pages[j].position == -1)
              && (w.held[j] == v.held[j]
                  || (w.held[j] >= r && Pos(w.held[j], v.ps) < Min(Pos(r, v.ps) + want, |v.contents|)))
  {
    hide Pos, Slot, PageOf, Splice, SlotsOk, RingOk, TargetOk, Extract;
    CleanRangeIsTarget(v, s, r, k, chunk, m, rest);
    PosZero(v.ps);
    assert Filled(s, m, rest, s);
    forall j | 0 <= j < v.n
      ensures (w.pages[j].position == -1 ==> v.pages[j].position == -1)
              && (w.held[j] == v.held[j]
                  || (w.held[j] >= r && Pos(w.held[j], v.ps) < Min(Pos(r, v.ps) + want, |v.contents|)))
    {
      if Filled(s, m, rest, j) {
        var d: nat := j - s;
        PosSum(r, d, v.ps);
        PosMono(d, k - 1, v.ps);
        PosMono(d, m, v.ps);
      }
    }
  }

  /** All slots but one keep showing their pages when only that slot's record changes. */
  lemma OthersShow(v: View, w: View, s: nat)
    requires Shape(v) && Shape(w) && SlotsOk(v) && s < v.n
    requires w.n == v.n && w.ps == v.ps && w.cache == v.cache && w.contents == v.contents
    requires forall j | 0 <= j < v.n && j != s :: w.pages[j] == v.pages[j] && w.held[j] == v.held[j]
    requires if w.held[s] >= 0 then Shows(w, s, w.held[s]) else Empty(s, w.pages[s])
    ensures SlotsOk(w)
  {
    hide Pos, Slot, PageOf, Splice;
    forall j | 0 <= j < v.n && j != s && v.held[j] >= 0
      ensures Shows(w, j, v.held[j])
    {
      SlotFits(v, j);
      StillShows(v, w, j, v.held[j]);
    }
  }

  /* ---- Claiming, marking and filling a page for writing ---- */

  /** Changing a clean slot's record leaves the dirty run and the target as they are. */
  lemma SameTarget(v: View, w: View, s: nat)
    requires Inv(v) && Shape(w) && s < v.n == w.n && !v.pages[s].isDirty && !w.pages[s].isDirty
    requires w.ps == v.ps && w.target == v.target && w.contents == v.contents
    requires w.lo == v.lo && w.cnt == v.cnt && w.first == v.first
    requires forall j | 0 <= j < v.n && j != s :: w.pages[j] == v.pages[j] && w.held[j] == v.held[j]
    requires !(v.lo <= w.held[s] < v.lo + v.cnt)
    ensures RingOk(w) && TargetOk(w)
  {
    hide Pos, Slot, PageOf, Splice, SlotsOk, Shows;
    if v.cnt > 0 {
      InRun(v, v.lo + v.cnt - 1);
    }
    assert DirtyEnd(w) == DirtyEnd(v);
  }

  /** A clean slot forgotten, before pages past the end of the file are written into it. */
  ghost function Blanked(v: View, s: nat): View
    requires Shape(v) && s < v.n
  {
    v.(pages := v.pages[s := v.pages[s].(size := 0, position := -1)], held := v.held[s := -1])
  }

  lemma BlankKeepsInv(v: View, s: nat)
    requires Inv(v) && s < v.n && !v.pages[s].isDirty
    ensures Inv(Blanked(v, s))
  {
    hide Pos, Slot, PageOf, Splice;
    var w := Blanked(v, s);
    OthersShow(v, w, s);
    SameTarget(v, w, s);
  }

  /** A blank slot claimed for page q, which starts where the file ends. */
  ghost function Claimed(v: View, s: nat, q: nat): View
    requires Shape(v) && s < v.n
  {
    v.(pages := v.pages[s := v.pages[s].(size := 0, position := Pos(q, v.ps))], held := v.held[s := q])
  }

  lemma ClaimKeepsInv(v: View, s: nat, q: nat)
    requires Inv(v) && s == Slot(q, v.n) && v.held[s] < 0 && Pos(q, v.ps) == |v.contents|
    ensures Inv(Claimed(v, s, q))
  {
    hide Pos, Slot, PageOf, Splice;
    var w := Claimed(v, s, q);
    SlotFits(v, s);
    assert Shows(w, s, q);
    OthersShow(v, w, s);
    InRun(v, q);
    SameTarget(v, w, s);
  }

  /** Page q, held clean in slot s, joins the end of the dirty run or starts a new one. */
  ghost function Marked(v: View, s: nat, q: nat): View
    requires Shape(v) && s < v.n
  {
    v.(pages := v.pages[s := v.pages[s].(isDirty := true)],
       first := if v.cnt == 0 then s else v.first,
       lo := if v.cnt == 0 then q else v.lo,
       cnt := v.cnt + 1)
  }

  lemma MarkKeepsInv(v: View, s: nat, q: nat)
    requires Inv(v) && s < v.n && v.held[s] == q && !v.pages[s].isDirty
    requires v.cnt == 0 || q == v.lo + v.cnt
    ensures Inv(Marked(v, s, q))
  {
    hide Pos, Slot, PageOf, Splice;
    var w := Marked(v, s, q);
    assert Shows(v, s, q);
    SlotFits(v, s);
    StillShows(v, w, s, q);
    OthersShow(v, w, s);
    MarkedTarget(v, s, q);
  }

  lemma MarkedTarget(v: View, s: nat, q: nat)
    requires Inv(v) && s < v.n && v.held[s] == q && !v.pages[s].isDirty
    requires v.cnt == 0 || q == v.lo + v.cnt
    ensures RingOk(Marked(v, s, q)) && TargetOk(Marked(v, s, q))
  {
    hide Pos, Slot, PageOf, Splice, TargetOk, Shows;
    MarkedRing(v, s, q);
    MarkedEnd(v, s, q);
  }

  lemma MarkedRing(v: View, s: nat, q: nat)
    requires Inv(v) && s < v.n && v.held[s] == q && !v.pages[s].isDirty
    requires v.cnt == 0 || q == v.lo + v.cnt
    ensures Slot(q, v.n) == s && RingOk(Marked(v, s, q))
  {
    hide Pos, Slot, PageOf, Splice, TargetOk, Shows, SlotsOk;
    HeldSlot(v, s);
    forall j | 0 <= j < v.n && v.held[j] == q
      ensures j == s
    {
      HeldSlot(v, j);
    }
  }

  lemma MarkedEnd(v: View, s: nat, q: nat)
    requires Inv(v) && s < v.n && v.held[s] == q && Slot(q, v.n) == s && !v.pages[s].isDirty
    requires v.cnt == 0 || q == v.lo + v.cnt
    ensures TargetOk(Marked(v, s, q))
  {
    hide Pos, Slot, PageOf, Splice, RingOk;
    var w := Marked(v, s, q);
    assert Shows(v, s, q);
    assert DirtyEnd(w) == Pos(q, v.ps) + v.pages[s].size;
    if v.cnt > 0 {
      DirtyPagesFull(v, q - 1);
      assert Shows(v, Slot(q - 1, v.n), q - 1);
      PosNext(q - 1, v.ps);
      PosMono(v.lo, q, v.ps);
    }
  }

  /** b stored at offset o of dirty page q in slot s. */
  ghost function Stored(v: View, s: nat, q: nat, o: nat, b: seq<byte>): View
    requires Shape(v) && s < v.n && Pos(s, v.ps) + o + |b| <= |v.cache|
  {
    var at := Pos(s, v.ps) + o;
    v.(pages := v.pages[s := v.pages[s].(size := Max(v.pages[s].size, o + |b|))],
       cache := Splice(v.cache, at, b),
       contents := Splice(v.contents, Pos(q, v.ps) + o, b))
  }

  ghost predicate Storable(v: View, s: nat, q: nat, o: nat, b: seq<byte>)
  {
    && Inv(v) && s < v.n && v.held[s] == q && v.pages[s].isDirty
    && o < v.ps && o + |b| <= v.ps && b != [] && Pos(q, v.ps) + o <= |v.contents|
  }

  /** A store inside the file's bounds changes the presented file by exactly that write. */
  lemma StoreKeepsInv(v: View, s: nat, q: nat, o: nat, b: seq<byte>)
    requires Storable(v, s, q, o, b)
    ensures Pos(s, v.ps) + o + |b| <= |v.cache|
    ensures Inv(Stored(v, s, q, o, b))
  {
    hide Pos, Slot, PageOf, Splice;
    SlotFits(v, s);
    var w := Stored(v, s, q, o, b);
    assert Shows(v, s, q);
    StoredSlot(v, s, q, o, b);
    forall j | 0 <= j < v.n
      ensures if w.held[j] >= 0 then Shows(w, j, w.held[j]) else Empty(j, w.pages[j])
    {
      if j != s && v.held[j] >= 0 {
        StoredElsewhere(v, s, q, o, b, j);
      }
    }
    StoredTarget(v, s, q, o, b);
  }

  /** The facts about slot s that a store into it needs. */
  ghost predicate StoreFits(v: View, s: nat, q: nat, o: nat, b: seq<byte>)
  {
    && Shape(v) && s < v.n && Pos(s, v.ps) + v.ps <= |v.cache| && Shows(v, s, q)
    && o <= v.pages[s].size && o + |b| <= v.ps && b != [] && Pos(q, v.ps) + o <= |v.contents|
  }

  lemma StoredSlot(v: View, s: nat, q: nat, o: nat, b: seq<byte>)
    requires StoreFits(v, s, q, o, b)
    ensures Shows(Stored(v, s, q, o, b), s, q)
  {
    hide Pos, Slot, PageOf, Splice;
    SpliceBoth(v.cache, Pos(s, v.ps), v.contents, Pos(q, v.ps), v.pages[s].size, o, b);
  }

  lemma StoredElsewhere(v: View, s: nat, q: nat, o: nat, b: seq<byte>, j: nat)
    requires StoreFits(v, s, q, o, b)
    requires j < v.n && j != s && v.held[j] >= 0 && Shows(v, j, v.held[j])
    ensures Shows(Stored(v, s, q, o, b), j, v.held[j])
  {
    hide Pos, Slot, PageOf, Splice, SlotsOk, RingOk, TargetOk, Inv, Shows;
    var w, r := Stored(v, s, q, o, b), v.held[j];
    ShowsMeans(v, s, q);
    ShowsMeans(v, j, r);
    SlotFits(v, j);
    if j < s {
      PosMono(j, s, v.ps);
    } else {
      PosMono(s, j, v.ps);
    }
    if r < q {
      PosMono(r, q, v.ps);
    } else {
      PosMono(q, r, v.ps);
    }
    var a, p, z := Pos(j, v.ps), Pos(r, v.ps), v.pages[j].size;
    SpliceOutside(v.cache, Pos(s, v.ps) + o, b, a, a + z);
    SpliceOutside(v.contents, Pos(q, v.ps) + o, b, p, p + z);
    ShowsKept(v, w, j, r);
  }

  lemma ShowsMeans(v: View, s: nat, p: nat)
    requires Shape(v) && s < v.n && Shows(v, s, p)
    ensures Slot(p, v.n) == s && v.pages[s].position == Pos(p, v.ps) && v.pages[s].size <= v.ps
    ensures Pos(p, v.ps) + v.pages[s].size <= |v.contents|
    ensures v.pages[s].size < v.ps ==> Pos(p, v.ps) + v.pages[s].size == |v.contents|
  {
  }

  /** A slot shows its page as long as the slot, its bytes and the page's stay. */
  lemma ShowsKept(v: View, w: View, j: nat, r: nat)
    requires Shape(v) && Shape(w) && w.n == v.n && w.ps == v.ps && j < v.n && Shows(v, j, r) && w.pages[j] == v.pages[j]
    requires |w.cache| == |v.cache| && Pos(j, v.ps) + v.pages[j].size <= |v.cache|
    requires var z := v.pages[j].size;
      && w.cache[Pos(j, v.ps)..Pos(j, v.ps) + z] == v.cache[Pos(j, v.ps)..Pos(j, v.ps) + z]
      && |w.contents| >= Pos(r, v.ps) + z && (z < v.ps ==> |w.contents| == |v.contents|)
      && w.contents[Pos(r, v.ps)..Pos(r, v.ps) + z] == v.contents[Pos(r, v.ps)..Pos(r, v.ps) + z]
    ensures Shows(w, j, r)
  {
    hide Pos, Slot;
  }

  lemma StoredTarget(v: View, s: nat, q: nat, o: nat, b: seq<byte>)
    requires Storable(v, s, q, o, b) && Pos(s, v.ps) + o + |b| <= |v.cache|
    ensures RingOk(Stored(v, s, q, o, b)) && TargetOk(Stored(v, s, q, o, b))
  {
    hide Pos, Slot, PageOf, Splice, SlotsOk, Shows;
    var w := Stored(v, s, q, o, b);
    StoredEnd(v, s, q, o, b);
    PosMono(v.lo, q, v.ps);
  }

  /** A store moves the end of the dirty range only if it is in the last dirty page. */
  lemma InRunOf(v: View, s: nat, q: nat)
    requires Inv(v) && s < v.n && v.held[s] == q && v.pages[s].isDirty
    ensures v.lo <= q < v.lo + v.cnt
  {
    hide Pos, Slot, PageOf, Splice, TargetOk, SlotsOk;
  }

  /** The last dirty page is in another slot than any other dirty page. */
  lemma LastSlot(v: View, q: nat)
    requires Inv(v) && v.lo <= q < v.lo + v.cnt - 1
    ensures Slot(v.lo + v.cnt - 1, v.n) != Slot(q, v.n)
  {
    hide Pos, Slot, PageOf, Splice;
    InRun(v, q);
    InRun(v, v.lo + v.cnt - 1);
  }

  lemma StoredEnd(v: View, s: nat, q: nat, o: nat, b: seq<byte>)
    requires Storable(v, s, q, o, b) && Pos(s, v.ps) + o + |b| <= |v.cache|
    ensures v.lo <= q < v.lo + v.cnt
    ensures DirtyEnd(Stored(v, s, q, o, b)) == Max(DirtyEnd(v), Pos(q, v.ps) + o + |b|)
  {
    hide Pos, Slot, PageOf, Splice, TargetOk, SlotsOk, RingOk;
    var last := v.lo + v.cnt - 1;
    InRunOf(v, s, q);
    HeldSlot(v, s);
    DirtyPagesFull(v, last);
    DirtyPagesFull(v, q);
    if q < last {
      PosMono(q, last, v.ps);
      LastSlot(v, q);
    }
  }

  /* ---- Cache hits ---- */

  /** Comparing positions tells exactly whether a slot holds the page. */
  lemma HitTest(v: View, s: nat, q: nat)
    requires Inv(v) && s == Slot(q, v.n)
    ensures v.pages[s].position == Pos(q, v.ps) <==> v.held[s] == q
  {
    hide Pos, Slot, PageOf, Splice, RingOk, TargetOk;
    if v.held[s] >= 0 {
      assert Shows(v, s, v.held[s]);
      PosMono(v.held[s], q, v.ps);
      PosMono(q, v.held[s], v.ps);
    } else {
      assert Empty(s, v.pages[s]);
      PosZero(v.ps);
      PosMono(0, q, v.ps);
      SlotSmall(0, v.n);
    }
  }

  /** A hit past the page's bytes is past the file's end. */
  lemma HitEnd(v: View, s: nat, q: nat, o: nat)
    requires Inv(v) && s < v.n && v.held[s] == q && o < v.ps
    ensures Pos(s, v.ps) + v.ps <= |v.cache| && v.pages[s].size <= v.ps
    ensures o >= v.pages[s].size ==> Pos(q, v.ps) + o >= |v.contents|
  {
    hide Pos, Slot, PageOf, Splice, RingOk, TargetOk;
    SlotFits(v, s);
    assert Shows(v, s, q);
  }

  /** The bytes of a hit are the presented file's. */
  lemma HitBytes(v: View, s: nat, q: nat, o: nat, k: nat)
    requires Inv(v) && s < v.n && v.held[s] == q && o + k <= v.pages[s].size
    ensures Pos(s, v.ps) + o + k <= |v.cache| && Pos(q, v.ps) + o + k <= |v.contents|
    ensures v.cache[Pos(s, v.ps) + o..Pos(s, v.ps) + o + k] == v.contents[Pos(q, v.ps) + o..Pos(q, v.ps) + o + k]
  {
    hide Pos, Slot, PageOf, Splice, RingOk, TargetOk;
    SlotFits(v, s);
    assert Shows(v, s, q);
    SubRange(v.cache, Pos(s, v.ps), v.contents, Pos(q, v.ps), v.pages[s].size, o, k);
  }

  /* ---- Which accesses are safe ---- */

  /** A flush may start in slot s: not strictly inside the upper part of a run that wraps. */
  predicate FlushSafe(pages: seq<Page>, first: nat, cnt: nat, s: nat)
    requires s < |pages|
  {
    !(pages[s].isDirty && first < s && first + cnt > |pages|)
  }

  /** A read or write at page q either finds the page or may flush its slot. */
  ghost predicate Reachable(v: View, q: nat)
    requires Shape(v)
  {
    v.held[Slot(q, v.n)] == q || FlushSafe(v.pages, v.first, v.cnt, Slot(q, v.n))
  }

  /** With nothing dirty every page is safe to use. */
  lemma AllReachable(v: View, q: nat)
    requires Inv(v) && v.cnt == 0
    ensures Reachable(v, q)
  {
    hide Pos, Slot, PageOf, Splice, SlotsOk, TargetOk;
  }

  lemma CleanReachable(v: View, q: nat)
    requires Shape(v) && !v.pages[Slot(q, v.n)].isDirty
    ensures Reachable(v, q)
  {
  }

  /** After page q has been used, page q + 1 is always safe to use. */
  lemma NextReachable(v: View, q: nat)
    requires Inv(v) && v.held[Slot(q, v.n)] == q
    ensures Reachable(v, q + 1)
  {
    hide Pos, Slot, PageOf, Splice;
    var s := Slot(q + 1, v.n);
    if v.pages[s].isDirty && v.first < s && v.first + v.cnt > v.n {
      DirtySlotOffset(v, s);
      var p := v.held[s];
      assert v.held[Slot(p - 1, v.n)] == p - 1;
      assert Shows(v, s, p);
      SlotAhead(q, 1, v.n);
      SlotAhead(p - 1, 1, v.n);
      assert Slot(p - 1, v.n) == Slot(q, v.n);
    }
  }

  /** Wherever inside a held page an access ends, the next one is safe. */
  lemma AdvanceReachable(v: View, from: nat, to: nat)
    requires Inv(v) && v.held[Slot(PageOf(from, v.ps), v.n)] == PageOf(from, v.ps)
    requires from < to <= Pos(PageOf(from, v.ps), v.ps) + v.ps
    ensures Reachable(v, PageOf(to, v.ps)) && PageOf(from, v.ps) <= PageOf(to, v.ps) <= PageOf(from, v.ps) + 1
  {
    hide Pos, Slot, PageOf, Splice, RingOk, TargetOk;
    Advance(from, to, v.ps);
    NextReachable(v, PageOf(from, v.ps));
  }

  /** Every page of the file from offset `at` on is in the cache. */
  ghost predicate TailCached(v: View, at: nat)
    requires Shape(v)
  {
    forall r: nat | r >= PageOf(at, v.ps) && Pos(r, v.ps) < |v.contents| :: v.held[Slot(r, v.n)] == r
  }

  lemma TailSame(v: View, w: View, at: nat)
    requires Shape(v) && Shape(w) && w.ps == v.ps && w.n == v.n && w.held == v.held && w.contents == v.contents
    ensures TailCached(v, at) ==> TailCached(w, at)
  {
    hide Pos, Slot, PageOf;
  }

  /** With the tail in the cache, a miss means the file ends before the page. */
  lemma TailMiss(v: View, at: nat)
    requires Shape(v) && TailCached(v, at) && v.held[Slot(PageOf(at, v.ps), v.n)] != PageOf(at, v.ps)
    ensures Pos(PageOf(at, v.ps), v.ps) >= |v.contents|
  {
    hide Pos, Slot, PageOf;
  }

  lemma TailPastEnd(v: View, at: nat)
    requires Shape(v) && Pos(PageOf(at, v.ps), v.ps) >= |v.contents|
    ensures TailCached(v, at)
  {
    hide Pos, Slot, PageOf;
    forall r: nat | r >= PageOf(at, v.ps)
      ensures Pos(r, v.ps) >= |v.contents|
    {
      PosMono(PageOf(at, v.ps), r, v.ps);
    }
  }

  /** A store can lengthen the file only to its own end, so the tail stays cached. */
  lemma StoreEofOk(v: View, w: View, from: nat, to: nat, atEnd: bool)
    requires Shape(v) && Shape(w) && w.n == v.n && w.ps == v.ps && w.held == v.held
    requires |w.contents| == Max(|v.contents|, to)
    requires from < to && PageOf(from, v.ps) <= PageOf(to, v.ps) && v.held[Slot(PageOf(from, v.ps), v.n)] == PageOf(from, v.ps)
    requires to <= Pos(PageOf(from, v.ps), v.ps) + v.ps
    requires atEnd ==> TailCached(v, from)
    ensures atEnd ==> TailCached(w, to)
  {
    hide Pos, Slot, PageOf;
    var q := PageOf(from, v.ps);
    Advance(from, to, v.ps);
    if atEnd {
      forall r: nat | r >= PageOf(to, v.ps) && Pos(r, v.ps) < |w.contents|
        ensures w.held[Slot(r, v.n)] == r
      {
        PosMono(q + 1, r, v.ps);
      }
    }
  }

  /** Slot 0 is never strictly inside the upper part of a wrapped run. */
  lemma ZeroSafe(v: View)
    requires Inv(v)
    ensures FlushSafe(v.pages, v.first, v.cnt, 0)
  {
  }

  /** A clean page whose predecessor is dirty in the previous slot follows the dirty run. */
  lemma Contiguous(v: View, prev: nat, q: nat)
    requires Inv(v) && prev < v.n && v.pages[prev].isDirty && v.pages[prev].position == Pos(q, v.ps) - v.ps
    requires v.held[Slot(q, v.n)] == q && !v.pages[Slot(q, v.n)].isDirty
    ensures q == v.lo + v.cnt
  {
    hide Pos, Slot, PageOf, Splice, TargetOk;
    var p := v.held[prev];
    assert Shows(v, prev, p);
    PosNext(p, v.ps);
    PosMono(p + 1, q, v.ps);
    PosMono(q, p + 1, v.ps);
  }

  /** The page behind the dirty run has the run's last page in the slot before its own. */
  lemma FollowsRun(v: View, q: nat)
    requires Inv(v) && v.cnt > 0 && q == v.lo + v.cnt
    ensures var s := Slot(q, v.n); var prev := if s == 0 then v.n - 1 else s - 1;
            v.pages[prev].isDirty && v.pages[prev].position == Pos(q, v.ps) - v.ps
  {
    hide Pos, Slot, PageOf, Splice, SlotsOk, RingOk, TargetOk, Shows;
    InRun(v, q - 1);
    SlotAhead(q - 1, 1, v.n);
    PosNext(q - 1, v.ps);
    HeldShows(v, Slot(q - 1, v.n));
    ShowsMeans(v, Slot(q - 1, v.n), q - 1);
  }

  lemma HeldShows(v: View, s: nat)
    requires Inv(v) && s < v.n && v.held[s] >= 0
    ensures Shows(v, s, v.held[s])
  {
    hide Pos, Slot, PageOf, Splice, RingOk, TargetOk, Shows;
  }

  /** k more pages from q on are dirty, behind the ones there were, and nothing has been written to the target. */
  ghost predicate Grew(v: View, w: View, q: nat, k: int)
  {
    w.target == v.target && w.cnt == v.cnt + k && (w.cnt > 0 ==> w.lo == if v.cnt > 0 then v.lo else q)
  }

  lemma GrewNone(v: View, q: nat)
    ensures Grew(v, v, q, 0)
  {
  }

  lemma GrewJoin(v: View, w: View, x: View, q: nat, k: int, r: nat, m: int)
    requires Grew(v, w, q, k) && Grew(w, x, r, m) && k >= 0 && (w.cnt == 0 ==> r == q)
    ensures Grew(v, x, q, k + m)
  {
  }

  /** Appending a page leaves the rest appendable. */
  lemma AppendNext(v: View, w: View, at: nat, to: nat, count: nat, k: nat)
    requires Inv(v) && Appendable(v, at, count) && Shape(w) && w.n == v.n && w.ps == v.ps && 0 < k <= count
    requires k == Min(count, v.ps) && to == at + k == |w.contents| && Grew(v, w, PageOf(at, v.ps), 1)
    ensures PagesFor(count - k, v.ps) + 1 == PagesFor(count, v.ps)
    ensures count > k ==> Appendable(w, to, count - k) && PageOf(to, v.ps) == PageOf(at, v.ps) + 1
  {
    hide Pos, Slot, PageOf, PagesFor, SlotsOk, RingOk, TargetOk, Splice;
    OnePageLess(count, v.ps);
    Locate(at, v.ps);
    Advance(at, to, v.ps);
  }

  lemma OnePageLess(count: nat, ps: nat)
    requires ps > 0 && count > 0
    ensures PagesFor(count - Min(count, ps), ps) + 1 == PagesFor(count, ps)
  {
    if count >= ps {
      var x := count - ps + ps - 1;
      Locate(x, ps);
      DivUnique(x + ps, x / ps + 1, x % ps, ps);
    } else {
      NoPages(ps);
      DivUnique(count + ps - 1, 1, count - 1, ps);
    }
  }

  lemma NotInRun(v: View, s: nat, q: nat)
    requires Inv(v) && s < v.n && v.held[s] == q && (v.cnt == 0 || v.lo + v.cnt == q)
    ensures !v.pages[s].isDirty
  {
    hide Pos, Slot, PageOf, Splice, SlotsOk, TargetOk;
  }

  /** Pages that must outlive a read from page q0 up to `goal`, the position having reached `at`. */
  ghost predicate KeptPages(v: View, at: nat, q0: nat, goal: int)
    requires Shape(v)
  {
    forall r: nat | q0 <= r && Pos(r, v.ps) < at && goal <= Pos(r + v.n, v.ps) :: v.held[Slot(r, v.n)] == r
  }

  lemma KeptAdvance(v: View, from: nat, to: nat, q0: nat, goal: int, start: nat)
    requires Inv(v) && v.held[Slot(PageOf(from, v.ps), v.n)] == PageOf(from, v.ps)
    requires from <= to <= Pos(PageOf(from, v.ps), v.ps) + v.ps
    requires start <= from && q0 == PageOf(start, v.ps) && (from > start ==> KeptPages(v, from, q0, goal))
    ensures KeptPages(v, to, q0, goal)
  {
    hide Pos, Slot, PageOf, Splice, RingOk, TargetOk, SlotsOk;
    var q := PageOf(from, v.ps);
    Locate(from, v.ps);
    forall r: nat | q0 <= r && Pos(r, v.ps) < to && goal <= Pos(r + v.n, v.ps)
      ensures v.held[Slot(r, v.n)] == r
    {
      PosMono(q + 1, r, v.ps);
      PosNext(q, v.ps);
      PosMono(r, q, v.ps);
    }
  }

  /** Data that starts a page at the file's end, with room in the ring beside the dirty pages, which it follows if there
      are any. */
  ghost predicate Appendable(v: View, at: nat, count: nat)
    requires Shape(v)
  {
    var q := PageOf(at, v.ps);
    && at == |v.contents| == Pos(q, v.ps)
    && if v.cnt == 0 then PagesFor(count, v.ps) <= v.n
       else v.lo + v.cnt == q && q + PagesFor(count, v.ps) <= v.lo + v.n
  }

  /** The slots of such data are clean. */
  lemma AppendableClean(v: View, at: nat, count: nat)
    requires Inv(v) && Appendable(v, at, count)
    ensures VisitedClean(v.pages, Slot(PageOf(at, v.ps), v.n), PagesFor(count, v.ps))
  {
    hide Pos, Slot, PageOf, Splice, SlotsOk, TargetOk, PagesFor;
    var q := PageOf(at, v.ps);
    var s := Slot(q, v.n);
    forall y: nat | s <= y < s + PagesFor(count, v.ps)
      ensures !v.pages[Slot(y, v.n)].isDirty
    {
      SlotSmall(s, v.n);
      SlotAhead(s, y - s, v.n);
      SlotAhead(q, y - s, v.n);
      if v.pages[Slot(y, v.n)].isDirty {
        DirtySlotOffset(v, Slot(y, v.n));
        HeldSlot(v, Slot(y, v.n));
        SlotInjective(v.held[Slot(y, v.n)], q + (y - s), v.n);
      }
    }
  }

  lemma FewerVisited(pages: seq<Page>, start: nat, m: nat, k: nat)
    requires |pages| > 0 && VisitedClean(pages, start, k) && m <= k
    ensures VisitedClean(pages, start, m)
  {
  }

  /** Whole pages wanted are as many pages. */
  lemma WholePages(k: nat, ps: nat)
    requires ps > 0 && Pos(k, ps) + ps - 1 <= UINT32_MAX
    ensures PagesFor32(Pos(k, ps), ps) == k
  {
    hide Pos, PagesFor, PagesFor32;
    PagesFor32Exact(Pos(k, ps), ps);
    PagesForBounds(Pos(k, ps), ps);
    var m := PagesFor(Pos(k, ps), ps);
    PosMono(m, k, ps);
    PosZero(ps);
    if k > 0 {
      PosMono(0, k, ps);
      PosMono(k, m - 1, ps);
    } else {
      NoPages(ps);
    }
  }

  lemma NoPages(ps: nat)
    requires ps > 0
    ensures PagesFor(0, ps) == 0
  {
    DivUnique(ps - 1, 0, ps - 1, ps);
  }

  /** Whether a read-ahead of k pages, k being the wanted number clipped to the ring, spares the page it is for. */
  ghost predicate AheadFits(v: View, at: nat, wanted: nat)
    requires Shape(v)
  {
    var q := PageOf(at, v.ps);
    at == Pos(q, v.ps) || wanted < v.n || |v.contents| <= Pos(q + v.n, v.ps)
  }

  /** The places a read-ahead of k pages from `at` is measured by. */
  lemma AheadPlaces(v: View, at: nat, k: nat)
    requires Shape(v) && 0 < k <= v.n
    ensures var q := PageOf(at, v.ps);
      && Pos(q, v.ps) <= at < Pos(q, v.ps) + v.ps && Pos(k, v.ps) >= v.ps && Pos(q + k, v.ps) == Pos(q, v.ps) + Pos(k, v.ps)
      && Pos(q + k, v.ps) <= Pos(q + v.n, v.ps) && (k < v.n ==> Pos(q + k, v.ps) + v.ps <= Pos(q + v.n, v.ps))
      && Pos(q, v.ps) + v.ps <= Pos(q + v.n, v.ps) && Pos(q + v.n, v.ps) + v.ps <= Pos(q + v.n + v.n, v.ps)
      && Slot(q + v.n, v.n) == Slot(q, v.n) < v.n
  {
    hide Pos, Slot, PageOf;
    var q := PageOf(at, v.ps);
    Locate(at, v.ps);
    PosZero(v.ps);
    PosNext(0, v.ps);
    PosMono(1, k, v.ps);
    PosSum(q, k, v.ps);
    PosNext(q, v.ps);
    PosNext(q + k, v.ps);
    PosNext(q + v.n, v.ps);
    PosMono(q + 1, q + v.n, v.ps);
    PosMono(q + k, q + v.n, v.ps);
    PosMono(q + v.n + 1, q + v.n + v.n, v.ps);
    if k < v.n {
      PosMono(q + k + 1, q + v.n, v.ps);
    }
    SlotAhead(q, v.n, v.n);
  }

  /** The pages wanted by a write, or none if their number wraps. */
  lemma WriteSpan(count: nat, ps: nat)
    requires 0 < count <= UINT32_MAX && ps > 0
    ensures count + ps - 1 > UINT32_MAX ==> PagesFor32(count, ps) == 0
    ensures count + ps - 1 <= UINT32_MAX ==> PagesFor32(count, ps) == PagesFor(count, ps) > 0
    ensures PagesFor32(count, ps) <= PagesFor(count, ps)
  {
    hide PagesFor, PagesFor32, Pos;
    PagesForBounds(count, ps);
    if count + ps - 1 > UINT32_MAX {
      PagesFor32Wraps(count, ps);
    } else {
      PagesFor32Exact(count, ps);
    }
  }

  /** What a read-ahead asks for, and that nothing of it is in the way of data being appended. */
  lemma AheadWanted(v: View, at: nat, count: nat, k: nat)
    requires Inv(v) && 0 < count <= UINT32_MAX && Pos(v.n, v.ps) + v.ps - 1 <= UINT32_MAX
    requires k == Min(PagesFor32(count, v.ps), v.n)
    ensures count + v.ps - 1 > UINT32_MAX ==> k == 0
    ensures count + v.ps - 1 <= UINT32_MAX ==> k == Min(PagesFor(count, v.ps), v.n) && k > 0
    ensures Pos(k, v.ps) <= UINT32_MAX - v.ps + 1 && (Pos(k, v.ps) > 0 <==> k > 0)
    ensures Pos(PageOf(at, v.ps), v.ps) <= at
    ensures Appendable(v, at, count) ==> Pos(PageOf(at, v.ps), v.ps) >= |v.contents| && MissIsQuiet(v, at, Pos(k, v.ps))
  {
    hide Pos, Slot, PageOf, Splice, SlotsOk, RingOk, TargetOk, PagesFor, PagesFor32, VisitedClean;
    WriteSpan(count, v.ps);
    PosZero(v.ps);
    PosMono(0, k, v.ps);
    PosMono(k, v.n, v.ps);
    Locate(at, v.ps);
    WholePages(k, v.ps);
    if Appendable(v, at, count) {
      AppendableClean(v, at, count);
      var s := Slot(PageOf(at, v.ps), v.n);
      FewerVisited(v.pages, s, MissPages(Pos(k, v.ps), v.ps, v.n, s), PagesFor(count, v.ps));
    }
  }

  /** What a read-ahead of `got` bytes from `at` leaves in the cache. */
  lemma ReadAheadKept(v: View, at: nat, got: nat, k: nat, wanted: nat)
    requires Inv(v) && at <= |v.contents| && k == Min(wanted, v.n) && k > 0
    requires got == Min(Pos(k, v.ps), |v.contents| - at)
    requires Pos(PageOf(at, v.ps), v.ps) < |v.contents| ==>
               KeptPages(v, at + got, PageOf(at, v.ps), Min(at + Pos(k, v.ps), |v.contents|))
    ensures AheadFits(v, at, wanted) ==>
              && (got < Pos(k, v.ps) ==> TailCached(v, at))
              && (v.held[Slot(PageOf(at, v.ps), v.n)] == PageOf(at, v.ps)
                  || (got < Pos(k, v.ps) && Pos(PageOf(at, v.ps), v.ps) == |v.contents| == at))
    ensures !AheadFits(v, at, wanted) ==>
              v.held[Slot(PageOf(at, v.ps), v.n)] == PageOf(at, v.ps) + v.n
              && k == v.n && Pos(PageOf(at, v.ps) + v.n, v.ps) < |v.contents|
  {
    hide Pos, Slot, PageOf, Splice, SlotsOk, RingOk, TargetOk, KeptPages, TailCached;
    var q := PageOf(at, v.ps);
    var goal := Min(at + Pos(k, v.ps), |v.contents|);
    AheadPlaces(v, at, k);
    if AheadFits(v, at, wanted) {
      assert goal <= Pos(q + v.n, v.ps);
      if Pos(q, v.ps) < |v.contents| {
        KeptFrom(v, at + got, q, goal);
      }
      TailFrom(v, at, got, k, q, goal);
    } else {
      KeptAt(v, at + got, q, goal, q + v.n);
    }
  }

  lemma KeptAt(v: View, at: nat, q0: nat, goal: int, r: nat)
    requires Shape(v) && KeptPages(v, at, q0, goal)
    requires q0 <= r && Pos(r, v.ps) < at && goal <= Pos(r + v.n, v.ps)
    ensures v.held[Slot(r, v.n)] == r
  {
    hide Pos, Slot;
  }

  /** When even the first page outlives the read, so do all it touched. */
  lemma KeptFrom(v: View, at: nat, q0: nat, goal: int)
    requires Shape(v) && KeptPages(v, at, q0, goal) && goal <= Pos(q0 + v.n, v.ps)
    ensures forall r: nat | q0 <= r && Pos(r, v.ps) < at :: v.held[Slot(r, v.n)] == r
  {
    hide Pos, Slot;
    forall r: nat | q0 <= r && Pos(r, v.ps) < at
      ensures v.held[Slot(r, v.n)] == r
    {
      PosMono(q0 + v.n, r + v.n, v.ps);
      KeptAt(v, at, q0, goal, r);
    }
  }

  lemma TailFrom(v: View, at: nat, got: nat, k: nat, q: nat, goal: int)
    requires Shape(v) && at <= |v.contents| && q == PageOf(at, v.ps) && got == Min(Pos(k, v.ps), |v.contents| - at)
    requires Pos(q, v.ps) < |v.contents| ==>
               forall r: nat | q <= r && Pos(r, v.ps) < at + got :: v.held[Slot(r, v.n)] == r
    ensures got < Pos(k, v.ps) ==> TailCached(v, at)
  {
    hide Pos, Slot, PageOf;
    if got < Pos(k, v.ps) {
      forall r: nat | r >= q && Pos(r, v.ps) < |v.contents|
        ensures v.held[Slot(r, v.n)] == r
      {
        PosMono(q, r, v.ps);
      }
    }
  }

  /** A load of later pages below `goal` evicts none of the pages to keep. */
  lemma KeptLoad(v: View, w: View, at: nat, q: nat, q0: nat, goal: int)
    requires Inv(v) && Inv(w) && w.n == v.n && w.ps == v.ps && KeptPages(v, at, q0, goal)
    requires at < Pos(q, v.ps) + v.ps
    requires forall s | 0 <= s < v.n ::
               w.held[s] == v.held[s] || (w.held[s] >= q && Pos(w.held[s], v.ps) < goal)
    ensures KeptPages(w, at, q0, goal)
  {
    hide Pos, Slot, PageOf, Splice, RingOk, TargetOk, SlotsOk;
    forall r: nat | q0 <= r && Pos(r, v.ps) < at && goal <= Pos(r + v.n, v.ps)
      ensures w.held[Slot(r, v.n)] == r
    {
      assert v.held[Slot(r, v.n)] == r;
      StillKept(w, at, q, goal, r);
    }
  }

  lemma StillKept(w: View, at: nat, q: nat, goal: int, r: nat)
    requires Inv(w) && Pos(r, w.ps) < at < Pos(q, w.ps) + w.ps && goal <= Pos(r + w.n, w.ps)
    requires var y := w.held[Slot(r, w.n)]; y == r || (y >= q && Pos(y, w.ps) < goal)
    ensures w.held[Slot(r, w.n)] == r
  {
    hide Pos, Slot, PageOf, Splice, RingOk, TargetOk, SlotsOk;
    var s := Slot(r, w.n);
    var y := w.held[s];
    if y != r {
      HeldSlot(w, s);
      PosMono(q + 1, r, w.ps);
      PosNext(q, w.ps);
      SlotInjective(r, y, w.n);
      PosMono(r + w.n, y, w.ps);
    }
  }

  /** Flushing a prefix of the run never makes a page unsafe. */
  lemma PrefixFlushReachable(v: View, i: nat, k: nat, q: nat)
    requires Flushable(v, i, v.lo, k) && Reachable(v, q)
    ensures Pos(i, v.ps) + FlushLen(v, i, k) <= |v.cache| && k <= v.cnt
    ensures Reachable(Flushed(v, i, v.lo, k), q)
  {
    hide Pos, Slot, PageOf, Splice, SlotsOk, TargetOk, Shows;
    FlushableBytes(v, i, v.lo, k);
    var w, s := Flushed(v, i, v.lo, k), Slot(q, v.n);
    RunFitsRing(v);
    SlotAhead(v.lo, k, v.n);
    FlushedRing(v, i, v.lo, k);
    if w.pages[s].isDirty {
      DirtySlotOffset(v, s);
    }
  }

  /* ---- One turn of the flush loop ---- */

  function NextSlot(s: nat, n: nat): nat
  {
    if s + 1 == n then 0 else s + 1
  }

  lemma NextIsMod(s: nat, n: nat)
    requires s < n
    ensures NextSlot(s, n) == (s + 1) % n
  {
    if s + 1 < n {
      ModSmall(s + 1, n);
    } else {
      ModPlus(0, n);
      ModSmall(0, n);
    }
  }

  /** A slot that follows a clean one is clean or the first dirty one, so a flush may start there. */
  lemma AfterClean(v: View, s: nat)
    requires Inv(v) && s < v.n && !v.pages[s].isDirty
    ensures NextSlot(s, v.n) < v.n && FlushSafe(v.pages, v.first, v.cnt, NextSlot(s, v.n))
  {
    hide Pos, Slot, PageOf, Splice, SlotsOk, TargetOk;
    var x := NextSlot(s, v.n);
    if v.pages[x].isDirty {
      DirtySlotOffset(v, x);
      var d := v.held[x] - v.lo;
      if d > 0 {
        DirtyAt(v, d - 1);
      }
    }
  }

  /** Where a dirty slot stands in its run, as the flush loop computes it: the two assertions of the loop
      hold and both branches give the number of dirty pages from this slot to the end of the run. */
  lemma DirtyTail(v: View, s: nat)
    requires Inv(v) && s < v.n && v.pages[s].isDirty && FlushSafe(v.pages, v.first, v.cnt, s)
    ensures v.lo <= v.held[s] < v.lo + v.cnt && Slot(v.held[s], v.n) == s && v.cnt <= v.n
    ensures var rest := v.lo + v.cnt - v.held[s];
            if s >= v.first then s - v.first < v.cnt && rest == v.cnt - (s - v.first)
            else (v.first + v.cnt) % v.n > s && rest == (v.first + v.cnt) % v.n - s && rest <= v.cnt
    ensures s != v.first <==> v.held[s] > v.lo
    ensures s != v.first ==> v.lo + v.cnt - v.held[s] <= v.n - s
  {
    hide Pos, Slot, PageOf, Splice, SlotsOk, TargetOk;
    DirtySlotOffset(v, s);
    HeldSlot(v, s);
    if s < v.first {
      ModSmall(v.first + v.cnt - v.n, v.n);
      ModPlus(v.first + v.cnt - v.n, v.n);
    }
  }

  /** From a clean slot all slots up to the ring's end, or up to the first dirty one, are clean. */
  lemma CleanStretch(v: View, s: nat)
    requires Inv(v) && s < v.n && !v.pages[s].isDirty && v.cnt > 0
    ensures s != v.first && v.first < v.n
    ensures forall x | s <= x < if s >= v.first then v.n else v.first :: !v.pages[x].isDirty
  {
    hide Pos, Slot, PageOf, Splice, SlotsOk, TargetOk;
    DirtyAt(v, 0);
    forall x | s <= x < if s >= v.first then v.n else v.first
      ensures !v.pages[x].isDirty
    {
      if v.pages[x].isDirty {
        DirtySlotOffset(v, x);
        DirtyAt(v, if s >= v.first then s - v.first else s + v.n - v.first);
      }
    }
  }

  /** Walking `visited` slots round the ring from `start` finds them all clean. */
  ghost predicate VisitedClean(pages: seq<Page>, start: nat, visited: nat)
    requires |pages| > 0
  {
    forall y: nat | start <= y < start + visited :: !pages[Slot(y, |pages|)].isDirty
  }

  /** A clean stretch of k slots from where the walk stands extends the walk. */
  lemma VisitClean(was: seq<Page>, pages: seq<Page>, start: nat, visited: nat, at: nat, k: nat)
    requires |was| == |pages| > 0 && VisitedClean(was, start, visited)
    requires forall s | 0 <= s < |pages| && pages[s].isDirty :: was[s].isDirty
    requires at == Slot(start + visited, |pages|) && at + k <= |pages|
    requires forall s | at <= s < at + k :: !pages[s].isDirty
    ensures VisitedClean(pages, start, visited + k)
    ensures Slot(start + visited + k, |pages|) == (at + k) % |pages|
  {
    hide Slot;
    VisitMore(start, visited, at, k, |pages|);
    forall y: nat | start <= y < start + visited + k
      ensures !pages[Slot(y, |pages|)].isDirty
    {
      if y < start + visited {
        assert !was[Slot(y, |pages|)].isDirty;
      }
    }
  }

  lemma NoneVisited(pages: seq<Page>, start: nat)
    requires |pages| > 0
    ensures VisitedClean(pages, start, 0)
  {
  }

  ghost predicate MissingPage(v: View, at: nat)
    requires Shape(v)
  {
    v.held[Slot(PageOf(at, v.ps), v.n)] != PageOf(at, v.ps)
  }

  /** How many pages the read loop's miss branch asks for. */
  function MissPages(count: nat, ps: nat, n: nat, s: nat): nat
    requires ps > 0 && s <= n
  {
    Min(PagesFor32(count, ps), n - s)
  }

  /** The slots that a read of `count` bytes flushes if it misses are clean. */
  ghost predicate MissIsQuiet(v: View, at: nat, count: nat)
    requires Shape(v)
  {
    var s := Slot(PageOf(at, v.ps), v.n);
    VisitedClean(v.pages, s, MissPages(count, v.ps, v.n, s))
  }

  /** The target and the dirty run are the same. */
  ghost predicate Unflushed(v: View, w: View)
  {
    w.target == v.target && w.cnt == v.cnt && w.lo == v.lo
  }

  /** What a read of `count` bytes from `at`, which gets `got` of them, leaves of a cache v. */
  ghost predicate ReadLeaves(v: View, at: nat, w: View, count: nat, got: nat)
    requires Shape(v) && Shape(w) && w.n == v.n && w.ps == v.ps
  {
    var q := PageOf(at, v.ps);
    && Settles(v, w)
    // the pages read stay as far as the ring can hold them, and the first one if it had to be loaded is clean
    && (0 < count <= UINT32_MAX - v.ps + 1 && Pos(q, v.ps) < |v.contents| ==>
          KeptPages(w, at + got, q, Min(at + count, |v.contents|)))
    && (0 < count <= UINT32_MAX - v.ps + 1 && MissingPage(v, at) ==> !w.pages[Slot(q, v.n)].isDirty)
    // nothing is written to the target if nothing is dirty, or nothing in the way of a page behind the file's end
    && (v.cnt == 0 || (MissingPage(v, at) && MissIsQuiet(v, at, count) && Pos(q, v.ps) >= |v.contents|) ==> Unflushed(v, w))
    // nothing happens without bytes to read, or where the count of pages wraps at once
    && (count == 0 || (MissingPage(v, at) && count + v.ps - 1 > UINT32_MAX) ==> w == v && got == 0)
  }

  /** No slot has become blank or dirty. */
  ghost predicate Settles(v: View, w: View)
  {
    && |w.pages| == |v.pages|
    && forall s | 0 <= s < |v.pages| ::
         (w.pages[s].position == -1 ==> v.pages[s].position == -1) && (w.pages[s].isDirty ==> v.pages[s].isDirty)
  }

  lemma SettlesAt(v: View, w: View, s: nat)
    requires Settles(v, w) && s < |v.pages|
    ensures |w.pages| == |v.pages| && (w.pages[s].isDirty ==> v.pages[s].isDirty)
  {
  }

  lemma SettlesSame(v: View)
    ensures Settles(v, v)
  {
  }

  lemma SettlesJoin(v: View, w: View, x: View)
    requires Settles(v, w) && Settles(w, x)
    ensures Settles(v, x)
  {
  }

  lemma NoneDirty(v: View, start: nat, k: nat)
    requires Inv(v) && v.cnt == 0
    ensures VisitedClean(v.pages, start, k)
  {
    hide Pos, Slot, PageOf, Splice, SlotsOk, TargetOk;
  }

  lemma VisitedNext(pages: seq<Page>, start: nat, required: nat, visited: nat)
    requires |pages| > 0 && VisitedClean(pages, start, required) && visited < required
    ensures !pages[Slot(start + visited, |pages|)].isDirty
  {
    hide Slot;
  }

  /** A walk inside the ring, slot by slot. */
  lemma VisitedSlots(v: View, start: nat, k: nat)
    requires Shape(v) && VisitedClean(v.pages, start, k) && start + k <= v.n
    ensures forall s | start <= s < start + k :: !v.pages[s].isDirty
  {
    hide Slot;
    forall s: nat | start <= s < start + k
      ensures !v.pages[s].isDirty
    {
      SlotSmall(s, v.n);
      assert !v.pages[Slot(s, v.n)].isDirty;
    }
  }

  /** How many slots round the ring s is ahead of `from`. */
  function Ahead(from: nat, s: nat, n: nat): nat
    requires from < n && s < n
  {
    if s >= from then s - from else s + n - from
  }

  lemma AheadMod(from: nat, i: nat, n: nat)
    requires from < n && i < n
    ensures (from + i) % n < n
    ensures Ahead(from, (from + i) % n, n) == i
    ensures forall s | 0 <= s < n && Ahead(from, s, n) == i :: s == (from + i) % n
  {
    hide Slot;
    SlotIsMod(from + i, n);
    SlotSmall(from, n);
    SlotAhead(from, i, n);
  }

  /** A clean walk read as a statement about slots. */
  lemma AheadSlots(v: View, from: nat, k: nat)
    requires Shape(v) && from < v.n && k <= v.n && VisitedClean(v.pages, from, k)
    ensures forall s | 0 <= s < v.n && Ahead(from, s, v.n) < k :: !v.pages[s].isDirty
  {
    hide Slot, Pos;
    SlotSmall(from, v.n);
    forall s | 0 <= s < v.n && Ahead(from, s, v.n) < k
      ensures !v.pages[s].isDirty
    {
      var y: nat := from + Ahead(from, s, v.n);
      SlotAhead(from, Ahead(from, s, v.n), v.n);
      assert !v.pages[Slot(y, |v.pages|)].isDirty;
    }
  }

  lemma NotVisitedDirty(v: View, start: nat, y: nat)
    requires Inv(v) && VisitedClean(v.pages, start, v.n) && start <= y < start + v.n
    ensures !v.pages[Slot(y, v.n)].isDirty
  {
  }

  /** The flush loop has done its work when nothing is dirty or enough slots have been visited. */
  lemma FlushDone(v: View, start: nat, visited: nat, required: nat)
    requires Inv(v) && start < v.n && VisitedClean(v.pages, start, visited)
    requires v.cnt == 0 || visited >= required
    ensures VisitedClean(v.pages, start, required)
    ensures required >= v.n ==> v.cnt == 0
  {
    hide Pos, Slot, PageOf, Splice, SlotsOk, TargetOk;
    if required >= v.n && visited >= required {
      AllClean(v, start);
    }
  }

  /** When every slot has been visited and left clean, nothing is dirty. */
  lemma AllClean(v: View, start: nat)
    requires Inv(v) && start < v.n && VisitedClean(v.pages, start, v.n)
    ensures v.cnt == 0
  {
    hide Pos, Slot, PageOf, Splice, SlotsOk, TargetOk;
    if v.cnt > 0 {
      DirtyAt(v, 0);
      var j: nat := if v.first >= start then v.first - start else v.first + v.n - start;
      SlotSmall(start, v.n);
      SlotAhead(start, j, v.n);
      NotVisitedDirty(v, start, start + j);
    }
  }

  /** k slots from `at` extend the visited stretch. */
  lemma VisitMore(start: nat, visited: nat, at: nat, k: nat, n: nat)
    requires n > 0 && at == Slot(start + visited, n) && at + k <= n
    ensures forall y: nat | start + visited <= y < start + visited + k :: Slot(y, n) == at + y - start - visited
    ensures Slot(start + visited + k, n) == (if at + k == n then 0 else at + k) == (at + k) % n
    ensures k > 0 ==> NextSlot(at + k - 1, n) == Slot(start + visited + k, n)
  {
    hide Slot;
    forall y: nat | start + visited <= y < start + visited + k
      ensures Slot(y, n) == at + y - start - visited
    {
      SlotAhead(start + visited, y - start - visited, n);
    }
    SlotAhead(start + visited, k, n);
    if at + k < n {
      ModSmall(at + k, n);
    } else {
      ModPlus(0, n);
      ModSmall(0, n);
    }
  }

  /* ---- Blank slots during a write ---- */

  /** Blank slots lie within `bn` slots from that of page q: the pages about to be written. */
  ghost predicate BlanksAhead(v: View, q: nat, bn: nat)
    requires Shape(v)
  {
    forall s | 0 <= s < v.n && v.pages[s].position == -1 :: Ahead(Slot(q, v.n), s, v.n) < bn
  }

  lemma FirstBlank(v: View, at: nat, bn: nat)
    requires Shape(v) && at <= |v.contents| && bn == if v.contents == [] then 1 else 0
    requires forall s | 0 <= s < v.n :: v.pages[s].position == -1 ==> s == 0 && v.contents == []
    ensures BlanksAhead(v, PageOf(at, v.ps), bn)
  {
    hide Pos, Slot;
    SlotSmall(0, v.n);
  }

  lemma BlankIsEmpty(v: View, s: nat)
    requires Inv(v) && s < v.n && v.pages[s].position == -1
    ensures v.held[s] < 0
  {
    hide Pos, Slot, PageOf, Splice, RingOk, TargetOk;
    assert if v.held[s] >= 0 then Shows(v, s, v.held[s]) else Empty(s, v.pages[s]);
  }

  lemma BlankClaimable(v: View, q: nat, bn: nat)
    requires Inv(v) && BlanksAhead(v, q, bn) && v.pages[Slot(q, v.n)].position == -1
    ensures bn > 0 && v.held[Slot(q, v.n)] < 0
  {
    hide Pos, Slot, PageOf, Splice, RingOk, TargetOk, SlotsOk;
    BlankIsEmpty(v, Slot(q, v.n));
    assert Ahead(Slot(q, v.n), Slot(q, v.n), v.n) == 0;
  }

  lemma BlanksFewer(v: View, w: View, q: nat, bn: nat)
    requires Shape(v) && Shape(w) && w.n == v.n && BlanksAhead(v, q, bn)
    requires forall s | 0 <= s < v.n && w.pages[s].position == -1 :: v.pages[s].position == -1
    ensures BlanksAhead(w, q, bn)
  {
    hide Pos, Slot;
  }

  lemma BlanksMore(v: View, w: View, q: nat, bn: nat, atEnd: bool, wanted: nat, end: nat)
    requires Shape(v) && Shape(w) && w.n == v.n && w.ps == v.ps && BlanksAhead(v, q, bn)
    requires forall s | 0 <= s < v.n && w.pages[s].position == -1 ::
               v.pages[s].position == -1
               || (atEnd && Ahead(Slot(q, v.n), s, v.n) < Min(PagesFor(wanted, v.ps), v.n))
    requires wanted > 0 && (atEnd ==> end == Pos(q, v.ps) + wanted) && (bn > 0 ==> Pos(q + bn - 1, v.ps) < end)
    ensures var b: nat := if atEnd then Max(bn, Min(PagesFor(wanted, v.ps), v.n)) else bn;
            BlanksAhead(w, q, b) && (b > 0 ==> Pos(q + b - 1, v.ps) < end)
  {
    hide Pos, Slot, PagesFor;
    PagesForBounds(wanted, v.ps);
    var m := Min(PagesFor(wanted, v.ps), v.n);
    PosMono(m - 1, PagesFor(wanted, v.ps) - 1, v.ps);
    PosSum(q, m - 1, v.ps);
  }

  /** Filling page q, or the rest of the data, uses up the first of the blank slots. */
  lemma BlanksAdvance(v: View, w: View, from: nat, to: nat, bn: nat, end: nat)
    requires Shape(v) && Shape(w) && w.n == v.n && w.ps == v.ps && BlanksAhead(v, PageOf(from, v.ps), bn)
    requires forall s | 0 <= s < v.n :: w.pages[s].position == v.pages[s].position
    requires v.pages[Slot(PageOf(from, v.ps), v.n)].position != -1
    requires from < to <= Pos(PageOf(from, v.ps), v.ps) + v.ps && to <= end
    requires to == end || to == Pos(PageOf(from, v.ps), v.ps) + v.ps
    requires bn > 0 ==> Pos(PageOf(from, v.ps) + bn - 1, v.ps) < end
    ensures var b: nat := if bn > 0 then bn - 1 else 0;
            && BlanksAhead(w, PageOf(to, v.ps), b)
            && (b > 0 ==> to == Pos(PageOf(to, v.ps), v.ps) && Pos(PageOf(to, v.ps) + b - 1, v.ps) < end)
    ensures to < end ==> to == Pos(PageOf(to, v.ps), v.ps)
  {
    hide Pos, Slot, PageOf;
    var q := PageOf(from, v.ps);
    var t, s0 := Slot(PageOf(to, v.ps), v.n), Slot(q, v.n);
    Advance(from, to, v.ps);
    SlotAhead(q, 1, v.n);
    if bn > 1 {
      PosMono(q + 1, q + bn - 1, v.ps);
    }
    forall s | 0 <= s < v.n && w.pages[s].position == -1
      ensures Ahead(t, s, v.n) < if bn > 0 then bn - 1 else 0
    {
      assert v.pages[s].position == -1;
      assert Ahead(s0, s, v.n) < bn && s != s0;
    }
  }

  lemma BlanksGone(v: View, q: nat, bn: nat, end: nat)
    requires Shape(v) && BlanksAhead(v, q, bn)
    requires bn > 0 ==> Pos(q + bn - 1, v.ps) < end == Pos(q, v.ps)
    ensures forall s | 0 <= s < v.n :: v.pages[s].position != -1
  {
    hide Pos, Slot;
    if bn > 0 {
      PosMono(q, q + bn - 1, v.ps);
    }
  }

  /** How far the write loop is from having page q ready. */
  ghost function Distance(v: View, q: nat, atEnd: bool): nat
    requires Shape(v)
  {
    if v.held[Slot(q, v.n)] == q || v.pages[Slot(q, v.n)].position == -1 then 0 else if atEnd then 1 else 2
  }

  /* ---- A page claimed in the middle of the file ---- */

  /** Page q of a clean cache claimed empty in a blank slot, although the file has it, and given b from offset o to its
      end: what stands before o is what the slot's memory held. */
  ghost function ClaimedInside(v: View, s: nat, q: nat, o: nat, b: seq<byte>): View
    requires Shape(v) && s < v.n && Pos(s, v.ps) + o <= |v.cache|
  {
    var stale := v.cache[Pos(s, v.ps)..Pos(s, v.ps) + o];
    v.(pages := v.pages[s := Page(Pos(q, v.ps), o + |b|, true)],
       cache := Splice(v.cache, Pos(s, v.ps) + o, b),
       first := s, cnt := 1, held := v.held[s := q], lo := q,
       contents := Splice(Splice(v.contents, Pos(q, v.ps), stale), Pos(q, v.ps) + o, b))
  }

  lemma ClaimedInsideInv(v: View, s: nat, q: nat, o: nat, b: seq<byte>)
    requires Inv(v) && v.cnt == 0 && s == Slot(q, v.n) && forall j | 0 <= j < v.n :: v.pages[j] == Page(-1, 0, false)
    requires b != [] && o + |b| == v.ps && Pos(q, v.ps) + v.ps <= |v.contents|
    ensures Pos(s, v.ps) + v.ps <= |v.cache| && Inv(ClaimedInside(v, s, q, o, b))
  {
    hide Pos, Slot, PageOf, Splice, SlotsOk, RingOk, TargetOk, ClaimedInside;
    SlotFits(v, s);
    CleanIsTarget(v);
    forall j | 0 <= j < v.n
      ensures v.held[j] < 0
    {
      BlankIsEmpty(v, j);
    }
    ClaimedBytes(v.cache, Pos(s, v.ps), v.contents, Pos(q, v.ps), o, b);
    ClaimedSlots(v, s, q, o, b);
    ClaimedTarget(v, s, q, o, b);
  }

  lemma ClaimedSlots(v: View, s: nat, q: nat, o: nat, b: seq<byte>)
    requires Shape(v) && s == Slot(q, v.n) && forall j | 0 <= j < v.n :: v.pages[j] == Page(-1, 0, false) && v.held[j] < 0
    requires b != [] && o + |b| == v.ps && Pos(q, v.ps) + v.ps <= |v.contents| && Pos(s, v.ps) + v.ps <= |v.cache|
    ensures Shape(ClaimedInside(v, s, q, o, b)) && SlotsOk(ClaimedInside(v, s, q, o, b)) && RingOk(ClaimedInside(v, s, q, o, b))
  {
    hide Pos, Slot, PageOf, Splice;
    ClaimedBytes(v.cache, Pos(s, v.ps), v.contents, Pos(q, v.ps), o, b);
    assert Shows(ClaimedInside(v, s, q, o, b), s, q);
  }

  lemma ClaimedTarget(v: View, s: nat, q: nat, o: nat, b: seq<byte>)
    requires Shape(v) && s == Slot(q, v.n) && v.contents == v.target
    requires b != [] && o + |b| == v.ps && Pos(q, v.ps) + v.ps <= |v.contents| && Pos(s, v.ps) + v.ps <= |v.cache|
    requires Shape(ClaimedInside(v, s, q, o, b))
    ensures TargetOk(ClaimedInside(v, s, q, o, b))
  {
    hide Pos, Slot, PageOf, Splice;
    ClaimedBytes(v.cache, Pos(s, v.ps), v.contents, Pos(q, v.ps), o, b);
    assert DirtyEnd(ClaimedInside(v, s, q, o, b)) == Pos(q, v.ps) + v.ps;
  }

  /** What the cache is after that: `cache` and `d` are the memory and the presented file before.  It is in order again if
      the page has been filled to its end. */
  ghost predicate WroteInside(cache: seq<byte>, d: seq<byte>, w: View, q: nat, o: nat, b: seq<byte>)
    requires Shape(w)
  {
    var s := Slot(q, w.n);
    var at, p := Pos(s, w.ps), Pos(q, w.ps);
    && o + |b| <= w.ps && at + w.ps <= |cache| == |w.cache|
    && w.pages[s] == Page(p, o + |b|, true) && w.cnt == 1 && w.first == s
    && w.cache[at..at + o] == cache[at..at + o]
    && w.contents == Splice(Splice(d, p, cache[at..at + o]), p + o, b)
    && (o + |b| == w.ps ==> Inv(w))
  }

  lemma ClaimedBytes(cache: seq<byte>, at: nat, d: seq<byte>, p: nat, o: nat, b: seq<byte>)
    requires b != [] && at + o + |b| <= |cache| && p + o + |b| <= |d|
    ensures var c, e := Splice(cache, at + o, b), Splice(Splice(d, p, cache[at..at + o]), p + o, b);
      && |c| == |cache| && |e| == |d| && c[at..at + o + |b|] == e[p..p + o + |b|]
      && forall k | 0 <= k < |d| && !(p <= k < p + o + |b|) :: e[k] == d[k]
  {
    hide Splice;
    var stale := cache[at..at + o];
    var c, f := Splice(cache, at + o, b), Splice(d, p, stale);
    var e := Splice(f, p + o, b);
    assert |f| == |d|;
    var l, r := c[at..at + o + |b|], e[p..p + o + |b|];
    forall k | 0 <= k < o + |b|
      ensures l[k] == r[k]
    {
      if k < o {
        assert f[p + k] == stale[k];
      }
    }
  }

  lemma ClaimedIsWritten(v: View, s: nat, q: nat, o: nat, b: seq<byte>)
    requires Inv(v) && v.cnt == 0 && s == Slot(q, v.n) && forall j | 0 <= j < v.n :: v.pages[j] == Page(-1, 0, false)
    requires b != [] && o + |b| <= v.ps && Pos(q, v.ps) + v.ps <= |v.contents|
    ensures Pos(s, v.ps) + v.ps <= |v.cache|
    ensures Shape(ClaimedInside(v, s, q, o, b)) && WroteInside(v.cache, v.contents, ClaimedInside(v, s, q, o, b), q, o, b)
  {
    hide Pos, Slot, PageOf, Splice, Inv;
    InvShape(v);
    SlotFits(v, s);
    ClaimedBytes(v.cache, Pos(s, v.ps), v.contents, Pos(q, v.ps), o, b);
    SpliceOutside(v.cache, Pos(s, v.ps) + o, b, Pos(s, v.ps), Pos(s, v.ps) + o);
    if o + |b| == v.ps {
      ClaimedInsideInv(v, s, q, o, b);
    }
  }

  lemma InvShape(v: View)
    requires Inv(v)
    ensures Shape(v)
  {
  }

  /** The file presented then is the one that should be if and only if the slot's memory happened to hold the page's own
      bytes before the write's place. */
  lemma StaleExactly(d: seq<byte>, p: nat, stale: seq<byte>, b: seq<byte>)
    requires p + |stale| <= |d|
    ensures Splice(Splice(d, p, stale), p + |stale|, b) == Splice(d, p + |stale|, b) <==> stale == d[p..p + |stale|]
  {
    hide Splice;
    var l, r := Splice(Splice(d, p, stale), p + |stale|, b), Splice(d, p + |stale|, b);
    assert forall k | 0 <= k < |stale| :: l[p + k] == stale[k] && r[p + k] == d[p + k];
    if stale == d[p..p + |stale|] {
      assert forall k | p <= k < p + |stale| :: stale[k - p] == d[k];
      assert Splice(d, p, stale) == d;
    }
    if l == r {
      assert forall k | 0 <= k < |stale| :: stale[k] == d[p..p + |stale|][k];
    }
  }

  lemma NotBlank(v: View, s: nat)
    requires Inv(v) && s < v.n && v.held[s] >= 0
    ensures v.pages[s].position != -1
  {
    hide Pos, Slot, PageOf, Splice, RingOk, TargetOk;
    assert Shows(v, s, v.held[s]);
  }

  /** Where page q stands, and the bytes of the page a ring ahead that its slot holds. */
  lemma InsidePlaces(v: View, q: nat, o: nat)
    requires Inv(v) && o < v.ps && v.held[Slot(q, v.n)] == q + v.n && Pos(q + v.n, v.ps) < |v.contents|
    ensures var at, r, m := Pos(Slot(q, v.n), v.ps), Pos(q + v.n, v.ps), Min(o, |v.contents| - Pos(q + v.n, v.ps));
      && at + v.ps <= |v.cache| && Pos(q, v.ps) + v.ps <= |v.contents|
      && v.cache[at..at + m] == v.contents[r..r + m]
  {
    hide Pos, Slot, PageOf, Splice, RingOk, TargetOk;
    var s, r := Slot(q, v.n), q + v.n;
    SlotFits(v, s);
    PosMono(q, r, v.ps);
    assert Shows(v, s, r);
    SubRange(v.cache, Pos(s, v.ps), v.contents, Pos(r, v.ps), v.pages[s].size, 0, Min(o, |v.contents| - Pos(r, v.ps)));
  }

  /* ---- When the flush loop's assertions hold ---- */

  /** The control state of the flush loop: which slots are dirty, the run's first slot and length, the slot
      looked at and the number of slots still wanted. */
  datatype FlushState = FlushState(dirty: seq<bool>, first: nat, cnt: nat, idx: nat, rem: nat)

  function Wrap(x: nat, n: nat): (r: nat)
    requires n > 0
    ensures r < n
  {
    x % n
  }

  function ClearFlags(dirty: seq<bool>, i: nat, k: nat): (r: seq<bool>)
    ensures |r| == |dirty|
    ensures forall s | 0 <= s < |r| :: r[s] == (dirty[s] && !(i <= s < i + k))
  {
    seq(|dirty|, s requires 0 <= s < |dirty| => dirty[s] && !(i <= s < i + k))
  }

  /** One turn of the loop, or None if one of its assertions fails. */
  function Turn(st: FlushState): Option<FlushState>
    requires st.idx < |st.dirty| && st.cnt > 0 && st.rem > 0
  {
    var n := |st.dirty|;
    if st.dirty[st.idx] then
      var inRun := if st.idx >= st.first then st.idx - st.first < st.cnt
                   else st.idx < Wrap(st.first + st.cnt, n) && Wrap(st.first + st.cnt, n) - st.idx <= st.cnt;
      if !inRun then None
      else
        var rest := if st.idx >= st.first then st.cnt - (st.idx - st.first) else Wrap(st.first + st.cnt, n) - st.idx;
        var rem := if st.idx != st.first && st.rem < rest then rest else st.rem;
        var k := Min(Min(rest, n - st.idx), rem);
        Some(FlushState(ClearFlags(st.dirty, st.idx, k),
                        if st.idx == st.first then Wrap(st.first + k, n) else st.first,
                        st.cnt - k, Wrap(st.idx + k, n), rem - k))
    else
      var k := Min(if st.idx >= st.first then n - st.idx else st.first - st.idx, st.rem);
      Some(st.(idx := Wrap(st.idx + k, n), rem := st.rem - k))
  }

  /** Whether every assertion of the flush loop holds from a control state on. */
  predicate FlushAsserts(st: FlushState)
    requires st.idx < |st.dirty|
    decreases st.cnt, st.rem
  {
    if st.cnt == 0 || st.rem == 0 then true
    else
      match Turn(st)
      case None => false
      case Some(next) => FlushAsserts(next)
  }

  /** The dirty slots are the `cnt` slots round the ring from `first`. */
  ghost predicate RingFlags(st: FlushState)
  {
    && st.first < |st.dirty| && st.idx < |st.dirty| && st.cnt <= |st.dirty|
    && forall s | 0 <= s < |st.dirty| :: st.dirty[s] <==> Ahead(st.first, s, |st.dirty|) < st.cnt
  }

  predicate SafeStart(st: FlushState)
    requires st.idx < |st.dirty|
  {
    !(st.dirty[st.idx] && st.first < st.idx && st.first + st.cnt > |st.dirty|)
  }

  /** A turn from a safe slot keeps the run contiguous and leads to a safe slot. */
  lemma TurnKeepsRing(st: FlushState)
    requires RingFlags(st) && SafeStart(st) && st.cnt > 0 && st.rem > 0
    ensures Turn(st).Some? && RingFlags(Turn(st).value)
    ensures Turn(st).value.cnt > 0 ==> SafeStart(Turn(st).value)
  {
    if st.idx == st.first {
      FrontTurn(st);
    } else if st.dirty[st.idx] {
      TailTurn(st);
    } else {
      CleanTurn(st);
    }
  }

  /** Writing from the run's front shortens it there. */
  lemma FrontTurn(st: FlushState)
    requires RingFlags(st) && st.cnt > 0 && st.rem > 0 && st.idx == st.first
    ensures Turn(st).Some? && RingFlags(Turn(st).value)
    ensures Turn(st).value.cnt > 0 ==> SafeStart(Turn(st).value)
  {
    hide Wrap;
    var n := |st.dirty|;
    assert Ahead(st.first, st.idx, n) < st.cnt;
    var next := Turn(st).value;
    WrapOnce(st.idx + (st.cnt - next.cnt), n);
    forall s | 0 <= s < n
      ensures next.dirty[s] <==> Ahead(next.first, s, n) < next.cnt
    {
      assert st.dirty[s] <==> Ahead(st.first, s, n) < st.cnt;
    }
  }

  /** Writing from further on goes to the run's end. */
  lemma TailTurn(st: FlushState)
    requires RingFlags(st) && SafeStart(st) && st.cnt > 0 && st.rem > 0 && st.dirty[st.idx] && st.idx != st.first
    ensures Turn(st).Some? && RingFlags(Turn(st).value) && SafeStart(Turn(st).value)
  {
    hide Wrap;
    var n := |st.dirty|;
    assert Ahead(st.first, st.idx, n) < st.cnt;
    WrapOnce(st.first + st.cnt, n);
    var next := Turn(st).value;
    assert next.cnt == Ahead(st.first, st.idx, n) && next.first == st.first;
    WrapOnce(st.idx + (st.cnt - next.cnt), n);
    forall s | 0 <= s < n
      ensures next.dirty[s] <==> Ahead(next.first, s, n) < next.cnt
    {
      assert st.dirty[s] <==> Ahead(st.first, s, n) < st.cnt;
    }
    assert st.dirty[next.idx] <==> Ahead(st.first, next.idx, n) < st.cnt;
  }

  lemma CleanTurn(st: FlushState)
    requires RingFlags(st) && st.cnt > 0 && st.rem > 0 && !st.dirty[st.idx]
    ensures Turn(st).Some? && RingFlags(Turn(st).value) && SafeStart(Turn(st).value)
  {
    hide Wrap;
    var n := |st.dirty|;
    assert Ahead(st.first, st.idx, n) >= st.cnt;
    var k := Min(if st.idx >= st.first then n - st.idx else st.first - st.idx, st.rem);
    WrapOnce(st.idx + k, n);
    assert st.dirty[Turn(st).value.idx] <==> Ahead(st.first, Turn(st).value.idx, n) < st.cnt;
  }

  lemma WrapOnce(x: nat, n: nat)
    requires n > 0 && x <= 2 * n
    ensures Wrap(x, n) == if x < n then x else if x < 2 * n then x - n else 0
  {
    if x < n {
      ModSmall(x, n);
    } else {
      ModPlus(x - n, n);
      if x < 2 * n {
        ModSmall(x - n, n);
      } else {
        ModPlus(0, n);
        ModSmall(0, n);
      }
    }
  }

  lemma {:induction false} SafeAsserts(st: FlushState)
    requires RingFlags(st) && (st.cnt > 0 ==> SafeStart(st))
    ensures FlushAsserts(st)
    decreases st.cnt, st.rem
  {
    if st.cnt > 0 && st.rem > 0 {
      TurnKeepsRing(st);
      SafeAsserts(Turn(st).value);
    }
  }

  /** From inside the upper part of a wrapped run the loop tears the run apart and an assertion fails within
      three turns. */
  lemma UnsafeAborts(st: FlushState)
    requires RingFlags(st) && !SafeStart(st) && st.cnt > 0 && st.rem > 0
    ensures !FlushAsserts(st)
  {
    hide Turn;
    FirstUnsafeTurn(st);
    var a := Turn(st).value;
    SecondUnsafeTurn(st, a);
    if Turn(a).Some? {
      var b := Turn(a).value;
      assert Ahead(st.first, b.idx, |st.dirty|) < st.cnt;
      assert b.dirty[b.idx];
      ThirdUnsafeTurn(st, b);
      assert !FlushAsserts(b);
    }
    assert !FlushAsserts(a);
  }

  /** The upper part from the start slot on is written; the run's front and its lower part stay dirty. */
  lemma FirstUnsafeTurn(st: FlushState)
    requires RingFlags(st) && !SafeStart(st) && st.cnt > 0 && st.rem > 0
    ensures Turn(st).Some? && TornOnce(st, Turn(st).value)
  {
    hide Wrap;
    var n := |st.dirty|;
    assert Ahead(st.first, st.idx, n) < st.cnt;
    WrapOnce(n, n);
  }

  ghost predicate TornOnce(st: FlushState, a: FlushState)
    requires st.idx <= |st.dirty|
  {
    var n := |st.dirty|;
    && a.idx == 0 && a.first == st.first && a.cnt == st.cnt - (n - st.idx) && a.rem >= st.first + st.cnt - n
    && a.dirty == ClearFlags(st.dirty, st.idx, n - st.idx)
  }

  /** At slot 0 an assertion fails, or the bottom of the lower part is written too. */
  lemma SecondUnsafeTurn(st: FlushState, a: FlushState)
    requires RingFlags(st) && !SafeStart(st) && st.cnt > 0 && TornOnce(st, a)
    ensures a.idx < |a.dirty| && a.cnt > 0 && a.rem > 0
    ensures Turn(a).Some? ==>
              var n, x := |st.dirty|, st.first + st.cnt - |st.dirty| + st.idx - |st.dirty|;
              var b := Turn(a).value;
              0 < x < st.first + st.cnt - n && b.idx == x && b.first == st.first && b.cnt == n - st.first && b.rem > 0
              && b.dirty == ClearFlags(a.dirty, 0, x)
  {
    hide Wrap;
    var n := |st.dirty|;
    assert Ahead(st.first, 0, n) < st.cnt;
    assert a.dirty[0];
    WrapOnce(a.first + a.cnt, n);
    if a.first + a.cnt >= n {
      WrapOnce(a.first + a.cnt - n, n);
    }
  }

  /** What is left in the lower part then seems to lie outside the run. */
  lemma ThirdUnsafeTurn(st: FlushState, b: FlushState)
    requires RingFlags(st) && !SafeStart(st) && |b.dirty| == |st.dirty|
    requires b.first == st.first && b.cnt == |st.dirty| - st.first && b.rem > 0
    requires b.idx < st.first + st.cnt - |st.dirty| && b.dirty[b.idx]
    ensures b.cnt > 0 && Turn(b).None?
  {
    hide Wrap;
    WrapOnce(b.first + b.cnt, |b.dirty|);
  }

  ghost function Flags(pages: seq<Page>): seq<bool>
  {
    seq(|pages|, s requires 0 <= s < |pages| => pages[s].isDirty)
  }

  /** A flush of at least one slot of a cache with dirty pages meets all the loop's assertions if and only
      if it does not start strictly inside the upper part of a run that wraps past the last slot. */
  lemma FlushAssertsExactly(v: View, s: nat, required: nat)
    requires Inv(v) && s < v.n && required > 0
    ensures FlushAsserts(FlushState(Flags(v.pages), v.first, v.cnt, s, required))
            <==> v.cnt == 0 || FlushSafe(v.pages, v.first, v.cnt, s)
  {
    hide Pos, Slot, PageOf, Splice, SlotsOk, TargetOk, Turn;
    var st := FlushState(Flags(v.pages), v.first, v.cnt, s, required);
    RunFitsRing(v);
    forall x | 0 <= x < v.n
      ensures st.dirty[x] <==> Ahead(v.first, x, v.n) < v.cnt
    {
      if v.pages[x].isDirty {
        DirtySlotOffset(v, x);
      }
      if Ahead(v.first, x, v.n) < v.cnt {
        DirtyAt(v, Ahead(v.first, x, v.n));
      }
    }
    if v.cnt == 0 || SafeStart(st) {
      SafeAsserts(st);
    } else {
      UnsafeAborts(st);
    }
  }

  /** An access to page q finds it in the cache, or flushes `required` slots from the page's own and meets the flush loop's
      assertions. */
  ghost predicate AccessAsserts(v: View, q: nat, required: nat)
    requires Shape(v)
  {
    v.held[Slot(q, v.n)] == q || FlushAsserts(FlushState(Flags(v.pages), v.first, v.cnt, Slot(q, v.n), required))
  }

  /** An access to a missing page aborts if and only if a flush may not start in the page's slot. */
  lemma AccessAssertsExactly(v: View, q: nat, required: nat)
    requires Inv(v) && required > 0
    ensures AccessAsserts(v, q, required) <==> Reachable(v, q)
  {
    hide Pos, Slot, PageOf, Splice, SlotsOk, RingOk, TargetOk, FlushAsserts;
    FlushAssertsExactly(v, Slot(q, v.n), required);
    if v.cnt == 0 {
      AllReachable(v, q);
    }
  }

  /** The slot after a write of b at offset o of page q to a slot that was blank, whatever the slot's memory held:
      the page is claimed empty, marked dirty and given the bytes, but never loaded from the target. */
  ghost function BlankWritten(v: View, memory: seq<byte>, s: nat, q: nat, o: nat, b: seq<byte>): (w: View)
    requires Shape(v) && s < v.n && |memory| == |v.cache| && Pos(s, v.ps) + o + |b| <= |v.cache|
    ensures Shape(w) && w.n == v.n
  {
    Stored(Marked(Claimed(v.(cache := memory), s, q), s, q), s, q, o, b)
  }

  lemma BlankWrittenShows(v: View, memory: seq<byte>, s: nat, q: nat, o: nat, b: seq<byte>)
    requires Shape(v) && s == Slot(q, v.n) && b != [] && o + |b| <= v.ps
    requires |memory| == |v.cache| && Pos(s, v.ps) + v.ps <= |v.cache|
    ensures var at, p, z, c := Pos(s, v.ps), Pos(q, v.ps), o + |b|, Splice(v.contents, Pos(q, v.ps) + o, b);
      && |c| == Max(|v.contents|, p + z)
      && (Shows(BlankWritten(v, memory, s, q, o, b), s, q)
          <==> Splice(memory, at + o, b)[at..at + z] == c[p..p + z] && (z < v.ps ==> p + z == |c|))
  {
    hide Pos, Slot, Splice;
    var w := BlankWritten(v, memory, s, q, o, b);
    assert w.pages[s] == Page(Pos(q, v.ps), o + |b|, true);
    assert Shape(w);
  }

  /** Only a write from the start of the page is right whatever the memory held. */
  lemma MemoryMatters(memory: seq<byte>, at: nat, d: seq<byte>, p: nat, o: nat, b: seq<byte>)
    requires at + o + |b| <= |memory| && b != []
    requires o > 0 ==> memory[at] != if p < |d| then d[p] else 0
    ensures p + o + |b| <= |Splice(d, p + o, b)| && |Splice(memory, at + o, b)| == |memory|
    ensures Splice(memory, at + o, b)[at..at + o + |b|] == Splice(d, p + o, b)[p..p + o + |b|] <==> o == 0
  {
    hide Splice;
    var l, r := Splice(memory, at + o, b)[at..at + o + |b|], Splice(d, p + o, b)[p..p + o + |b|];
    if o > 0 {
      assert l[0] == memory[at] && r[0] == if p < |d| then d[p] else 0;
    } else {
      assert l == b && r == b;
    }
  }

  /** Writing to a page in a blank slot shows the right bytes, whatever the slot's memory held, if and only if the
      write starts where the page does and covers the page or all of the file from there on. */
  lemma BlankWriteExact(v: View, s: nat, q: nat, o: nat, b: seq<byte>)
    requires Shape(v) && s == Slot(q, v.n) && b != [] && o + |b| <= v.ps
    requires Pos(s, v.ps) + v.ps <= |v.cache|
    ensures (forall memory: seq<byte> | |memory| == |v.cache| :: Shows(BlankWritten(v, memory, s, q, o, b), s, q))
            <==> o == 0 && (|b| == v.ps || Pos(q, v.ps) + |b| >= |v.contents|)
  {
    hide Pos, Slot, Splice, Shows, BlankWritten;
    var at, p := Pos(s, v.ps), Pos(q, v.ps);
    // memory that differs from the file where the page starts
    var other: byte := if p < |v.contents| && v.contents[p] != 0 then 0 else 1;
    var odd: seq<byte> := seq(|v.cache|, _ => other);
    BlankWrittenShows(v, odd, s, q, o, b);
    MemoryMatters(odd, at, v.contents, p, o, b);
    forall memory: seq<byte> | |memory| == |v.cache| && o == 0
      ensures Shows(BlankWritten(v, memory, s, q, o, b), s, q) <==> |b| == v.ps || p + |b| >= |v.contents|
    {
      BlankWrittenShows(v, memory, s, q, o, b);
      MemoryMatters(memory, at, v.contents, p, o, b);
    }
  }

  /** Writing to a cached page shows the right bytes, whatever the slot's memory held behind the page's bytes, if and only
      if the write starts at or before their end: further on, the gap should read as zeros. */
  lemma HeldWriteExact(v: View, s: nat, q: nat, o: nat, b: seq<byte>)
    requires Shape(v) && s < v.n && Shows(v, s, q) && b != [] && o + |b| <= v.ps && Pos(s, v.ps) + v.ps <= |v.cache|
    ensures (forall memory: seq<byte> | SameBytes(v, s, memory) :: Shows(Stored(v.(cache := memory), s, q, o, b), s, q))
            <==> o <= v.pages[s].size
  {
    hide Pos, Slot, Splice;
    var at, p, z := Pos(s, v.ps), Pos(q, v.ps), v.pages[s].size;
    if o <= z {
      forall memory: seq<byte> | SameBytes(v, s, memory)
        ensures Shows(Stored(v.(cache := memory), s, q, o, b), s, q)
      {
        StoredSlot(v.(cache := memory), s, q, o, b);
      }
    } else {
      var odd := v.cache[at + z := 1];
      assert odd[at..at + z] == v.cache[at..at + z];
      assert SameBytes(v, s, odd);
      var w := Stored(v.(cache := odd), s, q, o, b);
      GapByte(odd, at, v.contents, p, z, o, b);
      assert !Shows(w, s, q);
    }
  }

  /** Memory that holds the bytes of the page in slot s. */
  ghost predicate SameBytes(v: View, s: nat, memory: seq<byte>)
    requires Shape(v) && s < v.n && Pos(s, v.ps) + v.pages[s].size <= |v.cache|
  {
    |memory| == |v.cache| && memory[Pos(s, v.ps)..Pos(s, v.ps) + v.pages[s].size] == v.cache[Pos(s, v.ps)..Pos(s, v.ps) + v.pages[s].size]
  }

  lemma GapByte(memory: seq<byte>, at: nat, d: seq<byte>, p: nat, z: nat, o: nat, b: seq<byte>)
    requires z < o && b != [] && at + o + |b| <= |memory| && |d| == p + z && memory[at + z] == 1
    ensures var c, e := Splice(memory, at + o, b), Splice(d, p + o, b);
      && |c| == |memory| && |e| == p + o + |b| && c[at..at + o + |b|] != e[p..p + o + |b|]
  {
    hide Splice;
    var c, e := Splice(memory, at + o, b), Splice(d, p + o, b);
    assert c[at..at + o + |b|][z] == c[at + z] == 1;
    assert e[p..p + o + |b|][z] == e[p + z] == 0;
  }
}
