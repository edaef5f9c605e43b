/** The write-back page cache: a ring of page slots over a target file. */
module CacheFile {
  import opened Wrappers
  import opened Bytes
  import opened Grid
  import opened MxfFile
  import opened CacheModel

  class CacheFile {
    const target: FlatFile
    const cacheData: array<byte>
    const pages: array<Page>
    const numPages: nat
    const pageSize: nat
    var position: nat
    var firstDirtyPage: nat
    var dirtyCount: nat
    var eof: bool
    var writingAtEOF: bool

    /** The file the cache presents. */
    ghost var contents: seq<byte>
    /** The file page each slot shows, or -1. */
    ghost var held: seq<int>
    /** The file page number of the first dirty page. */
    ghost var lo: nat

    ghost function State(): View
      reads this, pages, cacheData, target
    {
      View.View(pageSize, numPages, pages[..], cacheData[..], target.data,
                firstDirtyPage, dirtyCount, held, lo, contents)
    }

    /** While writing at the end of the file, every page from the position on is in the cache. */
    ghost predicate EofOk()
      reads this, pages, cacheData, target
      requires Shape(State())
    {
      writingAtEOF ==> TailCached(State(), position)
    }

    ghost predicate Valid()
      reads this, pages, cacheData, target
      ensures Valid() ==> Shape(State())
    {
      Inv(State()) && EofOk()
    }

    /** The next read or write finds its page or may flush that page's slot. */
    ghost predicate Accessible()
      reads this, pages, cacheData, target
      requires Shape(State())
    {
      Reachable(State(), PageOf(position, pageSize))
    }

    constructor (file: FlatFile, cachePageSize: nat, n: nat)
      requires cachePageSize > 0 && n > 0
      ensures target == file && pageSize == cachePageSize && numPages == n
      ensures Valid() && contents == file.data && position == 0 && dirtyCount == 0
      ensures !writingAtEOF && !eof
      // only slot 0 is blank: the others look like pages already read at position 0
      ensures forall s | 0 <= s < n :: pages[s] == Page(if s == 0 then -1 else 0, 0, false) && held[s] == -1
      ensures fresh(pages) && fresh(cacheData)
    {
      target := file;
      pageSize, numPages := cachePageSize, n;
      PosIsProduct(n, cachePageSize);
      cacheData := new byte[n * cachePageSize];
      pages := new Page[n](i => Page(if i == 0 then -1 else 0, 0, false));
      position, firstDirtyPage, dirtyCount := 0, 0, 0;
      eof, writingAtEOF := false, false;
      contents := file.data;
      held := seq(n, _ => -1);
      lo := 0;
    }

    method GetCurrentPageInfo() returns (pagePosition: nat, pageIndex: nat, pageOffset: nat)
      requires pageSize > 0 && numPages > 0
      ensures var q := PageOf(position, pageSize);
              && pagePosition == Pos(q, pageSize) && pageIndex == Slot(q, numPages)
              && position == pagePosition + pageOffset && pageOffset < pageSize && pageIndex < numPages
    {
      var pageNumber := position / pageSize;
      Locate(position, pageSize);
      SlotIsMod(pageNumber, numPages);
      pagePosition := pageNumber * pageSize;
      pageIndex := pageNumber % numPages;
      pageOffset := position - pagePosition;
    }

    /** `index * pageSize`. */
    method PageOffset(index: nat) returns (offset: nat)
      ensures offset == Pos(index, pageSize)
    {
      PosIsProduct(index, pageSize);
      offset := index * pageSize;
    }

    /** Everything but dirtiness and the target's bytes is as it was. */
    twostate predicate OnlyFlushed()
      reads this, pages, cacheData, target
    {
      && position == old(position) && eof == old(eof) && writingAtEOF == old(writingAtEOF)
      && contents == old(contents) && held == old(held) && cacheData[..] == old(cacheData[..])
      && forall s | 0 <= s < pages.Length ::
           pages[s].position == old(pages[s].position) && pages[s].size == old(pages[s].size)
           && (pages[s].isDirty ==> old(pages[s].isDirty))
    }

    method MarkClean(cleanIndex: nat, numCleanPages: nat)
      requires cleanIndex + numCleanPages <= pages.Length
      modifies pages
      ensures pages[..] == Cleaned(old(pages[..]), cleanIndex, numCleanPages)
    {
      var i := 0;
      while i < numCleanPages
        invariant 0 <= i <= numCleanPages
        invariant pages[..] == Cleaned(old(pages[..]), cleanIndex, i)
      {
        pages[cleanIndex + i] := pages[cleanIndex + i].(isDirty := false);
        i := i + 1;
      }
    }

    /** One run of dirty slots written to the target and marked clean. */
    method WriteRun(cleanIndex: nat, numCleanPages: nat, ghost p: nat)
      requires Flushable(State(), cleanIndex, p, numCleanPages)
      modifies pages, target, `dirtyCount, `firstDirtyPage, `lo
      ensures numCleanPages <= old(dirtyCount)
      ensures Pos(cleanIndex, pageSize) + FlushLen(old(State()), cleanIndex, numCleanPages) <= |old(State()).cache|
      ensures State() == Flushed(old(State()), cleanIndex, p, numCleanPages) && Inv(State())
    {
      hide Pos, Slot, PageOf, Splice, SlotsOk, RingOk, TargetOk, Shows, Inv;
      ghost var v := State();
      FlushableBytes(v, cleanIndex, p, numCleanPages);
      FlushableStart(v, cleanIndex, p, numCleanPages);
      FlushKeepsInv(v, cleanIndex, p, numCleanPages);
      var numWrite := PageOffset(numCleanPages - 1);
      numWrite := numWrite + pages[cleanIndex + numCleanPages - 1].size;
      var at := PageOffset(cleanIndex);
      var ok := target.Seek(pages[cleanIndex].position, SeekSet);
      var n := target.Write(cacheData[at..at + numWrite]);
      MarkClean(cleanIndex, numCleanPages);
      dirtyCount := dirtyCount - numCleanPages;
      if cleanIndex == firstDirtyPage {
        SlotIsMod(firstDirtyPage + numCleanPages, numPages);
        firstDirtyPage := (firstDirtyPage + numCleanPages) % numPages;
        lo := lo + numCleanPages;
      }
    }

    /** The choice one turn of the flush loop makes: how many slots from `cleanIndex` it deals with and
        whether they are written; the slots still wanted may grow to reach the end of the dirty run. */
    method PlanFlush(cleanIndex: nat, pagesWanted: nat) returns (doWrite: bool, numCleanPages: nat, remPages: nat)
      requires Inv(State()) && cleanIndex < numPages && dirtyCount > 0 && pagesWanted > 0
      requires FlushSafe(pages[..], firstDirtyPage, dirtyCount, cleanIndex)
      ensures doWrite == pages[cleanIndex].isDirty
      ensures 0 < numCleanPages <= remPages && pagesWanted <= remPages && cleanIndex + numCleanPages <= numPages
      ensures doWrite ==> Flushable(State(), cleanIndex, held[cleanIndex], numCleanPages)
      ensures !doWrite ==> remPages == pagesWanted
                           && forall x | cleanIndex <= x < cleanIndex + numCleanPages :: !pages[x].isDirty
      ensures cleanIndex == firstDirtyPage ==> doWrite && remPages == pagesWanted && held[cleanIndex] == lo
    {
      hide Pos, Slot, PageOf, Splice, SlotsOk, TargetOk;
      ghost var v := State();
      remPages := pagesWanted;
      DirtyAt(v, 0);
      doWrite := pages[cleanIndex].isDirty;
      if doWrite {
        DirtyTail(v, cleanIndex);
        if cleanIndex >= firstDirtyPage {
          assert cleanIndex - firstDirtyPage < dirtyCount;
          numCleanPages := dirtyCount - (cleanIndex - firstDirtyPage);
        } else {
          assert (firstDirtyPage + dirtyCount) % numPages > cleanIndex;
          numCleanPages := (firstDirtyPage + dirtyCount) % numPages - cleanIndex;
          assert numCleanPages <= dirtyCount;
        }
        // flush to the end of the run unless starting at its front, to keep the dirty pages contiguous
        if cleanIndex != firstDirtyPage && remPages < numCleanPages {
          remPages := numCleanPages;
        }
        if numCleanPages > numPages - cleanIndex {
          numCleanPages := numPages - cleanIndex;
        }
      } else {
        CleanStretch(v, cleanIndex);
        numCleanPages := if cleanIndex >= firstDirtyPage then numPages - cleanIndex else firstDirtyPage - cleanIndex;
      }
      if numCleanPages > remPages {
        numCleanPages := remPages;
      }
    }

    /** Writes a run that may be written: everything presented stays, and its slots become clean. */
    method FlushRun(cleanIndex: nat, numCleanPages: nat)
      requires Inv(State()) && cleanIndex < numPages && held[cleanIndex] >= 0
      requires Flushable(State(), cleanIndex, held[cleanIndex], numCleanPages)
      modifies pages, target, `dirtyCount, `firstDirtyPage, `lo
      ensures Inv(State()) && OnlyFlushed() && dirtyCount + numCleanPages == old(dirtyCount)
      ensures forall s | cleanIndex <= s < cleanIndex + numCleanPages :: !pages[s].isDirty
      ensures cleanIndex == old(firstDirtyPage) && held[cleanIndex] == old(lo) ==>
                && firstDirtyPage == (cleanIndex + numCleanPages) % numPages && (old(Accessible()) ==> Accessible())
    {
      hide Pos, Slot, PageOf, Splice, SlotsOk, RingOk, TargetOk, Reachable, TailCached, FlushSafe;
      ghost var was := State();
      if cleanIndex == firstDirtyPage && held[cleanIndex] == lo && Accessible() {
        PrefixFlushReachable(was, cleanIndex, numCleanPages, PageOf(position, pageSize));
      }
      SlotIsMod(cleanIndex + numCleanPages, numPages);
      WriteRun(cleanIndex, numCleanPages, held[cleanIndex]);
    }

    /** One turn of the flush loop from `cleanIndex`. */
    method FlushTurn(cleanIndex: nat, pagesWanted: nat) returns (numCleanPages: nat, remPages: nat)
      requires Inv(State()) && cleanIndex < numPages && dirtyCount > 0 && pagesWanted > 0
      requires FlushSafe(pages[..], firstDirtyPage, dirtyCount, cleanIndex)
      modifies pages, target, `dirtyCount, `firstDirtyPage, `lo
      ensures Inv(State()) && OnlyFlushed()
      ensures !old(pages[cleanIndex].isDirty) ==> remPages == pagesWanted && State() == old(State())
      ensures 0 < numCleanPages <= remPages && pagesWanted <= remPages && cleanIndex + numCleanPages <= numPages
      ensures dirtyCount < old(dirtyCount) || (dirtyCount == old(dirtyCount) && remPages == pagesWanted)
      ensures forall s | cleanIndex <= s < cleanIndex + numCleanPages :: !pages[s].isDirty
      ensures FlushSafe(pages[..], firstDirtyPage, dirtyCount, (cleanIndex + numCleanPages) % numPages)
      ensures cleanIndex == old(firstDirtyPage) ==>
                && remPages == pagesWanted && dirtyCount + numCleanPages == old(dirtyCount)
                && (dirtyCount > 0 ==> firstDirtyPage == (cleanIndex + numCleanPages) % numPages)
                && (old(Accessible()) ==> Accessible())
    {
      hide Pos, Slot, PageOf, Splice, SlotsOk, RingOk, TargetOk, Reachable, TailCached, EofOk, FlushSafe;
      var doWrite;
      doWrite, numCleanPages, remPages := PlanFlush(cleanIndex, pagesWanted);
      if doWrite {
        FlushRun(cleanIndex, numCleanPages);
      }
      NextIsMod(cleanIndex + numCleanPages - 1, numPages);
      SlotIsMod(cleanIndex + numCleanPages, numPages);
      AfterClean(State(), cleanIndex + numCleanPages - 1);
    }

    /** Writes dirty pages out, visiting `pagesRequired` slots from `pageIndex`. */
    method FlushDirtyPages(pageIndex: nat, pagesRequired: nat)
      requires Inv(State()) && pageIndex < numPages
      requires FlushSafe(pages[..], firstDirtyPage, dirtyCount, pageIndex)
      modifies pages, target, `dirtyCount, `firstDirtyPage, `lo
      ensures Inv(State()) && (old(Valid()) ==> Valid()) && OnlyFlushed()
      // every requested slot is clean
      ensures VisitedClean(pages[..], pageIndex, pagesRequired)
      ensures pagesRequired >= numPages ==> dirtyCount == 0
      // clean slots are passed over
      ensures old(VisitedClean(pages[..], pageIndex, pagesRequired)) ==> State() == old(State())
      // from the first dirty slot, exactly the requested number of pages leaves the front of the run
      ensures pageIndex == old(firstDirtyPage) ==>
                dirtyCount == old(dirtyCount) - Min(pagesRequired, old(dirtyCount))
      ensures pageIndex == old(firstDirtyPage) && old(Accessible()) ==> Accessible()
    {
      hide Pos, Slot, PageOf, Splice, SlotsOk, RingOk, TargetOk, Reachable, FlushSafe, TailCached;
      var remPages, cleanIndex := pagesRequired, pageIndex;
      ghost var visited: nat, v0 := 0, State();
      SlotSmall(pageIndex, numPages);
      while dirtyCount > 0 && remPages > 0
        invariant Inv(State()) && OnlyFlushed()
        invariant cleanIndex < numPages && cleanIndex == Slot(pageIndex + visited, numPages)
        invariant dirtyCount > 0 ==> FlushSafe(pages[..], firstDirtyPage, dirtyCount, cleanIndex)
        invariant visited + remPages >= pagesRequired
        invariant VisitedClean(pages[..], pageIndex, visited)
        invariant old(VisitedClean(pages[..], pageIndex, pagesRequired)) ==> State() == v0 && visited + remPages == pagesRequired
        invariant pageIndex == old(firstDirtyPage) ==>
                    && (dirtyCount > 0 ==> cleanIndex == firstDirtyPage)
                    && dirtyCount + visited == old(dirtyCount) && visited + remPages == pagesRequired
                    && (old(Accessible()) ==> Accessible())
        decreases dirtyCount, remPages
      {
        ghost var was := pages[..];
        if old(VisitedClean(pages[..], pageIndex, pagesRequired)) {
          VisitedNext(was, pageIndex, pagesRequired, visited);
        }
        var numCleanPages;
        numCleanPages, remPages := FlushTurn(cleanIndex, remPages);
        VisitClean(was, pages[..], pageIndex, visited, cleanIndex, numCleanPages);
        visited := visited + numCleanPages;
        cleanIndex := (cleanIndex + numCleanPages) % numPages;
        remPages := remPages - numCleanPages;
      }
      FlushDone(State(), pageIndex, visited, pagesRequired);
      TailSame(v0, State(), position);
    }

    /** Page `s` of the ring changes only by being loaded with a page from `q` on that starts inside the
        `remCount` bytes wanted and inside the file. */
    twostate predicate LoadedFrom(q: nat, remCount: nat)
      reads this, pages, cacheData, target
      requires |held| == numPages == |old(held)| == pages.Length
    {
      && position == old(position) && eof == old(eof) && writingAtEOF == old(writingAtEOF)
      && contents == old(contents)
      && forall s | 0 <= s < numPages ::
           && (pages[s].position == -1 ==> old(pages[s].position) == -1)
           && (held[s] == old(held[s])
               || (held[s] >= q && Pos(held[s], pageSize) < Min(Pos(q, pageSize) + remCount, |contents|)))
    }

    /** Stores the pages just read from the target in the slots from `pageIndex` on. */
    method StoreChunk(pageIndex: nat, pagePosition: nat, chunk: seq<byte>, ghost q: nat, ghost k: nat)
      requires chunk != [] && pageSize > 0 && pagePosition == Pos(q, pageSize)
      requires Loadable(State(), pageIndex, q, k, chunk, |chunk| / pageSize, |chunk| % pageSize)
      modifies pages, cacheData, `held
      ensures Inv(State())
      ensures Pos(pageIndex, pageSize) + |chunk| <= |old(State()).cache|
      ensures State() == Loaded(old(State()), pageIndex, q, chunk, |chunk| / pageSize, |chunk| % pageSize)
    {
      hide Pos, Slot, PageOf, Splice, SlotsOk, RingOk, TargetOk, Shows, Extract;
      ghost var v := State();
      ghost var m, rest := |chunk| / pageSize, |chunk| % pageSize;
      LoadKeepsInv(v, pageIndex, q, k, chunk, m, rest);
      var at := PageOffset(pageIndex);
      CopyInto(cacheData, at, chunk);
      var numPagesRead := |chunk| / pageSize;
      var full := PageOffset(numPagesRead);
      Locate(|chunk|, pageSize);
      var i := 0;
      while i < numPagesRead
        invariant 0 <= i <= numPagesRead
        invariant |pages[..]| == v.n
        invariant pages[..] == LoadedPages(v.pages, pageIndex, q, i, 0, v.ps)
        modifies pages
      {
        var d := PageOffset(i);
        PosSum(q, i, pageSize);
        pages[pageIndex + i] := pages[pageIndex + i].(size := pageSize, position := pagePosition + d);
        i := i + 1;
      }
      if |chunk| != full {
        PosSum(q, i, pageSize);
        pages[pageIndex + i] := pages[pageIndex + i].(size := |chunk| - full, position := pagePosition + full);
      }
      held := LoadedHeld(held, pageIndex, q, m, rest);
      assert pages[..] == LoadedPages(v.pages, pageIndex, q, m, rest, v.ps);
      assert State() == Loaded(v, pageIndex, q, chunk, m, rest);
    }

    /** Reads k pages, or as many as there are, from the target into clean slots. */
    method FetchPages(pagePosition: nat, pageIndex: nat, k: nat, ghost remCount: nat, ghost q: nat) returns (numRead: nat)
      requires Inv(State()) && pagePosition == Pos(q, pageSize) && pageIndex == Slot(q, numPages)
      requires pageIndex + k <= numPages && (k > 0 ==> Pos(k - 1, pageSize) < remCount)
      requires forall s | pageIndex <= s < pageIndex + k :: !pages[s].isDirty
      modifies pages, target`pos, cacheData, `held
      ensures Inv(State()) && LoadedFrom(q, remCount)
      ensures k == 0 ==> numRead == 0
      ensures numRead == 0 ==> State() == old(State()) && (k > 0 ==> Pos(q, pageSize) >= |contents|)
      ensures numRead > 0 ==> held[pageIndex] == q && Pos(q, pageSize) < |contents|
      ensures forall s | 0 <= s < pages.Length :: pages[s].isDirty == old(pages[s].isDirty)
    {
      hide Pos, Slot, PageOf, Splice, SlotsOk, RingOk, TargetOk, Shows, Loaded, Filled, Extract;
      ghost var v := State();
      var ok := target.Seek(pagePosition, SeekSet);
      var wanted := PageOffset(k);
      var chunk := target.Read(wanted);
      numRead := |chunk|;
      ghost var m, rest := |chunk| / pageSize, |chunk| % pageSize;
      CutInPages(|chunk|, k, pageSize);
      LoadableChunk(v, pageIndex, q, k, chunk, m, rest);
      CleanRangeIsTarget(v, pageIndex, q, k, chunk, m, rest);
      FetchedFrom(v.contents, Pos(q, pageSize), Pos(k, pageSize));
      PosZero(pageSize);
      if numRead == 0 {
        return;
      }
      StoreChunk(pageIndex, pagePosition, chunk, q, k);
      LoadedSpan(v, State(), pageIndex, q, k, chunk, m, rest, remCount);
      LoadedDirty(v, pageIndex, q, chunk, m, rest);
    }

    /** The read loop's miss branch: flush the slots wanted and read as many pages as the ring's end allows.  With a
        count so near 2^32 that the number of pages wraps to 0, nothing happens. */
    method LoadPages(pagePosition: nat, pageIndex: nat, remCount: nat, ghost q: nat) returns (numRead: nat)
      requires Valid() && Accessible() && 0 < remCount <= UINT32_MAX
      requires q == PageOf(position, pageSize) && pagePosition == Pos(q, pageSize) && pageIndex == Slot(q, numPages)
      requires held[pageIndex] != q
      modifies pages, target, cacheData, `dirtyCount, `firstDirtyPage, `lo, `held
      ensures Valid() && Accessible() && LoadedFrom(q, remCount)
      ensures remCount + pageSize - 1 > UINT32_MAX ==> numRead == 0 && State() == old(State())
      ensures remCount + pageSize - 1 <= UINT32_MAX ==> !pages[pageIndex].isDirty && (numRead == 0 ==> Pos(q, pageSize) >= |contents|)
      ensures numRead == 0 ==> held == old(held)
      ensures numRead > 0 ==> held[pageIndex] == q && Pos(q, pageSize) < |contents|
      ensures old(VisitedClean(pages[..], pageIndex, MissPages(remCount, pageSize, numPages, pageIndex))) ==> Unflushed(old(State()), State())
      ensures forall s | 0 <= s < pages.Length :: pages[s].isDirty ==> old(pages[s].isDirty)
    {
      hide Pos, Slot, PageOf, Splice, SlotsOk, RingOk, TargetOk, Shows, FlushSafe, PagesFor, PagesFor32, TailCached, VisitedClean;
      if writingAtEOF {
        TailMiss(State(), position);
      }
      var numPagesRead := PagesFor32(remCount, pageSize);
      if numPagesRead > numPages - pageIndex {
        numPagesRead := numPages - pageIndex;
      }
      ReadSpan(remCount, pageSize, numPages, pageIndex, numPagesRead);
      NoneVisited(pages[..], pageIndex);
      FlushDirtyPages(pageIndex, numPagesRead);
      VisitedSlots(State(), pageIndex, numPagesRead);
      numRead := FetchPages(pagePosition, pageIndex, numPagesRead, remCount, q);
      if numPagesRead > 0 {
        CleanReachable(State(), q);
      }
    }

    /** The read loop's hit branch: copy what the page holds of the bytes wanted. */
    method CopyHit(pageIndex: nat, pageOffset: nat, remCount: nat, ghost q: nat) returns (bytes: seq<byte>)
      requires Valid() && q == PageOf(position, pageSize) && pageIndex == Slot(q, numPages) && held[pageIndex] == q
      requires position == Pos(q, pageSize) + pageOffset && pageOffset < pages[pageIndex].size && remCount > 0
      modifies `position
      ensures Valid() && Accessible()
      ensures 0 < |bytes| <= remCount && position == old(position) + |bytes| <= |contents|
      ensures bytes == contents[old(position)..position]
      ensures position <= Pos(q, pageSize) + pageSize && q <= PageOf(position, pageSize)
    {
      hide Pos, Slot, PageOf, Splice, SlotsOk, RingOk, TargetOk, Shows, FlushSafe, Reachable;
      HitEnd(State(), pageIndex, q, 0);
      var numRead := pages[pageIndex].size - pageOffset;
      if numRead > remCount {
        numRead := remCount;
      }
      var at := PageOffset(pageIndex);
      HitBytes(State(), pageIndex, q, pageOffset, numRead);
      AdvanceReachable(State(), position, position + numRead);
      bytes := cacheData[at + pageOffset..at + pageOffset + numRead];
      position := position + numRead;
    }

    /** One turn of the read loop: bytes of the page at the position, or the page is loaded, or the read stops. */
    method ReadTurn(remCount: nat, ghost p0: nat, ghost goal: nat) returns (bytes: seq<byte>, stop: bool)
      requires Valid() && Accessible() && 0 < remCount <= UINT32_MAX
      requires p0 <= position && PageOf(p0, pageSize) <= PageOf(position, pageSize) && goal == Min(position + remCount, |contents|)
      requires position > p0 ==> KeptPages(State(), position, PageOf(p0, pageSize), goal)
      modifies pages, target, cacheData, `position, `dirtyCount, `firstDirtyPage, `lo, `held
      ensures Valid() && Accessible()
      ensures |bytes| <= remCount && position == old(position) + |bytes| && PageOf(p0, pageSize) <= PageOf(position, pageSize)
      ensures bytes != [] ==> position <= |contents| && bytes == contents[old(position)..position]
      ensures stop ==> bytes == [] && (position >= |contents| || (MissingPage(State(), position) && remCount + pageSize - 1 > UINT32_MAX))
      ensures !stop && bytes == [] ==> old(MissingPage(State(), position)) && !MissingPage(State(), position)
      ensures old(MissingPage(State(), position)) ==> bytes == []
      ensures position > p0 || (stop && Pos(PageOf(position, pageSize), pageSize) < |contents| && !MissingPage(State(), position)) ==>
                KeptPages(State(), position, PageOf(p0, pageSize), goal)
      ensures Settles(old(State()), State())
      ensures !old(MissingPage(State(), position)) ==> State() == old(State())
      ensures old(MissingPage(State(), position)) && remCount + pageSize - 1 > UINT32_MAX ==> stop && State() == old(State())
      ensures old(MissingPage(State(), position)) && remCount + pageSize - 1 <= UINT32_MAX ==>
                && !pages[Slot(PageOf(position, pageSize), numPages)].isDirty
                && stop == (Pos(PageOf(position, pageSize), pageSize) >= |contents|)
      ensures old(dirtyCount == 0 || (MissingPage(State(), position) && MissIsQuiet(State(), position, remCount))) ==> Unflushed(old(State()), State())
    {
      hide Pos, Slot, PageOf, Splice, SlotsOk, RingOk, TargetOk, Shows, FlushSafe, Reachable, Extract, KeptPages, VisitedClean,
           PagesFor32;
      bytes, stop := [], false;
      var pagePosition, pageIndex, pageOffset := GetCurrentPageInfo();
      if dirtyCount == 0 {
        NoneDirty(State(), pageIndex, MissPages(remCount, pageSize, numPages, pageIndex));
      }
      ghost var q, q0, from := PageOf(position, pageSize), PageOf(p0, pageSize), position;
      HitTest(State(), pageIndex, q);
      if pages[pageIndex].position == pagePosition {
        HitEnd(State(), pageIndex, q, pageOffset);
        if pageOffset >= pages[pageIndex].size {
          KeptAdvance(State(), position, position, q0, goal, p0);
          stop := true;
        } else {
          bytes := CopyHit(pageIndex, pageOffset, remCount, q);
          KeptAdvance(State(), from, position, q0, goal, p0);
        }
      } else {
        ghost var v := State();
        var numRead := LoadPages(pagePosition, pageIndex, remCount, q);
        if position > p0 {
          KeptLoad(v, State(), position, q, q0, goal);
        }
        stop := numRead == 0;
      }
    }

    /** The read loop. */
    method ReadLoop(count: nat) returns (data: seq<byte>)
      requires Valid() && count <= UINT32_MAX
      requires count > 0 ==> Accessible()
      modifies pages, target, cacheData, `position, `dirtyCount, `firstDirtyPage, `lo, `held
      ensures Valid() && |data| <= count && position == old(position) + |data|
      ensures count > 0 || old(Accessible()) ==> Accessible()
      ensures data == Extract(contents, old(position), |data|)
      ensures data != Extract(contents, old(position), count) ==>
                MissingPage(State(), position) && count - |data| + pageSize - 1 > UINT32_MAX
      ensures ReadLeaves(old(State()), old(position), State(), count, |data|)
    {
      hide Pos, Slot, PageOf, Splice, Inv, Reachable, Extract, KeptPages, VisitedClean, PagesFor32, MissPages, MissIsQuiet, Settles;
      var remCount: nat := count;
      data := [];
      ghost var p0, q0 := position, PageOf(position, pageSize);
      ghost var goal := Min(p0 + count, |contents|);
      ghost var v0, missing, turned := State(), MissingPage(State(), position), false;
      ghost var quiet := missing && MissIsQuiet(State(), position, count) && Pos(q0, pageSize) >= |contents|;
      SettlesSame(v0);
      while remCount > 0
        invariant Valid() && |data| + remCount == count && position == p0 + |data|
        invariant data == Extract(contents, p0, |data|)
        invariant count > 0 || old(Accessible()) ==> Accessible()
        invariant Settles(v0, State())
        invariant q0 <= PageOf(position, pageSize)
        invariant position > p0 ==> KeptPages(State(), position, q0, goal)
        invariant v0.cnt == 0 ==> Unflushed(v0, State())
        invariant remCount < count ==> turned
        invariant if turned
                  then count > 0 && (missing ==> !State().pages[Slot(q0, numPages)].isDirty && !quiet && count + pageSize - 1 <= UINT32_MAX)
                  else State() == v0
        decreases remCount, MissingPage(State(), position)
      {
        ghost var v := State();
        var bytes, stop := ReadTurn(remCount, p0, goal);
        SettlesJoin(v0, v, State());
        SettlesAt(v, State(), Slot(q0, numPages));
        if stop {
          break;
        }
        ExtractNext(contents, p0, data, bytes);
        turned := true;
        data := data + bytes;
        remCount := remCount - |bytes|;
      }
      if position >= |contents| || remCount == 0 {
        ExtractAll(contents, p0, |data|, count);
      }
    }

    /** Reads `count` bytes at the position, loading pages as needed.  It returns what the file holds, except that a count
        within a page of 2^32 wraps when a page is missing, and then the read stops there. */
    method Read(count: nat) returns (data: seq<byte>)
      requires Valid() && count <= UINT32_MAX
      requires count > 0 ==> Accessible()
      modifies this, pages, target, cacheData
      ensures Valid() && contents == old(contents) && writingAtEOF == old(writingAtEOF)
      ensures data == Extract(contents, old(position), |data|) && |data| <= count
      ensures position == old(position) + |data|
      ensures eof == (|data| < count)
      ensures count > 0 || old(Accessible()) ==> Accessible()
      ensures data != Extract(contents, old(position), count) ==>
                MissingPage(State(), position) && count - |data| + pageSize - 1 > UINT32_MAX
      ensures old(MissingPage(State(), position)) && count + pageSize - 1 > UINT32_MAX ==> data == []
      ensures ReadLeaves(old(State()), old(position), State(), count, |data|)
    {
      hide Pos, Slot, PageOf, Splice, Inv, Reachable, Extract, TailCached, Settles, KeptPages, VisitedClean, PagesFor32, MissPages;
      data := ReadLoop(count);
      eof := count > 0 && |data| < count;
    }

    /** A slot can be blank only if it is slot 0 of a cache over an empty file. */
    ghost predicate NoStrayBlanks()
      reads this, pages
    {
      forall s | 0 <= s < pages.Length :: pages[s].position == -1 ==> s == 0 && contents == []
    }

    /** All the arithmetic on sizes of up to the whole cache fits 32 bits. */
    ghost predicate Fits32()
    {
      Pos(numPages, pageSize) + pageSize - 1 <= UINT32_MAX
    }

    /** The read-ahead for writing `count` bytes does not evict the page it is made for. */
    ghost predicate ReadAheadFits(count: nat)
      reads this, pages, cacheData, target
      requires Shape(State())
    {
      var q := PageOf(position, pageSize);
      || held[Slot(q, numPages)] == q
      || position == Pos(q, pageSize)
      || PagesFor(count, pageSize) < numPages
      || |contents| <= Pos(q + numPages, pageSize)
    }

    /** Makes a clean cached page dirty, flushing the dirty run first unless the page extends it. */
    method MarkDirty(pagePosition: nat, pageIndex: nat, ghost q: nat)
      requires Valid() && q == PageOf(position, pageSize) && pageIndex == Slot(q, numPages)
      requires held[pageIndex] == q && !pages[pageIndex].isDirty && pagePosition == Pos(q, pageSize)
      modifies pages, target, `dirtyCount, `firstDirtyPage, `lo
      ensures Valid() && contents == old(contents) && held == old(held)
      ensures pages[pageIndex].isDirty
      ensures if old(dirtyCount) > 0 && q == old(lo) + old(dirtyCount) then dirtyCount == old(dirtyCount) + 1 && lo == old(lo)
              else dirtyCount == 1 && lo == q
      ensures target.data == if old(dirtyCount) == 0 || q == old(lo) + old(dirtyCount) then old(target.data) else contents
      ensures forall s | 0 <= s < pages.Length ::
                pages[s].position == old(pages[s].position) && pages[s].size == old(pages[s].size)
    {
      hide Pos, Slot, PageOf, Splice, SlotsOk, RingOk, TargetOk, Shows;
      if dirtyCount > 0 {
        if q == lo + dirtyCount {
          FollowsRun(State(), q);
        }
        var prevPageIndex := if pageIndex == 0 then numPages - 1 else pageIndex - 1;
        if pages[prevPageIndex].position != pagePosition - pageSize || !pages[prevPageIndex].isDirty {
          ZeroSafe(State());
          FlushDirtyPages(0, numPages);
          CleanIsTarget(State());
        } else {
          Contiguous(State(), prevPageIndex, q);
        }
      }
      ghost var v := State();
      MarkKeepsInv(v, pageIndex, q);
      pages[pageIndex] := pages[pageIndex].(isDirty := true);
      if dirtyCount == 0 {
        firstDirtyPage := pageIndex;
        lo := q;
      }
      dirtyCount := dirtyCount + 1;
      assert State() == Marked(v, pageIndex, q);
    }

    /** The write loop's hit branch, once the page is dirty: copy bytes into the page and move on. */
    method StoreInPage(pageIndex: nat, pageOffset: nat, bytes: seq<byte>, ghost q: nat)
      requires Valid() && q == PageOf(position, pageSize) && pageIndex == Slot(q, numPages)
      requires held[pageIndex] == q && pages[pageIndex].isDirty
      requires position == Pos(q, pageSize) + pageOffset <= |contents|
      requires bytes != [] && pageOffset + |bytes| <= pageSize
      modifies this, pages, cacheData
      ensures Valid() && Accessible() && held == old(held) && dirtyCount == old(dirtyCount) && lo == old(lo)
      ensures contents == Splice(old(contents), old(position), bytes)
      ensures position == old(position) + |bytes| && eof == old(eof) && writingAtEOF == old(writingAtEOF)
      ensures forall s | 0 <= s < pages.Length :: pages[s].position == old(pages[s].position)
    {
      hide Pos, Slot, PageOf, Splice, SlotsOk, RingOk, TargetOk, Shows, Reachable;
      ghost var v := State();
      StoreKeepsInv(v, pageIndex, q, pageOffset, bytes);
      var at := PageOffset(pageIndex);
      CopyInto(cacheData, at + pageOffset, bytes);
      if pageOffset + |bytes| > pages[pageIndex].size {
        pages[pageIndex] := pages[pageIndex].(size := pageOffset + |bytes|);
      }
      contents := Splice(contents, position, bytes);
      assert State() == Stored(v, pageIndex, q, pageOffset, bytes);
      AdvanceReachable(State(), position, position + |bytes|);
      Locate(position + |bytes|, pageSize);
      StoreEofOk(v, State(), position, position + |bytes|, writingAtEOF);
      position := position + |bytes|;
    }

    /** Forgets k clean slots round the ring. */
    method Blank(pageIndex: nat, k: nat)
      requires Inv(State()) && pageIndex < numPages && k <= numPages
      requires forall s | 0 <= s < numPages && Ahead(pageIndex, s, numPages) < k :: !pages[s].isDirty
      modifies pages, `held
      ensures Inv(State()) && (k == 0 ==> State() == old(State()))
      ensures forall s | 0 <= s < numPages ::
                && (Ahead(pageIndex, s, numPages) < k ==> pages[s] == Page(-1, 0, false))
                && (Ahead(pageIndex, s, numPages) >= k ==> pages[s].position == old(pages[s].position))
    {
      hide Pos, Slot, PageOf, Splice, SlotsOk, RingOk, TargetOk;
      ghost var v := State();
      var i := 0;
      while i < k
        invariant 0 <= i <= k
        invariant Inv(State()) && |held| == v.n && (i == 0 ==> State() == v)
        invariant forall s | 0 <= s < numPages && Ahead(pageIndex, s, numPages) < k :: !pages[s].isDirty
        invariant forall s | 0 <= s < numPages ::
                    if Ahead(pageIndex, s, numPages) < i then pages[s].position == -1 && pages[s].size == 0
                    else pages[s].position == v.pages[s].position
        modifies pages, `held
      {
        var s := (pageIndex + i) % numPages;
        AheadMod(pageIndex, i, numPages);
        BlankKeepsInv(State(), s);
        ghost var was := State();
        pages[s] := pages[s].(size := 0, position := -1);
        held := held[s := -1];
        assert State() == Blanked(was, s);
        i := i + 1;
      }
    }

    /** The write loop's miss branch at the end of the file: flush the slots wanted and blank them. */
    method BlankSlots(pageIndex: nat, numPagesWrite: nat, ghost count: nat, ghost q: nat)
      requires Inv(State()) && Accessible() && writingAtEOF && numPagesWrite <= numPages
      requires numPagesWrite <= PagesFor(count, pageSize)
      requires q == PageOf(position, pageSize) && pageIndex == Slot(q, numPages) && held[pageIndex] != q
      modifies pages, target, `dirtyCount, `firstDirtyPage, `lo, `held
      ensures Inv(State()) && Accessible() && contents == old(contents) && cacheData[..] == old(cacheData[..])
      ensures old(Valid()) ==> Valid() && Pos(q, pageSize) >= |contents|
      ensures numPagesWrite > 0 ==> pages[pageIndex] == Page(-1, 0, false)
      ensures numPagesWrite == 0 ==> State() == old(State())
      ensures numPagesWrite == numPages ==> dirtyCount == 0 && forall s | 0 <= s < numPages :: pages[s] == Page(-1, 0, false)
      ensures old(Appendable(State(), position, count)) ==> Unflushed(old(State()), State())
      ensures forall s | 0 <= s < numPages :: pages[s].position == -1 ==>
                old(pages[s].position) == -1 || Ahead(pageIndex, s, numPages) < numPagesWrite
    {
      hide Pos, Slot, PageOf, Splice, SlotsOk, RingOk, TargetOk, Shows, FlushSafe, TailCached, VisitedClean, Appendable, PagesFor;
      ghost var v0 := State();
      if writingAtEOF && Valid() {
        TailMiss(State(), position);
      }
      if Appendable(v0, position, count) {
        AppendableClean(v0, position, count);
        FewerVisited(v0.pages, pageIndex, numPagesWrite, PagesFor(count, pageSize));
      }
      NoneVisited(pages[..], pageIndex);
      FlushDirtyPages(pageIndex, numPagesWrite);
      ghost var v := State();
      AheadSlots(v, pageIndex, numPagesWrite);
      assert Ahead(pageIndex, pageIndex, numPages) == 0;
      Blank(pageIndex, numPagesWrite);
      if Pos(q, pageSize) >= |contents| {
        TailPastEnd(State(), position);
      }
      if numPagesWrite > 0 {
        CleanReachable(State(), q);
      }
    }

    /** The write loop's miss branch inside the file: read ahead the pages about to be written.  The page at the position
        is in the cache afterwards, or the file ends there, if and only if the read-ahead fits.  Otherwise it has evicted
        that page again for one a ring ahead; and if it came up short, writing at the end of the file has begun in
        the middle of it. */
    method ReadAhead(numPagesWrite: nat, ghost q: nat, ghost count: nat)
      requires Valid() && Accessible() && Fits32() && !writingAtEOF && position <= |contents|
      requires q == PageOf(position, pageSize) && held[Slot(q, numPages)] != q
      requires 0 < count <= UINT32_MAX && numPagesWrite == Min(PagesFor32(count, pageSize), numPages)
      modifies this, pages, target, cacheData
      ensures Inv(State()) && Accessible() && contents == old(contents) && position == old(position) && eof == old(eof)
      ensures count + pageSize - 1 > UINT32_MAX ==> State() == old(State()) && !writingAtEOF
      ensures count + pageSize - 1 <= UINT32_MAX && old(ReadAheadFits(count)) ==>
                && Valid()
                && (held[Slot(q, numPages)] == q || (writingAtEOF && Pos(q, pageSize) == |contents| == position))
      ensures count + pageSize - 1 <= UINT32_MAX && !old(ReadAheadFits(count)) ==>
                && held[Slot(q, numPages)] == q + numPages && Pos(q + numPages, pageSize) < |contents|
                && writingAtEOF == (position + Pos(numPages, pageSize) > |contents|)
      ensures forall s | 0 <= s < pages.Length :: pages[s].position == -1 ==> old(pages[s].position) == -1
      ensures old(Appendable(State(), position, count)) ==> Unflushed(old(State()), State())
    {
      hide Pos, Slot, PageOf, Splice, SlotsOk, RingOk, TargetOk, Shows, KeptPages, TailCached, Extract, PagesFor, PagesFor32,
           VisitedClean, Appendable;
      var originalPosition := position;
      var originalEOF := eof;
      var wanted := PageOffset(numPagesWrite);
      ghost var v0, fits := State(), ReadAheadFits(count);
      AheadWanted(v0, position, count, numPagesWrite);
      var data := Read(wanted);
      ghost var v := State();
      if |data| < wanted {
        assert eof;
        writingAtEOF := true;
      }
      if numPagesWrite > 0 {
        ReadAheadKept(v, originalPosition, |data|, numPagesWrite, PagesFor(count, pageSize));
        CleanReachable(v, q);
      }
      position := originalPosition;
      eof := originalEOF;
    }

    /** The write loop's miss branch.  Where the read-ahead fits, either the page is in the cache afterwards, or its slot
        is blank and the file ends where the page starts, or writing at the end of the file has been noticed.  With a
        count so near 2^32 that the number of pages wraps to 0, nothing happens. */
    method WriteMiss(pageIndex: nat, remCount: nat, ghost q: nat)
      requires Valid() && Accessible() && Fits32() && position <= |contents|
      requires q == PageOf(position, pageSize) && pageIndex == Slot(q, numPages) && held[pageIndex] != q
      requires 0 < remCount <= UINT32_MAX
      modifies this, pages, target, cacheData
      ensures Inv(State()) && Accessible() && contents == old(contents) && position == old(position) && eof == old(eof)
      ensures remCount + pageSize - 1 > UINT32_MAX ==> State() == old(State()) && writingAtEOF == old(writingAtEOF)
      ensures remCount + pageSize - 1 <= UINT32_MAX && (old(writingAtEOF) || old(ReadAheadFits(remCount))) ==>
                && Valid()
                && (old(writingAtEOF) ==> pages[pageIndex].position == -1 && held[pageIndex] < 0 && writingAtEOF)
                && (!old(writingAtEOF) ==> held[pageIndex] == q || writingAtEOF)
                && (old(ReadAheadFits(remCount)) && held[pageIndex] != q ==> position == Pos(q, pageSize) == |contents|)
      ensures remCount + pageSize - 1 <= UINT32_MAX && !old(writingAtEOF) && !old(ReadAheadFits(remCount)) ==>
                && held[pageIndex] == q + numPages && Pos(q + numPages, pageSize) < |contents|
                && writingAtEOF == (position + Pos(numPages, pageSize) > |contents|)
      ensures forall s | 0 <= s < numPages :: pages[s].position == -1 ==>
                old(pages[s].position) == -1
                || (old(writingAtEOF) && Ahead(pageIndex, s, numPages) < Min(PagesFor(remCount, pageSize), numPages))
      ensures old(Appendable(State(), position, remCount)) ==> Unflushed(old(State()), State())
    {
      hide Pos, Slot, PageOf, Splice, SlotsOk, RingOk, TargetOk, Shows, TailCached, PagesFor, PagesFor32, Appendable;
      var numPagesWrite := PagesFor32(remCount, pageSize);
      WriteSpan(remCount, pageSize);
      if numPagesWrite > numPages {
        numPagesWrite := numPages;
      }
      Locate(position, pageSize);
      if writingAtEOF {
        BlankSlots(pageIndex, numPagesWrite, remCount, q);
        if numPagesWrite > 0 {
          BlankIsEmpty(State(), pageIndex);
        }
      } else {
        ReadAhead(numPagesWrite, q, remCount);
      }
    }

    /** The write loop's hit branch. */
    method WriteHit(pagePosition: nat, pageIndex: nat, pageOffset: nat, bytes: seq<byte>, ghost q: nat)
      requires Valid() && q == PageOf(position, pageSize) && pageIndex == Slot(q, numPages)
      requires held[pageIndex] == q && pagePosition == Pos(q, pageSize)
      requires position == pagePosition + pageOffset <= |contents|
      requires bytes != [] && pageOffset + |bytes| <= pageSize
      modifies this, pages, target, cacheData
      ensures Valid() && Accessible() && held == old(held)
      ensures contents == Splice(old(contents), old(position), bytes)
      ensures position == old(position) + |bytes| && eof == old(eof) && writingAtEOF == old(writingAtEOF)
      ensures forall s | 0 <= s < pages.Length :: pages[s].position == old(pages[s].position)
      ensures old(dirtyCount) == 0 || q == old(lo) + old(dirtyCount) ==> Grew(old(State()), State(), q, 1)
    {
      hide Pos, Slot, PageOf, Splice, SlotsOk, RingOk, TargetOk, Shows, TailCached, Reachable;
      if dirtyCount == 0 || q == lo + dirtyCount {
        NotInRun(State(), pageIndex, q);
      }
      if !pages[pageIndex].isDirty {
        MarkDirty(pagePosition, pageIndex, q);
      }
      StoreInPage(pageIndex, pageOffset, bytes, q);
    }

    /** The write loop's first step: a blank slot is claimed, empty, for the page at the position. */
    method ClaimIfBlank(pagePosition: nat, pageIndex: nat, ghost q: nat, ghost bn: nat)
      requires Valid() && q == PageOf(position, pageSize) && pageIndex == Slot(q, numPages)
      requires pagePosition == Pos(q, pageSize) && BlanksAhead(State(), q, bn)
      requires bn > 0 ==> position == pagePosition == |contents|
      modifies pages, `held
      ensures Valid() && BlanksAhead(State(), q, bn) && pages[pageIndex].position != -1
      ensures old(Accessible()) ==> Accessible()
      ensures held[pageIndex] == q || (held == old(held) && old(pages[pageIndex].position) != -1)
    {
      hide Pos, Slot, PageOf, Splice, SlotsOk, RingOk, TargetOk, Shows, TailCached, BlanksAhead, FlushSafe;
      if pages[pageIndex].position == -1 {
        BlankClaimable(State(), q, bn);
        ClaimKeepsInv(State(), pageIndex, q);
        ghost var v := State();
        pages[pageIndex] := pages[pageIndex].(size := 0, position := pagePosition);
        held := held[pageIndex := q];
        assert State() == Claimed(v, pageIndex, q);
        TailPastEnd(State(), position);
        BlanksFewer(v, State(), q, bn);
      }
    }

    /** Of `count` bytes that could be appended to v from page q on, `rem` are left and can still be. */
    ghost predicate Appends(v: View, q: nat, count: nat, rem: nat)
      reads this, pages, cacheData, target
      requires Shape(State())
    {
      && PagesFor(rem, pageSize) <= PagesFor(count, pageSize)
      && Grew(v, State(), q, PagesFor(count, pageSize) - PagesFor(rem, pageSize))
      && (rem > 0 ==> Appendable(State(), position, rem))
      && (dirtyCount == 0 ==> PageOf(position, pageSize) == q)
    }

    /** The write loop's hit branch: as much of `data` from `done` on as the page takes. */
    method FillPage(data: seq<byte>, done: nat, pagePosition: nat, pageIndex: nat, pageOffset: nat,
                    ghost q: nat, ghost c0: seq<byte>, ghost p0: nat, ghost bn: nat)
      returns (numWrite: nat, ghost left: nat)
      requires Valid() && q == PageOf(position, pageSize) && pageIndex == Slot(q, numPages)
      requires held[pageIndex] == q && pagePosition == Pos(q, pageSize) && pages[pageIndex].position != -1
      requires position == pagePosition + pageOffset <= |contents| && pageOffset < pageSize
      requires position == p0 + done && done < |data| && Written(c0, p0, data, done, contents)
      requires BlanksAhead(State(), q, bn)
      requires bn > 0 ==> position == pagePosition == |contents| && Pos(q + bn - 1, pageSize) < p0 + |data|
      modifies this, pages, target, cacheData
      ensures Valid() && Accessible() && eof == old(eof)
      ensures 0 < numWrite <= |data| - done && position == p0 + done + numWrite <= |contents|
      ensures Written(c0, p0, data, done + numWrite, contents)
      ensures BlanksAhead(State(), PageOf(position, pageSize), left)
      ensures left > 0 ==> position == Pos(PageOf(position, pageSize), pageSize) == |contents|
                           && Pos(PageOf(position, pageSize) + left - 1, pageSize) < p0 + |data|
      ensures done + numWrite < |data| ==> position == Pos(PageOf(position, pageSize), pageSize)
      ensures old(Appendable(State(), position, |data| - done)) ==> Appends(old(State()), q, |data| - done, |data| - done - numWrite)
    {
      hide Pos, Slot, PageOf, Splice, SlotsOk, RingOk, TargetOk, Shows, TailCached, Reachable, BlanksAhead, Written, PagesFor;
      numWrite := pageSize - pageOffset;
      if numWrite > |data| - done {
        numWrite := |data| - done;
      }
      ghost var v, from, was := State(), position, contents;
      WriteHit(pagePosition, pageIndex, pageOffset, data[done..done + numWrite], q);
      WrittenMore(c0, p0, data, done, numWrite, was, contents);
      BlanksAdvance(v, State(), from, position, bn, p0 + |data|);
      if Appendable(v, from, |data| - done) {
        AppendNext(v, State(), from, position, |data| - done, numWrite);
      }
      left := if bn > 0 then bn - 1 else 0;
    }

    /** What the write loop keeps: `remCount` bytes of `data` are left, the others have been written. */
    ghost predicate Writing(data: seq<byte>, remCount: nat, c0: seq<byte>, p0: nat, bn: nat)
      reads this, pages, cacheData, target
    {
      && Valid() && Accessible() && Fits32() && |data| + pageSize - 1 <= UINT32_MAX
      && remCount <= |data| && position == p0 + |data| - remCount <= |contents|
      && Written(c0, p0, data, |data| - remCount, contents)
      && (remCount > 0 ==> ReadAheadFits(remCount))
      && BlanksAhead(State(), PageOf(position, pageSize), bn)
      && (bn > 0 ==> position == Pos(PageOf(position, pageSize), pageSize) == |contents|
                     && Pos(PageOf(position, pageSize) + bn - 1, pageSize) < p0 + |data|)
    }

    /** The write loop's measure. */
    ghost function Distance(): nat
      reads this, pages, cacheData, target
      requires Valid()
    {
      CacheModel.Distance(State(), PageOf(position, pageSize), writingAtEOF)
    }

    /** One turn of the write loop. */
    method WriteTurn(data: seq<byte>, remCount: nat, ghost c0: seq<byte>, ghost p0: nat, ghost bn: nat)
      returns (rem: nat, ghost left: nat)
      requires remCount > 0 && Writing(data, remCount, c0, p0, bn)
      modifies this, pages, target, cacheData
      ensures Writing(data, rem, c0, p0, left) && eof == old(eof)
      ensures rem < remCount || (rem == remCount && Distance() < old(Distance()))
      ensures old(Appendable(State(), position, remCount)) ==>
                Appends(old(State()), PageOf(old(position), pageSize), remCount, rem)
    {
      hide Pos, Slot, PageOf, Splice, SlotsOk, RingOk, TargetOk, Shows, TailCached, Reachable, BlanksAhead, Written, PagesFor;
      var pagePosition, pageIndex, pageOffset := GetCurrentPageInfo();
      ghost var q := PageOf(position, pageSize);
      ClaimIfBlank(pagePosition, pageIndex, q, bn);
      HitTest(State(), pageIndex, q);
      if pages[pageIndex].position == pagePosition {
        var numWrite;
        numWrite, left := FillPage(data, |data| - remCount, pagePosition, pageIndex, pageOffset, q, c0, p0, bn);
        rem := remCount - numWrite;
      } else {
        ghost var v, wasAtEOF := State(), writingAtEOF;
        WriteMiss(pageIndex, remCount, q);
        BlanksMore(v, State(), q, bn, wasAtEOF, remCount, p0 + |data|);
        left := if wasAtEOF then Max(bn, Min(PagesFor(remCount, pageSize), numPages)) else bn;
        rem := remCount;
      }
    }

    /** Writes `data` at the position.  Data that can be appended beside the dirty pages stays in the cache: all its pages
        are dirty and nothing is written to the target. */
    method Write(data: seq<byte>) returns (written: nat)
      requires Valid() && NoStrayBlanks() && Fits32() && |data| + pageSize - 1 <= UINT32_MAX
      requires position <= |contents|
      requires data != [] ==> Accessible() && ReadAheadFits(|data|)
      modifies this, pages, target, cacheData
      ensures Valid() && NoStrayBlanks()
      ensures written == |data| && position == old(position) + |data|
      ensures contents == Splice(old(contents), old(position), data)
      ensures data != [] || old(Accessible()) ==> Accessible()
      ensures eof == old(eof)
      ensures old(Appendable(State(), position, |data|)) ==>
                Grew(old(State()), State(), PageOf(old(position), pageSize), PagesFor(|data|, pageSize))
    {
      hide Pos, Slot, PageOf, Splice, SlotsOk, RingOk, TargetOk, Shows, TailCached, Reachable, BlanksAhead, Written, PagesFor,
           Appendable;
      var remCount: nat := |data|;
      ghost var c0, p0, v0, q0 := contents, position, State(), PageOf(position, pageSize);
      ghost var bn: nat := if contents == [] then 1 else 0;
      PosZero(pageSize);
      Locate(position, pageSize);
      FirstBlank(State(), position, bn);
      WrittenNone(c0, p0, data);
      GrewNone(v0, q0);
      NoPages(pageSize);
      while remCount > 0
        invariant Valid() && eof == old(eof)
        invariant data != [] ==> Writing(data, remCount, c0, p0, bn)
        invariant data == [] ==> remCount == 0 && NoStrayBlanks() && contents == c0 && position == p0
                                 && (old(Accessible()) ==> Accessible())
        invariant Appendable(v0, p0, |data|) ==> Appends(v0, q0, |data|, remCount)
        decreases remCount, Distance()
      {
        ghost var v, at, was := State(), position, remCount;
        remCount, bn := WriteTurn(data, remCount, c0, p0, bn);
        if Appendable(v0, p0, |data|) {
          GrewJoin(v0, v, State(), q0, PagesFor(|data|, pageSize) - PagesFor(was, pageSize), PageOf(at, pageSize),
                   PagesFor(was, pageSize) - PagesFor(remCount, pageSize));
        }
      }
      if data != [] {
        Locate(position, pageSize);
        BlanksGone(State(), PageOf(position, pageSize), bn, p0 + |data|);
        WrittenAll(c0, p0, data, contents);
      }
      written := |data| - remCount;
    }

    /** A write of `remCount` bytes whose read-ahead does not fit and does not come up short. */
    ghost predicate Stuck(remCount: nat)
      reads this, pages, cacheData, target
    {
      && Valid() && Accessible() && Fits32() && !writingAtEOF && 0 < remCount && remCount + pageSize - 1 <= UINT32_MAX
      && MissingPage(State(), position) && !ReadAheadFits(remCount) && position + Pos(numPages, pageSize) <= |contents|
      && pages[Slot(PageOf(position, pageSize), numPages)].position != -1
    }

    /** However many turns the loop of such a write makes, it is where it was and has written nothing. */
    method WriteStuck(remCount: nat, turns: nat)
      requires Stuck(remCount)
      modifies this, pages, target, cacheData
      ensures Stuck(remCount) && position == old(position) && contents == old(contents)
    {
      hide Pos, Slot, PageOf, Splice, SlotsOk, RingOk, TargetOk, Shows, TailCached, PagesFor, Reachable;
      var i := 0;
      while i < turns
        invariant i <= turns && Stuck(remCount) && position == old(position) && contents == old(contents)
      {
        var pagePosition, pageIndex, pageOffset := GetCurrentPageInfo();
        ghost var q := PageOf(position, pageSize);
        HitTest(State(), pageIndex, q);
        assert pages[pageIndex].position != pagePosition;
        WriteMiss(pageIndex, remCount, q);
        NotBlank(State(), pageIndex);
        i := i + 1;
      }
    }

    /** A turn of the write loop on a clean cache whose slot for the page at the position is blank, although the file has
        that page: it is claimed empty, and what the slot's memory holds then stands in the file before the position. */
    method ClaimInside(data: seq<byte>, ghost q: nat) returns (numWrite: nat)
      requires Inv(State()) && dirtyCount == 0 && data != [] && q == PageOf(position, pageSize)
      requires (forall s | 0 <= s < numPages :: pages[s] == Page(-1, 0, false)) && Pos(q, pageSize) + pageSize <= |contents|
      modifies this, pages, cacheData
      ensures numWrite == Min(Pos(q, pageSize) + pageSize - old(position), |data|) > 0 && position == old(position) + numWrite
      ensures Pos(q, pageSize) <= old(position) && Shape(State())
              && WroteInside(old(cacheData[..]), old(contents), State(), q, old(position) - Pos(q, pageSize), data[..numWrite])
    {
      hide Pos, Slot, PageOf, Splice, SlotsOk, RingOk, TargetOk, Shows, WroteInside;
      var pagePosition, pageIndex, pageOffset := GetCurrentPageInfo();
      ghost var v := State();
      SlotFits(v, pageIndex);
      var page := pages[pageIndex];
      page := page.(size := 0, position := pagePosition);
      page := page.(isDirty := true);
      firstDirtyPage, dirtyCount := pageIndex, dirtyCount + 1;
      numWrite := pageSize - pageOffset;
      if numWrite > |data| {
        numWrite := |data|;
      }
      ghost var bytes := data[..numWrite];
      ClaimedIsWritten(v, pageIndex, q, pageOffset, bytes);
      var at := PageOffset(pageIndex);
      CopyInto(cacheData, at + pageOffset, data[..numWrite]);
      if pageOffset + numWrite > page.size {
        page := page.(size := pageOffset + numWrite);
      }
      assert page == Page(pagePosition, pageOffset + numWrite, true);
      pages[pageIndex] := page;
      assert pages[..] == v.pages[pageIndex := page];
      position := position + numWrite;
      held, lo := held[pageIndex := q], q;
      contents := Splice(Splice(contents, pagePosition, v.cache[at..at + pageOffset]), pagePosition + pageOffset, bytes);
      assert State() == ClaimedInside(v, pageIndex, q, pageOffset, bytes);
    }

    /** The two turns of the write loop after a read-ahead that did not fit came up short: the slots are blanked and the
        page is claimed.  The slot's memory begins with the bytes of the page a ring ahead. */
    method WriteInside(data: seq<byte>, ghost q: nat) returns (numWrite: nat)
      requires Inv(State()) && Accessible() && writingAtEOF && data != [] && |data| + pageSize - 1 <= UINT32_MAX
      requires q == PageOf(position, pageSize) && PagesFor(|data|, pageSize) >= numPages
      requires held[Slot(q, numPages)] == q + numPages && Pos(q + numPages, pageSize) < |contents|
      modifies this, pages, target, cacheData
      ensures numWrite == Min(Pos(q, pageSize) + pageSize - old(position), |data|) > 0 && position == old(position) + numWrite
      ensures Pos(q, pageSize) <= old(position) && Shape(State())
              && WroteInside(old(cacheData[..]), old(contents), State(), q, old(position) - Pos(q, pageSize), data[..numWrite])
      ensures var at, r := Pos(Slot(q, numPages), pageSize), Pos(q + numPages, pageSize);
              var m := Min(old(position) - Pos(q, pageSize), |old(contents)| - r);
              old(cacheData[..])[at..at + m] == old(contents)[r..r + m]
    {
      hide Pos, Slot, PageOf, Splice, SlotsOk, RingOk, TargetOk, Shows, TailCached, PagesFor, PagesFor32, Reachable, Appendable, WroteInside;
      var pagePosition, pageIndex, pageOffset := GetCurrentPageInfo();
      WriteSpan(|data|, pageSize);
      InsidePlaces(State(), q, pageOffset);
      var numPagesWrite := PagesFor32(|data|, pageSize);
      if numPagesWrite > numPages {
        numPagesWrite := numPages;
      }
      BlankSlots(pageIndex, numPagesWrite, |data|, q);
      numWrite := ClaimInside(data, q);
    }

    /** Moves the position.  An end-relative seek counts from the end of the target, not of the presented file. */
    method Seek(offset: int, whence: Whence) returns (ok: bool)
      requires Inv(State())
      modifies `position, `eof, `writingAtEOF, target`pos
      ensures Inv(State()) && (ok || old(Valid()) ==> Valid())
      ensures var newPosition := match whence
                                 case SeekSet => offset
                                 case SeekCur => old(position) + offset
                                 case SeekEnd => |target.data| + offset;
              ok == (newPosition >= 0)
              && (ok ==> position == newPosition && !eof && !writingAtEOF)
              && (!ok ==> position == old(position) && eof == old(eof) && writingAtEOF == old(writingAtEOF))
      ensures dirtyCount == 0 && ok ==> Accessible()
      // the presented file's end is meant if and only if the last dirty page, if any, does not reach past the target's
      ensures whence == SeekEnd && ok ==>
                (position == |contents| + offset <==> DirtyPagesInside())
    {
      hide Pos, Slot, PageOf, Splice, SlotsOk, RingOk, TargetOk, Shows;
      var newPosition := match whence
        case SeekSet => offset
        case SeekCur => position + offset
        case SeekEnd => |target.data| + offset;
      if newPosition < 0 {
        return false;
      }
      eof, position, writingAtEOF := false, newPosition, false;
      var pagePosition, pageIndex, pageOffset := GetCurrentPageInfo();
      var targetPosition := if pages[pageIndex].position == pagePosition then pagePosition + pageSize else pagePosition;
      if dirtyCount == 0 {
        AllReachable(State(), PageOf(position, pageSize));
        CleanIsTarget(State());
      } else {
        LastDirty(State());
      }
      ok := target.Seek(targetPosition, SeekSet);
    }

    /** Nothing is dirty, or the last dirty page ends where the target does or before. */
    predicate DirtyPagesInside()
      reads this, pages, target
      requires numPages == pages.Length > 0
    {
      dirtyCount == 0
      || (var last := pages[(firstDirtyPage + dirtyCount - 1) % numPages]; last.position + last.size <= |target.data|)
    }

    /** Whether the page at the position is in the cache or a flush may start in its slot. */
    method MayAccess() returns (b: bool)
      requires Valid()
      ensures b == Accessible()
    {
      hide Pos, Slot, PageOf, Splice, SlotsOk, RingOk, TargetOk, Shows, FlushSafe;
      var pagePosition, pageIndex, pageOffset := GetCurrentPageInfo();
      HitTest(State(), pageIndex, PageOf(position, pageSize));
      b := pages[pageIndex].position == pagePosition || FlushSafe(pages[..], firstDirtyPage, dirtyCount, pageIndex);
    }

    /** The size of the presented file, from the target's size and the last dirty page. */
    method Size() returns (size: nat)
      requires Valid()
      ensures size == |contents|
    {
      hide Pos, PageOf, Splice, SlotsOk, Shows;
      size := |target.data|;
      if dirtyCount > 0 {
        var lastDirtyPage := (firstDirtyPage + dirtyCount - 1) % numPages;
        LastDirty(State());
        if pages[lastDirtyPage].position + pages[lastDirtyPage].size > size {
          size := pages[lastDirtyPage].position + pages[lastDirtyPage].size;
        }
      }
    }

    /** Flushes pages from the front of the dirty run and returns their size. */
    method Flush(minSize: nat) returns (flushed: nat)
      requires Valid() && minSize <= UINT32_MAX
      modifies pages, target, `dirtyCount, `firstDirtyPage, `lo
      ensures Valid() && OnlyFlushed()
      ensures dirtyCount == old(dirtyCount) - (if minSize == 0 then 0 else Min(PagesFor32(minSize, pageSize), old(dirtyCount)))
      ensures flushed == Pos(old(dirtyCount) - dirtyCount, pageSize)
      ensures old(Accessible()) ==> Accessible()
    {
      hide Pos, Slot, PageOf, Splice, SlotsOk, RingOk, TargetOk, Shows, PagesFor32;
      var originalDirtyCount := dirtyCount;
      if minSize == 0 || dirtyCount == 0 {
        PosZero(pageSize);
        return 0;
      }
      FlushDirtyPages(firstDirtyPage, PagesFor32(minSize, pageSize));
      flushed := PageOffset(originalDirtyCount - dirtyCount);
    }

    /** Closing writes every dirty page out: the target is left as the presented file. */
    method Close()
      requires Inv(State())
      modifies pages, target, `dirtyCount, `firstDirtyPage, `lo
      ensures Inv(State()) && target.data == contents == old(contents)
    {
      hide Pos, Slot, PageOf, Splice, SlotsOk, RingOk, Shows;
      ZeroSafe(State());
      FlushDirtyPages(0, numPages);
      CleanIsTarget(State());
    }
  }

  /** The page size asked for, or the system's, rounded up to the system page size. */
  function CachePageSize(inCachePageSize: nat, sysPageSize: nat): (r: nat)
    requires sysPageSize > 0
    ensures r > 0 && r % sysPageSize == 0 && inCachePageSize <= r && r - sysPageSize < Max(inCachePageSize, 1)
  {
    RoundUp(inCachePageSize, sysPageSize);
    LeastRoundUp(inCachePageSize, sysPageSize);
    if inCachePageSize == 0 then sysPageSize
    else if inCachePageSize % sysPageSize != 0 then PagesFor(inCachePageSize, sysPageSize) * sysPageSize
    else inCachePageSize
  }

  /** Opens a cache over `target` with as many pages as fit the cache size, if that is at least one and the arithmetic on
      page counts cannot overflow. */
  method Open(target: FlatFile, inCachePageSize: nat, cacheSize: nat, sysPageSize: nat) returns (r: Option<CacheFile>)
    requires inCachePageSize + sysPageSize - 1 <= UINT32_MAX && cacheSize <= UINT32_MAX
    ensures r.Some? ==> fresh(r.value) && fresh(r.value.pages) && fresh(r.value.cacheData) && r.value.target == target
    ensures r.Some? ==> r.value.Valid() && r.value.contents == target.data && r.value.position == 0
                        && r.value.dirtyCount == 0
    ensures r.Some? ==> sysPageSize > 0 && r.value.pageSize == CachePageSize(inCachePageSize, sysPageSize)
                        && r.value.numPages * r.value.pageSize <= cacheSize < (r.value.numPages + 1) * r.value.pageSize
    ensures r.None? <==> sysPageSize == 0 || cacheSize < CachePageSize(inCachePageSize, sysPageSize)
                         || cacheSize / CachePageSize(inCachePageSize, sysPageSize) >= UINT32_MAX / 2
  {
    if sysPageSize == 0 {
      return None;
    }
    var cachePageSize := inCachePageSize;
    if cachePageSize == 0 {
      cachePageSize := sysPageSize;
    } else if cachePageSize % sysPageSize != 0 {
      cachePageSize := PagesFor(inCachePageSize, sysPageSize) * sysPageSize;
    }
    assert cachePageSize == CachePageSize(inCachePageSize, sysPageSize);
    hide PagesFor, CachePageSize, Inv, Pos;
    var numPages := cacheSize / cachePageSize;
    WholePagesIn(cacheSize, cachePageSize);
    if numPages == 0 || numPages >= UINT32_MAX / 2 {
      return None;
    }
    var c := new CacheFile(target, cachePageSize, numPages);
    r := Some(c);
  }
}
