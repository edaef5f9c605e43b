/** The flat byte file that every storage layer stands for, under runs of operations. */
module FlatFiles {
  import opened Bytes

  datatype Op = WriteOp(bytes: seq<byte>) | ReadOp(count: nat) | FlushOp(minSize: nat) | SeekOp(offset: nat)

  /** The reference: a byte sequence and a position. */
  datatype Flat = Flat(data: seq<byte>, pos: nat)

  /** Some files refuse to seek past their end; the others do not mind. */
  datatype SeekRule = Anywhere | UpToEnd

  function FlatStep(rule: SeekRule, f: Flat, op: Op): Flat
  {
    match op
    case WriteOp(b) => Flat(Splice(f.data, f.pos, b), f.pos + |b|)
    case ReadOp(count) => Flat(f.data, f.pos + |Extract(f.data, f.pos, count)|)
    case FlushOp(_) => f
    case SeekOp(offset) => if rule == UpToEnd && offset > |f.data| then f else Flat(f.data, offset)
  }

  function FlatOutput(f: Flat, op: Op): seq<byte>
  {
    if op.ReadOp? then Extract(f.data, f.pos, op.count) else []
  }

  function FlatRun(rule: SeekRule, f: Flat, ops: seq<Op>): Flat
  {
    if ops == [] then f else FlatStep(rule, FlatRun(rule, f, ops[..|ops| - 1]), ops[|ops| - 1])
  }

  function FlatOutputs(rule: SeekRule, f: Flat, ops: seq<Op>): seq<seq<byte>>
  {
    if ops == [] then []
    else FlatOutputs(rule, f, ops[..|ops| - 1]) + [FlatOutput(FlatRun(rule, f, ops[..|ops| - 1]), ops[|ops| - 1])]
  }
}

/** Whole runs of a cache file against the flat file it stands for. */
module CacheRun {
  import opened Wrappers
  import opened Bytes
  import opened Grid
  import opened MxfFile
  import CacheModel
  import opened CacheFile
  import opened FlatFiles

  /** What an operation asks of its caller: sizes in 32-bit range, no write past the end of the file, and,
      for a write inside the file that starts inside a page, fewer pages than the ring has. */
  predicate OpFits(f: Flat, op: Op, ps: nat, n: nat)
    requires ps > 0
  {
    match op
    case WriteOp(b) =>
      && |b| + ps - 1 <= UINT32_MAX && f.pos <= |f.data|
      && (f.pos == |f.data| || f.pos == Pos(PageOf(f.pos, ps), ps) || PagesFor(|b|, ps) < n)
    case ReadOp(count) => count + ps - 1 <= UINT32_MAX
    case FlushOp(minSize) => minSize <= UINT32_MAX
    case SeekOp(_) => true
  }

  ghost predicate RunFits(f: Flat, ops: seq<Op>, ps: nat, n: nat)
    requires ps > 0
  {
    forall i | 0 <= i < |ops| :: OpFits(FlatRun(Anywhere, f, ops[..i]), ops[i], ps, n)
  }

  /** The cache agrees with the reference. */
  ghost predicate Agrees(c: CacheFile, f: Flat)
    reads c, c.pages, c.cacheData, c.target
  {
    c.Valid() && c.NoStrayBlanks() && c.Fits32() && c.contents == f.data && c.position == f.pos
  }

  lemma WriteFits(c: CacheFile, f: Flat, b: seq<byte>)
    requires Agrees(c, f) && OpFits(f, WriteOp(b), c.pageSize, c.numPages)
    ensures c.ReadAheadFits(|b|)
  {
    hide Pos, Slot, PageOf, CacheModel.SlotsOk, CacheModel.RingOk, CacheModel.TargetOk;
    var q := PageOf(f.pos, c.pageSize);
    Locate(f.pos, c.pageSize);
    PosNext(q, c.pageSize);
    PosMono(q + 1, q + c.numPages, c.pageSize);
  }

  /** How many slots an operation flushes first if it misses the page at the position: for a write at the end of the file
      the pages it needs, and otherwise the pages that one read call can fill. */
  ghost function FirstFlush(c: CacheFile, op: Op): nat
    reads c, c.pages, c.cacheData, c.target
    requires c.Valid()
  {
    var s := Slot(PageOf(c.position, c.pageSize), c.numPages);
    match op
    case ReadOp(count) => CacheModel.MissPages(count, c.pageSize, c.numPages, s)
    case WriteOp(b) =>
      var k := Min(PagesFor32(|b|, c.pageSize), c.numPages);
      if c.writingAtEOF then k else CacheModel.MissPages(Pos(k, c.pageSize), c.pageSize, c.numPages, s)
    case _ => 0
  }

  /** The operation reads or writes something and fails an assertion of the flush loop at its first access. */
  ghost predicate Aborts(c: CacheFile, op: Op)
    reads c, c.pages, c.cacheData, c.target
    requires c.Valid()
  {
    && ((op.ReadOp? && op.count > 0) || (op.WriteOp? && op.bytes != []))
    && !CacheModel.AccessAsserts(c.State(), PageOf(c.position, c.pageSize), FirstFlush(c, op))
  }

  lemma FirstFlushPositive(c: CacheFile, op: Op, f: Flat)
    requires Agrees(c, f) && OpFits(f, op, c.pageSize, c.numPages)
    requires (op.ReadOp? && op.count > 0) || (op.WriteOp? && op.bytes != [])
    ensures FirstFlush(c, op) > 0
  {
    hide Pos, Slot, PageOf, PagesFor, PagesFor32, CacheModel.SlotsOk, CacheModel.RingOk, CacheModel.TargetOk;
    match op
    case ReadOp(count) => CacheModel.WriteSpan(count, c.pageSize);
    case WriteOp(b) =>
      CacheModel.WriteSpan(|b|, c.pageSize);
      var k := Min(PagesFor32(|b|, c.pageSize), c.numPages);
      PosMono(k, c.numPages, c.pageSize);
      CacheModel.WholePages(k, c.pageSize);
  }

  /** An operation aborts if and only if the page at the position is missing and a flush may not start in its slot. */
  lemma AbortsExactly(c: CacheFile, op: Op, f: Flat)
    requires Agrees(c, f) && OpFits(f, op, c.pageSize, c.numPages)
    ensures Aborts(c, op) <==> ((op.ReadOp? && op.count > 0) || (op.WriteOp? && op.bytes != [])) && !c.Accessible()
  {
    hide Pos, Slot, PageOf, CacheModel.SlotsOk, CacheModel.RingOk, CacheModel.TargetOk, CacheModel.AccessAsserts, CacheModel.Reachable,
         FirstFlush, OpFits;
    if (op.ReadOp? && op.count > 0) || (op.WriteOp? && op.bytes != []) {
      FirstFlushPositive(c, op, f);
      CacheModel.AccessAssertsExactly(c.State(), PageOf(c.position, c.pageSize), FirstFlush(c, op));
    }
  }

  /** Asks for every page of the ring to be flushed. */
  predicate FlushesAll(op: Op, ps: nat, n: nat)
    requires ps > 0
  {
    op.FlushOp? && op.minSize > 0 && PagesFor32(op.minSize, ps) >= n
  }

  /** One operation on the cache does what it does on the flat file, or an assertion stops it.  Only a seek with dirty pages
      can lead to where the next operation is stopped. */
  method Step(c: CacheFile, ghost f: Flat, op: Op) returns (r: Option<seq<byte>>)
    requires Agrees(c, f) && OpFits(f, op, c.pageSize, c.numPages)
    modifies c, c.pages, c.cacheData, c.target
    ensures r.None? <==> old(Aborts(c, op))
    ensures r.None? ==> Agrees(c, f) && Aborts(c, op)
    ensures r.Some? ==> Agrees(c, FlatStep(Anywhere, f, op)) && r.value == FlatOutput(f, op)
    ensures r.Some? && (op.SeekOp? ==> old(c.dirtyCount) == 0) && old(c.Accessible()) ==> c.Accessible()
    ensures r.Some? && FlushesAll(op, c.pageSize, c.numPages) ==> c.dirtyCount == 0
  {
    hide Pos, Slot, PageOf, Splice, Extract, CacheModel.Inv, PagesFor32, Aborts;
    AbortsExactly(c, op, f);
    match op {
      case WriteOp(b) =>
        var may := c.MayAccess();
        if b != [] && !may {
          return None;
        }
        WriteFits(c, f, b);
        var n := c.Write(b);
        r := Some([]);
      case ReadOp(count) =>
        var may := c.MayAccess();
        if count > 0 && !may {
          return None;
        }
        var data := c.Read(count);
        r := Some(data);
      case FlushOp(minSize) =>
        DirtyInRing(c);
        var n := c.Flush(minSize);
        r := Some([]);
      case SeekOp(offset) =>
        var ok := c.Seek(offset, SeekSet);
        r := Some([]);
    }
  }

  lemma DirtyInRing(c: CacheFile)
    requires c.Valid()
    ensures c.dirtyCount <= c.numPages
  {
    hide CacheModel.Inv;
    CacheModel.RunFitsRing(c.State());
  }

  /** A run asks for a full flush before each seek. */
  predicate SeeksFlushed(ops: seq<Op>, ps: nat, n: nat)
    requires ps > 0
  {
    forall i | 0 <= i < |ops| && ops[i].SeekOp? :: i > 0 && FlushesAll(ops[i - 1], ps, n)
  }

  /** Any run of reads, writes, flushes and seeks that meets its callers' duties, on a cache that agrees with a flat file,
      returns what the flat file returns and reports its sizes, up to the first operation that an assertion stops.  If a
      full flush comes before every seek none is stopped. */
  method Run(c: CacheFile, ghost f: Flat, ops: seq<Op>) returns (outputs: seq<seq<byte>>, sizes: seq<nat>)
    requires Agrees(c, f) && RunFits(f, ops, c.pageSize, c.numPages)
    modifies c, c.pages, c.cacheData, c.target
    ensures |outputs| == |sizes| <= |ops|
    ensures Agrees(c, FlatRun(Anywhere, f, ops[..|outputs|])) && outputs == FlatOutputs(Anywhere, f, ops[..|outputs|])
    ensures forall i | 0 <= i < |sizes| :: sizes[i] == |FlatRun(Anywhere, f, ops[..i + 1]).data|
    ensures |outputs| < |ops| ==> Aborts(c, ops[|outputs|])
    ensures SeeksFlushed(ops, c.pageSize, c.numPages) && old(c.Accessible()) ==> |outputs| == |ops|
  {
    hide Pos, Slot, PageOf, Splice, CacheModel.Inv, OpFits, FlatStep, FlatOutput, Aborts, FlushesAll;
    outputs, sizes := [], [];
    var i := 0;
    while i < |ops|
      invariant 0 <= i <= |ops| && Agrees(c, FlatRun(Anywhere, f, ops[..i]))
      invariant outputs == FlatOutputs(Anywhere, f, ops[..i]) && |outputs| == i
      invariant |sizes| == i && forall j | 0 <= j < i :: sizes[j] == |FlatRun(Anywhere, f, ops[..j + 1]).data|
      invariant SeeksFlushed(ops, c.pageSize, c.numPages) && old(c.Accessible()) ==> c.Accessible()
      invariant i > 0 && FlushesAll(ops[i - 1], c.pageSize, c.numPages) ==> c.dirtyCount == 0
    {
      assert ops[..i + 1][..i] == ops[..i];
      StepAborts(c, ops[i], FlatRun(Anywhere, f, ops[..i]));
      var r := Step(c, FlatRun(Anywhere, f, ops[..i]), ops[i]);
      if r.None? {
        return;
      }
      var size := c.Size();
      outputs, sizes := outputs + [r.value], sizes + [size];
      i := i + 1;
    }
    assert ops[..i] == ops;
  }

  lemma StepAborts(c: CacheFile, op: Op, f: Flat)
    requires Agrees(c, f) && OpFits(f, op, c.pageSize, c.numPages)
    ensures c.Accessible() ==> !Aborts(c, op)
  {
    hide CacheModel.Inv, OpFits, Aborts;
    AbortsExactly(c, op, f);
  }

  /** A run on a new cache over an empty target, which is closed if nothing stopped the run: the target is left with the
      flat file's bytes. */
  method RunNew(target: FlatFile, pageSize: nat, numPages: nat, ops: seq<Op>) returns (outputs: seq<seq<byte>>, sizes: seq<nat>)
    requires pageSize > 0 && numPages > 0 && Pos(numPages, pageSize) + pageSize - 1 <= UINT32_MAX
    requires target.data == [] && RunFits(Flat([], 0), ops, pageSize, numPages)
    modifies target
    ensures |outputs| == |sizes| <= |ops| && outputs == FlatOutputs(Anywhere, Flat([], 0), ops[..|outputs|])
    ensures forall i | 0 <= i < |sizes| :: sizes[i] == |FlatRun(Anywhere, Flat([], 0), ops[..i + 1]).data|
    ensures |outputs| == |ops| ==> target.data == FlatRun(Anywhere, Flat([], 0), ops).data
    ensures SeeksFlushed(ops, pageSize, numPages) ==> |outputs| == |ops|
  {
    hide Pos, Slot, PageOf, Splice, CacheModel.Inv, OpFits, FlatStep, FlatOutput, Aborts, SeeksFlushed;
    var c := new CacheFile(target, pageSize, numPages);
    CacheModel.AllReachable(c.State(), PageOf(0, pageSize));
    outputs, sizes := Run(c, Flat([], 0), ops);
    assert ops[..|ops|] == ops;
    if |outputs| == |ops| {
      c.Close();
    }
  }

  function AllWritten(ops: seq<Op>): seq<byte>
  {
    if ops == [] then []
    else AllWritten(ops[..|ops| - 1]) + if ops[|ops| - 1].WriteOp? then ops[|ops| - 1].bytes else []
  }

  /** Without seeks and reads a run on the flat file only appends. */
  lemma {:induction false} SequentialAppends(ops: seq<Op>)
    requires forall i | 0 <= i < |ops| :: ops[i].WriteOp? || ops[i].FlushOp?
    ensures FlatRun(Anywhere, Flat([], 0), ops) == Flat(AllWritten(ops), |AllWritten(ops)|)
  {
    hide Splice;
    if ops != [] {
      var front := ops[..|ops| - 1];
      SequentialAppends(front);
      if ops[|ops| - 1].WriteOp? {
        SpliceAtEnd(AllWritten(front), ops[|ops| - 1].bytes);
      }
    }
  }

  /** Sequential writes of any sizes, interleaved with flushes, on a cache over an empty target: every size
      reported is the number of bytes written so far, and closing leaves exactly the concatenation. */
  method RunSequential(target: FlatFile, pageSize: nat, numPages: nat, ops: seq<Op>) returns (sizes: seq<nat>)
    requires pageSize > 0 && numPages > 0 && Pos(numPages, pageSize) + pageSize - 1 <= UINT32_MAX
    requires target.data == []
    requires forall i | 0 <= i < |ops| ::
               (ops[i].WriteOp? && |ops[i].bytes| + pageSize - 1 <= UINT32_MAX)
               || (ops[i].FlushOp? && ops[i].minSize <= UINT32_MAX)
    modifies target
    ensures target.data == AllWritten(ops)
    ensures |sizes| == |ops| && forall i | 0 <= i < |ops| :: sizes[i] == |AllWritten(ops[..i + 1])|
  {
    forall i | 0 <= i <= |ops|
      ensures FlatRun(Anywhere, Flat([], 0), ops[..i]) == Flat(AllWritten(ops[..i]), |AllWritten(ops[..i])|)
    {
      SequentialAppends(ops[..i]);
    }
    assert ops[..|ops|] == ops;
    var outputs;
    outputs, sizes := RunNew(target, pageSize, numPages, ops);
  }

  /* ---- What seeks can do while pages are dirty ---- */

  /** Places and slots in a ring of 4 pages. */
  lemma SmallGrid(ps: nat)
    requires ps > 0
    ensures Pos(0, ps) == 0 && Pos(2, ps) == 2 * ps && Pos(4, ps) == 4 * ps && Pos(7, ps) == 7 * ps
    ensures PageOf(0, ps) == 0 && PageOf(2 * ps, ps) == 2 && PageOf(7 * ps, ps) == 7
    ensures PagesFor(2 * ps, ps) == 2 && PagesFor(3 * ps, ps) == 3
    ensures Slot(2, 4) == 2 && Slot(3, 4) == 3 && Slot(7, 4) == 3
  {
    PosIsProduct(2, ps);
    PosIsProduct(4, ps);
    PosIsProduct(7, ps);
    LocateUnique(0, 0, ps);
    LocateUnique(2 * ps, 2, ps);
    LocateUnique(7 * ps, 7, ps);
    DivUnique(2 * ps + ps - 1, 2, ps - 1, ps);
    DivUnique(3 * ps + ps - 1, 3, ps - 1, ps);
  }

  /** Two pages written and flushed, three more written, which wrap round a ring of four, and a seek to a page whose slot
      holds one of them but not the first: a read then is stopped by an assertion. */
  method SeekMayAbort(target: FlatFile, pageSize: nat, a: seq<byte>, b: seq<byte>) returns (c: CacheFile)
    requires pageSize > 0 && 5 * pageSize - 1 <= UINT32_MAX && target.data == []
    requires |a| == 2 * pageSize && |b| == 3 * pageSize
    modifies target
    ensures fresh(c) && c.target == target && c.Valid() && c.contents == a + b && c.position == 7 * pageSize
    ensures Aborts(c, ReadOp(1))
  {
    hide Pos, PageOf, Slot, Splice, PagesFor, PagesFor32, CacheModel.SlotsOk, CacheModel.RingOk, CacheModel.TargetOk,
         CacheModel.Reachable, Aborts;
    SmallGrid(pageSize);
    PagesFor32Exact(2 * pageSize, pageSize);
    c := new CacheFile(target, pageSize, 4);
    CacheModel.AllReachable(c.State(), 0);
    SpliceAtEnd([], a);
    var n := c.Write(a);
    assert c.contents == a;
    n := c.Flush(2 * pageSize);
    CacheModel.AllReachable(c.State(), 2);
    SpliceAtEnd(a, b);
    n := c.Write(b);
    var ok := c.Seek(7 * pageSize, SeekSet);
    WrappedRun(c.State());
    AbortsExactly(c, ReadOp(1), Flat(c.contents, c.position));
  }

  /** With pages 2, 3 and 4 dirty in a ring of 4, slot 3 is inside the upper part of the run. */
  lemma WrappedRun(v: CacheModel.View)
    requires CacheModel.Inv(v) && v.n == 4 && v.lo == 2 && v.cnt == 3
    ensures !CacheModel.Reachable(v, 7)
  {
    hide Pos, Slot, CacheModel.SlotsOk, CacheModel.TargetOk;
    SmallGrid(v.ps);
    CacheModel.InRun(v, 3);
  }

  /** Something written to a new cache and not flushed: a seek to the end goes to the start. */
  method SeekEndMissesDirty(target: FlatFile, pageSize: nat, numPages: nat, b: seq<byte>) returns (c: CacheFile)
    requires pageSize > 0 && numPages > 0 && Pos(numPages, pageSize) + pageSize - 1 <= UINT32_MAX && target.data == []
    requires b != [] && PagesFor(|b|, pageSize) <= numPages && |b| + pageSize - 1 <= UINT32_MAX
    modifies target
    ensures fresh(c) && c.target == target && c.Valid() && c.contents == b && c.position == 0
  {
    hide Pos, PageOf, Splice, PagesFor, Slot, CacheModel.SlotsOk, CacheModel.TargetOk, CacheModel.RingOk;
    PosZero(pageSize);
    LocateUnique(0, 0, pageSize);
    c := new CacheFile(target, pageSize, numPages);
    CacheModel.AllReachable(c.State(), 0);
    SpliceAtEnd([], b);
    var n := c.Write(b);
    assert [] + b == b;
    var ok := c.Seek(0, SeekEnd);
  }
}

/** Writes whose read-ahead does not fit. */
module CacheAhead {
  import opened Bytes
  import opened Grid
  import opened MxfFile
  import CacheModel
  import opened CacheFile

  /** Places in a ring of n pages of 4 bytes. */
  lemma PlacesOf4(n: nat)
    requires n > 0
    ensures Pos(0, 4) == 0 && Pos(n, 4) == 4 * n && Pos(n + n, 4) == 8 * n && PageOf(4 * n, 4) == n && PageOf(2, 4) == 0
    ensures Slot(0, n) == 0 && Slot(n, n) == 0
  {
    PosIsProduct(n, 4);
    PosIsProduct(n + n, 4);
    LocateUnique(4 * n, n, 4);
    LocateUnique(2, 0, 4);
  }

  /** A cache of n pages of 4 bytes over a file one byte longer: the last byte is read, and after a seek to 2 a write of as
      many pages as the ring has begins.  Its read-ahead evicts page 0 again and comes up one byte short, so the page is
      claimed empty and then begins with the file's last byte. */
  method ReadAheadCorrupts(target: FlatFile, n: nat, b: seq<byte>) returns (c: CacheFile, written: nat)
    requires n > 0 && 4 * n + 3 <= UINT32_MAX && |target.data| == 4 * n + 1 && 2 <= |b| <= UINT32_MAX - 3 && |b| > 4 * (n - 1)
    modifies target
    ensures fresh(c) && fresh(c.pages) && fresh(c.cacheData) && c.target == target
    ensures CacheModel.Inv(c.State()) && written == 2 && c.position == 4
    ensures |c.contents| == 4 * n + 1 && c.contents[0] == old(target.data)[4 * n]
    ensures old(target.data)[4 * n] != old(target.data)[0] ==> c.contents != Splice(old(target.data), 2, b[..2])
  {
    hide Pos, PageOf, Slot, PagesFor, Splice, CacheModel.SlotsOk, CacheModel.RingOk, CacheModel.TargetOk, CacheModel.Reachable,
         CacheModel.TailCached;
    ghost var d := target.data;
    PlacesOf4(n);
    c := LastByteRead(target, n);
    var ok := c.Seek(2, SeekSet);
    CacheModel.NotBlank(c.State(), 0);
    PagesForBounds(|b|, 4);
    PosIsProduct(PagesFor(|b|, 4), 4);
    c.WriteMiss(0, |b|, 0);
    ghost var cache := c.cacheData[..];
    written := c.WriteInside(b, 0);
    StaleByte(d, cache, b[..2], 4 * n);
  }

  method LastByteRead(target: FlatFile, n: nat) returns (c: CacheFile)
    requires n > 0 && 4 * n + 3 <= UINT32_MAX && |target.data| == 4 * n + 1
    modifies target
    ensures fresh(c) && fresh(c.pages) && fresh(c.cacheData) && c.target == target && c.pageSize == 4 && c.numPages == n
    ensures c.Valid() && c.contents == target.data == old(target.data) && c.dirtyCount == 0 && c.held[0] == n
  {
    hide Pos, PageOf, Slot, PagesFor, Splice, Extract, CacheModel.SlotsOk, CacheModel.RingOk, CacheModel.TargetOk, CacheModel.Reachable,
         CacheModel.Settles, CacheModel.TailCached;
    PlacesOf4(n);
    c := new CacheFile(target, 4, n);
    var ok := c.Seek(4 * n, SeekSet);
    var last := c.Read(1);
    CacheModel.KeptAt(c.State(), 4 * n + 1, n, 4 * n + 1, n);
  }

  lemma StaleByte(d: seq<byte>, cache: seq<byte>, b: seq<byte>, r: nat)
    requires |cache| >= 2 && r + 1 == |d| && |d| >= 4 && |b| == 2 && cache[0..1] == d[r..r + 1]
    ensures var x := Splice(Splice(d, 0, cache[0..2]), 2, b);
      |x| == |d| && x[0] == d[r] && (d[r] != d[0] ==> x != Splice(d, 2, b))
  {
    hide Splice;
    assert cache[0] == cache[0..1][0] == d[r..r + 1][0] == d[r];
    assert cache[0..2][0] == cache[0];
  }

  /** With one page the write is over then, and closing the cache leaves the wrong byte in the target. */
  method WrongByteWritten(target: FlatFile, b: seq<byte>)
    requires |target.data| == 5 && |b| == 2 && target.data[4] != target.data[0]
    modifies target
    ensures |target.data| == 5 && target.data[0] == old(target.data)[4] && target.data != Splice(old(target.data), 2, b)
  {
    hide CacheModel.Inv, Splice;
    assert b[..2] == b;
    var c, written := ReadAheadCorrupts(target, 1, b);
    c.Close();
  }
}

/** Whole runs of a paged file. */
module PageRun {
  import opened Bytes
  import opened MxfFile
  import opened PageFile
  import opened FlatFiles

  /** One operation on the paged file does what it does on the flat file, however many pages are opened and closed
      for it.  There is nothing to flush. */
  method Step(c: PageFile, ghost f: Flat, op: Op) returns (output: seq<byte>)
    requires c.Valid() && !c.mode.ReadMode? && c.contents == f.data && c.position == f.pos
    modifies c, c.list, c.list.nodes, c.pages
    ensures c.Valid() && c.contents == FlatStep(UpToEnd, f, op).data && c.position == FlatStep(UpToEnd, f, op).pos
    ensures output == FlatOutput(f, op)
    ensures forall k | 0 <= k < |c.pages| :: c.pages[k] in old(c.pages) || fresh(c.pages[k])
    ensures forall i | 0 <= i < |c.list.nodes| :: c.list.nodes[i] in old(c.list.nodes) || fresh(c.list.nodes[i])
  {
    hide PageFile.Valid, Splice, Extract;
    output := [];
    match op {
      case WriteOp(b) =>
        var n := c.Write(b);
        assert b[..|b|] == b;
      case ReadOp(count) =>
        output := c.Read(count);
      case FlushOp(_) =>
      case SeekOp(offset) =>
        var ok := c.Seek(offset, SeekSet);
    }
  }

  /** Any run of reads, writes and seeks on a paged file that may be written returns what the flat file returns and
      leaves its bytes; no page written earlier is lost when its file is closed and opened again. */
  method Run(c: PageFile, ops: seq<Op>) returns (outputs: seq<seq<byte>>)
    requires c.Valid() && !c.mode.ReadMode?
    modifies c, c.list, c.list.nodes, c.pages
    ensures c.Valid()
    ensures outputs == FlatOutputs(UpToEnd, Flat(old(c.contents), old(c.position)), ops)
    ensures c.contents == FlatRun(UpToEnd, Flat(old(c.contents), old(c.position)), ops).data
  {
    hide PageFile.Valid, FlatStep, FlatOutput;
    ghost var f0 := Flat(c.contents, c.position);
    outputs := [];
    var i := 0;
    while i < |ops|
      invariant 0 <= i <= |ops| && c.Valid()
      invariant Flat(c.contents, c.position) == FlatRun(UpToEnd, f0, ops[..i]) && outputs == FlatOutputs(UpToEnd, f0, ops[..i])
      invariant forall k | 0 <= k < |c.pages| :: c.pages[k] in old(c.pages) || fresh(c.pages[k])
      invariant forall j | 0 <= j < |c.list.nodes| :: c.list.nodes[j] in old(c.list.nodes) || fresh(c.list.nodes[j])
    {
      assert ops[..i + 1][..i] == ops[..i];
      var output := Step(c, FlatRun(UpToEnd, f0, ops[..i]), ops[i]);
      outputs := outputs + [output];
      i := i + 1;
    }
    assert ops[..i] == ops;
  }
}

/** Whole runs of a memory file. */
module MemoryRun {
  import opened Bytes
  import opened MxfFile
  import opened MemoryFile
  import opened FlatFiles

  /** A write starts at or before the end of the file and does not grow it by 2^32 bytes or more. */
  predicate OpFits(f: Flat, op: Op)
  {
    op.WriteOp? ==> f.pos <= |f.data| && f.pos + |op.bytes| - |f.data| <= UINT32_MAX
  }

  predicate RunFits(f: Flat, ops: seq<Op>)
  {
    forall i | 0 <= i < |ops| :: OpFits(FlatRun(Anywhere, f, ops[..i]), ops[i])
  }

  method Step(c: MemoryFile, ghost f: Flat, op: Op) returns (output: seq<byte>)
    requires c.Valid() && c.contents == f.data && c.position == f.pos && OpFits(f, op)
    modifies c, c.Arrays()
    ensures c.Valid() && c.contents == FlatStep(Anywhere, f, op).data && c.position == FlatStep(Anywhere, f, op).pos
    ensures output == FlatOutput(f, op)
    ensures forall a | a in c.Arrays() :: a in old(c.Arrays()) || fresh(a)
  {
    hide MemoryFile.Valid, MemoryFile.Arrays, Splice, Extract;
    output := [];
    match op {
      case WriteOp(b) =>
        SizesKnown(c);
        ghost var was, arrays := c.contents, c.Arrays();
        var n; ghost var gap;
        n, gap := c.Write(b);
        assert forall a | a in c.Arrays() :: a in arrays || a in c.Arrays() - arrays;
        assert gap == [];
        assert was + gap == was;
      case ReadOp(count) =>
        output := c.Read(count);
      case FlushOp(_) =>
      case SeekOp(offset) =>
        var ok := c.Seek(c.virtualStartPos + offset, SeekSet);
    }
  }

  lemma SizesKnown(c: MemoryFile)
    requires c.Valid()
    ensures c.chunkSize > 0
  {
  }

  /** Any run of reads, writes and seeks on a new memory file, with chunks of any size and positions counted from any virtual
      start, returns what the flat file returns; writing the memory file out afterwards emits exactly the flat file's bytes. */
  method Run(chunkSize: nat, startPos: int, ops: seq<Op>, file: FlatFile) returns (outputs: seq<seq<byte>>)
    requires RunFits(Flat([], 0), ops)
    modifies file
    ensures outputs == FlatOutputs(Anywhere, Flat([], 0), ops)
    ensures file.data == Splice(old(file.data), old(file.pos), FlatRun(Anywhere, Flat([], 0), ops).data)
  {
    hide MemoryFile.Valid, MemoryFile.Arrays, FlatStep, FlatOutput, OpFits, Splice;
    ghost var f0 := Flat([], 0);
    var c := new MemoryFile(chunkSize, startPos);
    NoArrays(c);
    outputs := [];
    var i := 0;
    while i < |ops|
      invariant 0 <= i <= |ops| && fresh(c) && c.Valid()
      invariant forall a | a in c.Arrays() :: fresh(a)
      invariant Flat(c.contents, c.position) == FlatRun(Anywhere, f0, ops[..i]) && outputs == FlatOutputs(Anywhere, f0, ops[..i])
      invariant file.data == old(file.data) && file.pos == old(file.pos)
    {
      assert ops[..i + 1][..i] == ops[..i];
      var output := Step(c, FlatRun(Anywhere, f0, ops[..i]), ops[i]);
      outputs := outputs + [output];
      i := i + 1;
    }
    assert ops[..i] == ops;
    var ok := c.FlushToFile(file);
  }

  lemma NoArrays(c: MemoryFile)
    requires c.chunks == []
    ensures c.Arrays() == {}
  {
  }
}
