/** A file kept in memory as a list of equally sized chunks. */
module MemoryModel {
  import opened Bytes
  import opened Grid

  /** The chunks as values: their whole buffers, the number of bytes used in each, and the file they hold. */
  datatype View = View(cs: nat, data: seq<seq<byte>>, sizes: seq<nat>, contents: seq<byte>)

  /** How many of a file's `len` bytes lie in a chunk of `cs` bytes at offset `at`. */
  function Share(len: nat, at: nat, cs: nat): nat
  {
    if len <= at then 0 else Min(len - at, cs)
  }

  ghost predicate ChunkOk(v: View, i: nat)
    requires |v.sizes| == |v.data| && i < |v.data|
  {
    var at, z := Pos(i, v.cs), v.sizes[i];
    && |v.data[i]| == v.cs && z == Share(|v.contents|, at, v.cs)
    && (z > 0 ==> v.data[i][..z] == v.contents[at..at + z])
  }

  /** Every chunk holds its share of the file, and the chunks have room for all of it. */
  ghost predicate Filled(v: View)
  {
    && |v.sizes| == |v.data| && |v.contents| <= Pos(|v.data|, v.cs)
    && forall i | 0 <= i < |v.data| :: ChunkOk(v, i)
  }

  /** b stored at offset o of chunk i. */
  ghost function Stored(v: View, i: nat, o: nat, b: seq<byte>): View
    requires |v.sizes| == |v.data| && i < |v.data|
  {
    v.(data := v.data[i := Splice(v.data[i], o, b)],
       sizes := v.sizes[i := Max(v.sizes[i], o + |b|)],
       contents := Splice(v.contents, Pos(i, v.cs) + o, b))
  }

  lemma StoreKeepsFilled(v: View, i: nat, o: nat, b: seq<byte>)
    requires Filled(v) && i < |v.data| && b != [] && o + |b| <= v.cs && Pos(i, v.cs) + o <= |v.contents|
    ensures Filled(Stored(v, i, o, b))
  {
    hide Pos, Splice;
    var w := Stored(v, i, o, b);
    PosNext(i, v.cs);
    PosMono(i + 1, |v.data|, v.cs);
    forall j | 0 <= j < |v.data|
      ensures ChunkOk(w, j)
    {
      assert ChunkOk(v, j);
      if j == i {
        StoredChunk(v, i, o, b);
      } else {
        OtherChunk(v, i, o, b, j);
      }
    }
  }

  lemma StoredChunk(v: View, i: nat, o: nat, b: seq<byte>)
    requires |v.sizes| == |v.data| && i < |v.data| && ChunkOk(v, i)
    requires b != [] && o + |b| <= v.cs && Pos(i, v.cs) + o <= |v.contents|
    ensures ChunkOk(Stored(v, i, o, b), i)
  {
    hide Pos, Splice;
    var z := v.sizes[i];
    assert v.data[i][0..0 + z] == v.contents[Pos(i, v.cs)..Pos(i, v.cs) + z];
    SpliceBoth(v.data[i], 0, v.contents, Pos(i, v.cs), z, o, b);
  }

  lemma OtherChunk(v: View, i: nat, o: nat, b: seq<byte>, j: nat)
    requires |v.sizes| == |v.data| && i < |v.data| && j < |v.data| && j != i && ChunkOk(v, j)
    requires b != [] && o + |b| <= v.cs && Pos(i, v.cs) + o <= |v.contents|
    ensures ChunkOk(Stored(v, i, o, b), j)
  {
    hide Pos, Splice;
    if j < i {
      PosMono(j, i, v.cs);
    } else {
      PosMono(i, j, v.cs);
    }
    var at, z := Pos(j, v.cs), v.sizes[j];
    if z > 0 {
      SpliceOutside(v.contents, Pos(i, v.cs) + o, b, at, at + z);
    }
  }

  lemma ChunkShare(v: View, i: nat, at: nat)
    requires Filled(v) && i < |v.data| && Pos(i, v.cs) <= at
    ensures v.sizes[i] <= v.cs && v.sizes[i] == Share(|v.contents|, Pos(i, v.cs), v.cs)
    ensures |v.contents| <= Pos(|v.data|, v.cs)
  {
    assert ChunkOk(v, i);
  }

  /** Counting bytes already in the buffer of the last used chunk as part of the file. */
  lemma GrowKeepsFilled(v: View, e: nat, z: nat)
    requires Filled(v) && e < |v.data| && Pos(e, v.cs) + v.sizes[e] == |v.contents| && v.sizes[e] <= z <= v.cs
    ensures |v.data[e]| == v.cs
    ensures Filled(v.(sizes := v.sizes[e := z], contents := v.contents + v.data[e][v.sizes[e]..z]))
  {
    hide Pos, Splice;
    assert ChunkOk(v, e);
    var b := v.data[e][v.sizes[e]..z];
    var w := v.(sizes := v.sizes[e := z], contents := v.contents + b);
    if z > v.sizes[e] {
      StoreKeepsFilled(v, e, v.sizes[e], b);
      SpliceAtEnd(v.contents, b);
      SpliceSelf(v.data[e], v.sizes[e], z);
      assert v.data[e := v.data[e]] == v.data;
      assert w == Stored(v, e, v.sizes[e], b);
    } else {
      assert v.contents + b == v.contents;
      assert v.sizes[e := z] == v.sizes;
    }
  }

  /** The chunk in which the file ends, or would go on, holds exactly the bytes up to the end. */
  lemma ChunkAtEnd(v: View, i: nat)
    requires Filled(v) && i < |v.data| && Pos(i, v.cs) <= |v.contents| <= Pos(i, v.cs) + v.cs
    ensures Pos(i, v.cs) + v.sizes[i] == |v.contents|
  {
    assert ChunkOk(v, i);
  }

  /** Bytes read from one chunk are the file's. */
  lemma ChunkBytes(v: View, i: nat, o: nat, k: nat)
    requires Filled(v) && i < |v.data| && o + k <= v.sizes[i]
    ensures Pos(i, v.cs) + o + k <= |v.contents| || k == 0
    ensures k > 0 ==> |v.data[i]| == v.cs && v.sizes[i] <= v.cs
                      && v.data[i][o..o + k] == v.contents[Pos(i, v.cs) + o..Pos(i, v.cs) + o + k]
  {
    hide Pos, Splice;
    assert ChunkOk(v, i);
    if k > 0 {
      assert v.data[i][0..0 + v.sizes[i]] == v.contents[Pos(i, v.cs)..Pos(i, v.cs) + v.sizes[i]];
      SubRange(v.data[i], 0, v.contents, Pos(i, v.cs), v.sizes[i], o, k);
    }
  }

  /** When only the last chunk may be short, the file's size is read off it. */
  lemma SizeFromLast(v: View)
    requires Filled(v) && |v.data| > 0 && Pos(|v.data| - 1, v.cs) <= |v.contents|
    ensures |v.contents| == Pos(|v.data| - 1, v.cs) + v.sizes[|v.data| - 1]
    ensures forall i | 0 <= i < |v.data| - 1 :: v.sizes[i] == v.cs
  {
    hide Pos, Splice;
    var n := |v.data|;
    PosNext(n - 1, v.cs);
    assert ChunkOk(v, n - 1);
    forall i | 0 <= i < n - 1
      ensures v.sizes[i] == v.cs
    {
      assert ChunkOk(v, i);
      PosMono(i, n - 1, v.cs);
    }
  }

  lemma ChunkLengths(v: View)
    requires Filled(v)
    ensures forall i | 0 <= i < |v.data| :: |v.data[i]| == v.cs && v.sizes[i] <= v.cs
  {
    hide Pos;
    forall i | 0 <= i < |v.data|
      ensures |v.data[i]| == v.cs && v.sizes[i] <= v.cs
    {
      assert ChunkOk(v, i);
    }
  }

  /** New empty chunks change nothing. */
  lemma ExtendKeepsFilled(v: View, data: seq<seq<byte>>)
    requires Filled(v) && forall i | 0 <= i < |data| :: |data[i]| == v.cs
    ensures Filled(v.(data := v.data + data, sizes := v.sizes + seq(|data|, _ => 0)))
  {
    hide Pos, Splice;
    var w := v.(data := v.data + data, sizes := v.sizes + seq(|data|, _ => 0));
    PosMono(|v.data|, |w.data|, v.cs);
    forall i | 0 <= i < |w.data|
      ensures ChunkOk(w, i)
    {
      if i < |v.data| {
        assert ChunkOk(v, i);
      } else {
        PosMono(|v.data|, i, v.cs);
      }
    }
  }
}

module MemoryFile {
  import opened Wrappers
  import opened Bytes
  import opened Grid
  import opened MxfFile
  import opened MemoryModel

  const DEFAULT_CHUNK_SIZE: nat := 4096

  /** A chunk: its buffer, whose length is the allocated size, and the bytes used. */
  datatype Chunk = Chunk(data: array<byte>, size: nat)

  /** The buffers of a list of chunks. */
  ghost function Buffers(chunks: seq<Chunk>): (r: seq<seq<byte>>)
    reads set i | 0 <= i < |chunks| :: chunks[i].data
    ensures |r| == |chunks| && forall i | 0 <= i < |chunks| :: r[i] == chunks[i].data[..]
  {
    if chunks == [] then [] else Buffers(chunks[..|chunks| - 1]) + [chunks[|chunks| - 1].data[..]]
  }

  /** The used sizes of a list of chunks. */
  function Sizes(chunks: seq<Chunk>): (r: seq<nat>)
    ensures |r| == |chunks| && forall i | 0 <= i < |chunks| :: r[i] == chunks[i].size
  {
    seq(|chunks|, i requires 0 <= i < |chunks| => chunks[i].size)
  }

  class MemoryFile {
    const chunkSize: nat
    const virtualStartPos: int
    var chunks: seq<Chunk>
    var position: nat
    var eof: bool

    /** The bytes of the file. */
    ghost var contents: seq<byte>

    ghost function Arrays(): set<object>
      reads `chunks
    {
      set i | 0 <= i < |chunks| :: chunks[i].data
    }

    ghost function State(): View
      reads `chunks, `contents, Arrays()
    {
      View.View(chunkSize, Buffers(chunks), Sizes(chunks), contents)
    }

    /** Chunks have buffers of their own and hold their shares of the file. */
    ghost predicate Holding()
      reads `chunks, `contents, Arrays()
    {
      && chunkSize > 0
      && (forall i, j | 0 <= i < j < |chunks| :: chunks[i].data != chunks[j].data)
      && Filled(State())
    }

    /** Between calls there are no more chunks than the file needs. */
    ghost predicate Valid()
      reads `chunks, `contents, Arrays()
    {
      Holding() && if |chunks| == 0 then contents == [] else Pos(|chunks| - 1, chunkSize) <= |contents|
    }

    constructor (size: nat, startPos: int)
      ensures Valid() && contents == [] && position == 0 && !eof && chunks == []
      ensures chunkSize == (if size == 0 then DEFAULT_CHUNK_SIZE else size) && virtualStartPos == startPos
    {
      chunkSize := if size == 0 then DEFAULT_CHUNK_SIZE else size;
      virtualStartPos := startPos;
      chunks, position, eof, contents := [], 0, false, [];
    }

    /** `chunkSize * index`. */
    function ChunkOffset(index: nat): (offset: nat)
      ensures offset == Pos(index, chunkSize)
    {
      PosIsProduct(index, chunkSize);
      chunkSize * index
    }

    lemma ChunkLength(i: nat)
      requires Holding() && i < |chunks|
      ensures chunks[i].data.Length == chunkSize && chunks[i].size <= chunkSize
    {
      hide Buffers, Sizes, Pos;
      ChunkLengths(State());
      assert |State().data[i]| == chunkSize;
    }

    lemma Capacity()
      requires Holding()
      ensures |contents| <= Pos(|chunks|, chunkSize)
    {
      hide Buffers, Sizes, Pos, ChunkOk;
    }

    /** Arrays stay the same when the buffers do. */
    twostate lemma SameArrays()
      requires |chunks| == |old(chunks)| && forall i | 0 <= i < |chunks| :: chunks[i].data == old(chunks)[i].data
      ensures Arrays() == old(Arrays())
    {
      assert forall i | 0 <= i < |chunks| :: chunks[i].data in old(Arrays());
      assert forall i | 0 <= i < |chunks| :: old(chunks)[i].data in Arrays();
    }

    /** The chunk in which the file ends, or would go on, holds exactly the bytes up to the end. */
    lemma EndsIn(i: nat)
      requires Holding() && i < |chunks|
      requires Pos(i, chunkSize) <= |contents| <= Pos(i, chunkSize) + chunkSize
      ensures Pos(i, chunkSize) + chunks[i].size == |contents|
    {
      hide Buffers, Sizes, Pos;
      ChunkAtEnd(State(), i);
      assert State().sizes[i] == chunks[i].size;
    }

    method GetSize() returns (size: nat)
      requires Valid()
      ensures size == |contents|
    {
      hide Buffers, Sizes, Pos, Filled;
      if |chunks| == 0 {
        return 0;
      }
      SizeFromLast(State());
      size := ChunkOffset(|chunks| - 1) + chunks[|chunks| - 1].size;
    }

    /** The chunk holding offset `at` and the place in it; the end of a full last chunk counts as inside it. */
    method GetChunkPos(at: nat) returns (r: Option<(nat, nat)>)
      requires Holding()
      ensures Holding() && (old(Valid()) ==> Valid())
      ensures at <= |contents| && |chunks| > 0 ==> r.Some?
      ensures Valid() && r.Some? ==> at <= |contents|
      ensures r.Some? ==>
                var i, o := r.value.0, r.value.1;
                && i < |chunks| && o <= chunks[i].size && at == Pos(i, chunkSize) + o
                && (o < chunkSize || (o == chunkSize && i == |chunks| - 1))
    {
      hide Buffers, Sizes, Pos, Filled, PageOf, ChunkOffset, Holding;
      HoldingMeans();
      if |chunks| == 0 {
        return None;
      }
      var chunkIndex, chunkPos;
      if |chunks| == 1 {
        PosZero(chunkSize);
        chunkIndex, chunkPos := 0, at;
      } else {
        Locate(at, chunkSize);
        chunkIndex := PageOf(at, chunkSize);
        PosMono(|chunks|, chunkIndex, chunkSize);
        PosZero(chunkSize);
        ChunkShare(State(), 0, at);
        if chunkIndex > |chunks| {
          return None;
        }
        if chunkIndex == |chunks| {
          chunkIndex := chunkIndex - 1;
        }
        chunkPos := at - ChunkOffset(chunkIndex);
      }
      PosNext(chunkIndex, chunkSize);
      ChunkShare(State(), chunkIndex, at);
      PosMono(chunkIndex, |chunks| - 1, chunkSize);
      if chunkPos > chunks[chunkIndex].size {
        return None;
      }
      return Some((chunkIndex, chunkPos));
    }

    lemma HoldingMeans()
      requires Holding()
      ensures chunkSize > 0 && Filled(State())
    {
      hide Buffers, Sizes, Pos, Filled;
    }

    /** Adds empty chunks until `minSize` more bytes fit; no chunk is added that those bytes do not need. */
    method Extend(minSize: nat)
      requires Valid()
      modifies this`chunks
      ensures Holding() && |contents| + minSize <= Pos(|chunks|, chunkSize)
      ensures |chunks| >= |old(chunks)| && chunks[..|old(chunks)|] == old(chunks)
      ensures |chunks| == 0 || Pos(|chunks| - 1, chunkSize) < Max(|contents| + minSize, |contents| + 1)
      ensures forall i | |old(chunks)| <= i < |chunks| :: fresh(chunks[i].data)
    {
      hide Buffers, Sizes, Pos, Filled, PagesFor;
      var chunkRemainder: int := 0;
      PosZero(chunkSize);
      if |chunks| != 0 {
        SizeFromLast(State());
        PosNext(|chunks| - 1, chunkSize);
        chunkRemainder := chunks[|chunks| - 1].data.Length - chunks[|chunks| - 1].size;
        ChunkLength(|chunks| - 1);
      }
      if minSize <= chunkRemainder {
        return;
      }
      var numExtendChunks := PagesFor(minSize - chunkRemainder, chunkSize);
      PagesForBounds(minSize - chunkRemainder, chunkSize);
      ghost var n := |chunks|;
      PosSum(n, numExtendChunks, chunkSize);
      PosSum(n, numExtendChunks - 1, chunkSize);
      var i := 0;
      while i < numExtendChunks
        invariant 0 <= i <= numExtendChunks && |chunks| == n + i && Holding()
        invariant chunks[..n] == old(chunks)
        invariant forall j | n <= j < |chunks| :: fresh(chunks[j].data)
        modifies this`chunks
      {
        ghost var v := State();
        var data := new byte[chunkSize];
        ghost var was := chunks;
        chunks := chunks + [Chunk(data, 0)];
        ExtendKeepsFilled(v, [data[..]]);
        assert State() == v.(data := v.data + [data[..]], sizes := v.sizes + seq(1, _ => 0));
        i := i + 1;
      }
    }

    /** Whether a write at `at` past the end keeps the file whole: the gap must not end inside, or at the end of,
        a chunk that is already partly filled. */
    predicate GapSafe(at: nat, size: nat)
      requires chunkSize > 0
    {
      at <= size || size == Pos(PageOf(size, chunkSize), chunkSize) || at > Pos(PageOf(size, chunkSize) + 1, chunkSize)
    }

    /** Sets a chunk's size; when the size grows inside the buffer of the chunk the file ends in, the bytes found
        there join the file. */
    method SetChunkSize(chunkIndex: nat, z: nat, ghost grows: bool) returns (ghost b: seq<byte>)
      requires Holding() && chunkIndex < |chunks|
      requires grows ==> chunks[chunkIndex].size <= z <= chunkSize
                         && Pos(chunkIndex, chunkSize) + chunks[chunkIndex].size == |contents|
      modifies `chunks, `contents
      ensures grows ==> Holding() && contents == old(contents) + b && |b| == z - old(chunks)[chunkIndex].size
      ensures chunks == old(chunks)[chunkIndex := old(chunks)[chunkIndex].(size := z)]
    {
      hide Buffers, Sizes, Pos, Filled;
      ghost var v, used := State(), chunks[chunkIndex].size;
      chunks := chunks[chunkIndex := chunks[chunkIndex].(size := z)];
      if grows {
        GrowKeepsFilled(v, chunkIndex, z);
        b := v.data[chunkIndex][used..z];
        contents := contents + b;
        assert State() == v.(sizes := v.sizes[chunkIndex := z], contents := contents);
      } else {
        b := [];
      }
    }

    /** Fills the gap up to `at` with whatever the buffers hold.  The file is extended up to `at` exactly when
        the gap is safe; otherwise the partly filled chunk is given the gap's length as its size. */
    method FillGap(size: nat, at: nat) returns (ghost gap: seq<byte>)
      requires Holding() && size == |contents| < at <= Pos(|chunks|, chunkSize)
      modifies `chunks, `contents
      ensures |chunks| == |old(chunks)| && forall i | 0 <= i < |chunks| :: chunks[i].data == old(chunks)[i].data
      ensures GapSafe(at, size) ==> Holding() && contents == old(contents) + gap && |contents| == at
      ensures !GapSafe(at, size) ==>
                var e := PageOf(size, chunkSize);
                e < |chunks| && chunks[e].size == at - size && chunks[e].size < at - Pos(e, chunkSize)
    {
      hide Buffers, Sizes, Pos, Filled, PageOf, ChunkOffset, Share, Holding, State;
      var fileSize: nat := size;
      PosZero(chunkSize);
      PosMono(0, |chunks|, chunkSize);
      var endPos := GetChunkPos(fileSize);
      var chunkIndex, chunkPos := endPos.value.0, endPos.value.1;
      PosNext(|chunks| - 1, chunkSize);
      LocateUnique(fileSize, chunkIndex, chunkSize);
      EndsIn(chunkIndex);
      assert chunkPos == chunks[chunkIndex].size;
      gap := [];
      assert contents + gap == contents;
      ghost var e0 := chunkIndex;
      PosNext(e0, chunkSize);
      while true
        invariant Holding() && contents == old(contents) + gap && |contents| == fileSize < at
        invariant |chunks| == |old(chunks)| && forall i | 0 <= i < |chunks| :: chunks[i].data == old(chunks)[i].data
        invariant e0 <= chunkIndex < |chunks| && Pos(chunkIndex, chunkSize) + chunks[chunkIndex].size == fileSize
        invariant if chunkIndex == e0 then fileSize == size else chunks[chunkIndex].size == 0
        decreases |chunks| - chunkIndex
      {
        ghost var used, b := chunks[chunkIndex].size, [];
        ChunkLength(chunkIndex);
        PosMono(e0 + 1, chunkIndex, chunkSize);
        var chunkRemainder := chunks[chunkIndex].data.Length - chunks[chunkIndex].size;
        if fileSize + chunkRemainder >= at {
          b := SetChunkSize(chunkIndex, at - fileSize, used == 0);
          gap := gap + b;
          break;
        }
        b := SetChunkSize(chunkIndex, chunks[chunkIndex].data.Length, true);
        gap := gap + b;
        fileSize := fileSize + chunkRemainder;
        PosNext(chunkIndex, chunkSize);
        PosMono(|chunks|, chunkIndex + 1, chunkSize);
        chunkIndex := chunkIndex + 1;
        EndsIn(chunkIndex);
      }
    }

    /** Copies bytes into one chunk and moves on. */
    method StoreInChunk(chunkIndex: nat, o: nat, bytes: seq<byte>)
      requires Holding() && chunkIndex < |chunks| && bytes != [] && o + |bytes| <= chunkSize
      requires position == Pos(chunkIndex, chunkSize) + o <= |contents|
      modifies `chunks, `contents, `position, Arrays()
      ensures Holding() && contents == Splice(old(contents), old(position), bytes)
      ensures position == old(position) + |bytes| && Arrays() == old(Arrays()) && |chunks| == |old(chunks)|
    {
      hide Buffers, Sizes, Pos, Splice, Filled;
      ghost var v := State();
      StoreKeepsFilled(v, chunkIndex, o, bytes);
      ChunkLength(chunkIndex);
      var c := chunks[chunkIndex];
      CopyInto(c.data, o, bytes);
      var end := o + |bytes|;
      chunks := chunks[chunkIndex := c.(size := if end > c.size then end else c.size)];
      contents := Splice(contents, position, bytes);
      position := position + |bytes|;
      assert State() == Stored(v, chunkIndex, o, bytes);
      SameArrays();
    }

    /** The copying loop of a write into chunks that have room for it. */
    method WriteChunks(data: seq<byte>)
      requires Holding() && data != [] && position <= |contents| && position + |data| <= Pos(|chunks|, chunkSize)
      modifies `chunks, `contents, `position, Arrays()
      ensures Holding() && contents == Splice(old(contents), old(position), data)
      ensures position == old(position) + |data| && Arrays() == old(Arrays()) && |chunks| == |old(chunks)|
    {
      hide Buffers, Sizes, Pos, Splice, Filled, PageOf, Share, State, Written, Holding;
      ghost var p0, c0, n := position, contents, |chunks|;
      PosZero(chunkSize);
      var chunkPos := GetChunkPos(position);
      var posChunkIndex: nat, posChunkPos: nat := chunkPos.value.0, chunkPos.value.1;
      PosNext(n - 1, chunkSize);
      WrittenNone(c0, p0, data);
      var totalWrite := 0;
      while totalWrite < |data|
        invariant Holding() && Arrays() == old(Arrays()) && |chunks| == n
        invariant 0 <= totalWrite <= |data| && position == p0 + totalWrite <= |contents|
        invariant Written(c0, p0, data, totalWrite, contents)
        invariant position == Pos(posChunkIndex, chunkSize) + posChunkPos
        invariant totalWrite < |data| ==> posChunkIndex < n && posChunkPos < chunkSize
      {
        ChunkLength(posChunkIndex);
        var numWrite := chunks[posChunkIndex].data.Length - posChunkPos;
        if numWrite > 0 {
          if numWrite > |data| - totalWrite {
            numWrite := |data| - totalWrite;
          }
          ghost var was := contents;
          StoreInChunk(posChunkIndex, posChunkPos, data[totalWrite..totalWrite + numWrite]);
          WrittenMore(c0, p0, data, totalWrite, numWrite, was, contents);
          totalWrite := totalWrite + numWrite;
          posChunkPos := posChunkPos + numWrite;
        }
        ChunkLength(posChunkIndex);
        if posChunkPos >= chunks[posChunkIndex].data.Length {
          PosNext(posChunkIndex, chunkSize);
          posChunkIndex := posChunkIndex + 1;
          posChunkPos := 0;
          PosMono(n, posChunkIndex, chunkSize);
        }
      }
      WrittenAll(c0, p0, data, contents);
    }

    /** Writes `data` at the position.  `gap` is what the file holds between its old end and the position. */
    method Write(data: seq<byte>) returns (written: nat, ghost gap: seq<byte>)
      requires Valid() && (data == [] || GapSafe(position, |contents|))
      modifies `chunks, `contents, `position, Arrays()
      ensures Valid()
      ensures written == if old(position) + |data| - |old(contents)| > UINT32_MAX then 0 else |data|
      ensures |gap| == if written == 0 then 0 else Max(0, old(position) - |old(contents)|)
      ensures contents == if written == 0 then old(contents) else Splice(old(contents) + gap, old(position), data)
      ensures position == old(position) + written
      ensures Arrays() >= old(Arrays()) && fresh(Arrays() - old(Arrays()))
    {
      hide Buffers, Sizes, Pos, Splice, Filled, PageOf, Share, State, Written, GapSafe;
      gap := [];
      assert contents + gap == contents;
      if data == [] {
        return 0, [];
      }
      var fileSize := GetSize();
      if position + |data| > fileSize {
        if position + |data| - fileSize > UINT32_MAX {
          return 0, [];
        }
        Extend(position + |data| - fileSize);
        if position > fileSize {
          gap := FillGap(fileSize, position);
        }
      } else {
        Capacity();
      }
      assert |chunks| > 0 ==> Pos(|chunks| - 1, chunkSize) < Max(|contents| + 1, position + |data|);
      WriteChunks(data);
      PosZero(chunkSize);
      written := |data|;
    }

    method MoveBy(k: nat)
      requires Valid()
      modifies `position
      ensures Valid() && position == old(position) + k
    {
      position := position + k;
    }

    method SetEof(b: bool)
      requires Valid()
      modifies `eof
      ensures Valid() && eof == b
    {
      eof := b;
    }

    /** Reads from one chunk: as many of the bytes wanted as it holds from offset o on. */
    method ReadChunk(i: nat, o: nat, wanted: nat) returns (bytes: seq<byte>)
      requires Valid() && i < |chunks| && o <= chunks[i].size && position == Pos(i, chunkSize) + o <= |contents|
      modifies `position
      ensures Valid() && |bytes| == Min(wanted, chunks[i].size - o)
      ensures position == old(position) + |bytes| <= |contents| && bytes == contents[old(position)..position]
    {
      hide Buffers, Sizes, Pos, Filled, State, Holding, Arrays;
      var numRead := chunks[i].size - o;
      bytes := [];
      if numRead > 0 && wanted > 0 {
        if numRead > wanted {
          numRead := wanted;
        }
        ChunkData(i, o, numRead);
        bytes := chunks[i].data[o..o + numRead];
        MoveBy(numRead);
      }
    }

    /** Reads up to `count` bytes at the position.  A read that starts past the end, or of an empty file, does not
        touch the end-of-file flag. */
    method Read(count: nat) returns (data: seq<byte>)
      requires Valid()
      modifies `position, `eof
      ensures Valid() && data == Extract(contents, old(position), count)
      ensures position == old(position) + |data|
      ensures eof == if count == 0 || chunks == [] || old(position) > |contents| then old(eof) else |data| < count
    {
      hide Buffers, Sizes, Pos, Filled, PageOf, Share, State, Extract, ChunkOffset, Holding, Arrays;
      data := [];
      if count == 0 {
        return;
      }
      Capacity();
      PosZero(chunkSize);
      ghost var p0 := position;
      var chunkPos := GetChunkPos(position);
      if chunkPos.None? {
        ExtractAll(contents, p0, 0, count);
        return;
      }
      var posChunkIndex: nat, posChunkPos: nat := chunkPos.value.0, chunkPos.value.1;
      ghost var was := chunks;
      while |data| < count
        invariant Valid() && chunks == was && eof == old(eof)
        invariant |data| <= count && position == p0 + |data| <= |contents|
        invariant data == Extract(contents, p0, |data|)
        invariant posChunkIndex < |chunks| && posChunkPos <= chunks[posChunkIndex].size
        invariant position == Pos(posChunkIndex, chunkSize) + posChunkPos
        decreases count - |data|, |chunks| - posChunkIndex
      {
        var bytes := ReadChunk(posChunkIndex, posChunkPos, count - |data|);
        ExtractMore(contents, p0, |data|, |bytes|);
        data := data + bytes;
        posChunkPos := posChunkPos + |bytes|;
        if posChunkPos >= chunks[posChunkIndex].size {
          NextChunk(posChunkIndex);
          posChunkIndex := posChunkIndex + 1;
          posChunkPos := 0;
          if posChunkIndex >= |chunks| {
            break;
          }
        }
      }
      ExtractAll(contents, p0, |data|, count);
      SetEof(|data| < count);
    }

    /** Bytes of a chunk are bytes of the file. */
    lemma ChunkData(i: nat, o: nat, k: nat)
      requires Holding() && i < |chunks| && k > 0 && o + k <= chunks[i].size
      ensures o + k <= chunks[i].data.Length && Pos(i, chunkSize) + o + k <= |contents|
      ensures chunks[i].data[o..o + k] == contents[Pos(i, chunkSize) + o..Pos(i, chunkSize) + o + k]
    {
      hide Buffers, Sizes, Pos, Filled;
      ghost var v := State();
      assert v.sizes[i] == chunks[i].size && v.data[i] == chunks[i].data[..];
      ChunkBytes(v, i, o, k);
      assert chunks[i].data[..][o..o + k] == chunks[i].data[o..o + k];
    }

    /** Between calls a chunk's used bytes end where the next chunk's begin, or where the file ends. */
    lemma NextChunk(i: nat)
      requires Valid() && i < |chunks|
      ensures i + 1 < |chunks| ==> Pos(i, chunkSize) + chunks[i].size == Pos(i + 1, chunkSize)
      ensures i + 1 == |chunks| ==> Pos(i, chunkSize) + chunks[i].size == |contents|
    {
      hide Buffers, Sizes, Pos, Filled;
      SizeFromLast(State());
      assert State().sizes[i] == chunks[i].size;
      PosNext(i, chunkSize);
    }

    /** Positions of the file start at `virtualStartPos` for the caller. */
    method Seek(offset: int, whence: Whence) returns (ok: bool)
      requires Valid()
      modifies `position, `eof
      ensures Valid()
      ensures var newPos := match whence
                            case SeekSet => offset - virtualStartPos
                            case SeekCur => old(position) + offset
                            case SeekEnd => |contents| + offset;
              ok == (newPos >= 0) && position == (if ok then newPos else old(position))
              && eof == (if ok then false else old(eof))
    {
      hide Buffers, Sizes, Pos, Filled;
      var size := GetSize();
      var newPos := match whence
        case SeekSet => offset - virtualStartPos
        case SeekCur => position + offset
        case SeekEnd => size + offset;
      if newPos < 0 {
        return false;
      }
      eof, position := false, newPos;
      return true;
    }

    /** Writes the whole file, chunk by chunk, to another file. */
    method FlushToFile(file: FlatFile) returns (ok: bool)
      requires Valid() && file as object !in Arrays()
      modifies file
      ensures ok
      ensures file.data == Splice(old(file.data), old(file.pos), contents)
      ensures file.pos == old(file.pos) + |contents|
    {
      hide Buffers, Sizes, Pos, Splice, Filled, Share, Written, State;
      ghost var d0, p0 := file.data, file.pos;
      WrittenNone(d0, p0, contents);
      PosZero(chunkSize);
      var i := 0;
      while i < |chunks|
        invariant 0 <= i <= |chunks| && Valid()
        invariant file.pos == p0 + (if i == |chunks| then |contents| else Pos(i, chunkSize))
        invariant Written(d0, p0, contents, file.pos - p0, file.data)
      {
        var remainder, from := chunks[i].size, 0;
        NextChunk(i);
        while remainder > 0
          invariant 0 <= from && 0 <= remainder && from + remainder == chunks[i].size && Valid()
          invariant file.pos == p0 + Pos(i, chunkSize) + from
          invariant Written(d0, p0, contents, file.pos - p0, file.data)
          decreases remainder
        {
          var writeSize := if remainder > UINT32_MAX then UINT32_MAX else remainder;
          ChunkData(i, from, writeSize);
          ghost var was, done := file.data, file.pos - p0;
          var n := file.Write(chunks[i].data[from..from + writeSize]);
          if n == 0 {
            return false;
          }
          WrittenMore(d0, p0, contents, done, writeSize, was, file.data);
          from := from + writeSize;
          remainder := remainder - writeSize;
        }
        i := i + 1;
      }
      WrittenAll(d0, p0, contents, file.data);
      return true;
    }
  }
}
