/** Runs of bytes at a place in a file, and the local items (tag, length, value) that local sets consist of. */
module LocalSet {
  import opened Wrappers
  import opened Bytes
  import opened Ber
  import opened MxfFile

  /** `b` stands at `pos`. */
  predicate At(data: seq<byte>, pos: nat, b: seq<byte>)
  {
    pos + |b| <= |data| && data[pos..pos + |b|] == b
  }

  lemma AtParts(data: seq<byte>, pos: nat, a: seq<byte>, b: seq<byte>)
    ensures At(data, pos, a + b) <==> At(data, pos, a) && At(data, pos + |a|, b)
  {
    if pos + |a| + |b| <= |data| {
      var d := data[pos..pos + |a| + |b|];
      assert d == data[pos..pos + |a|] + data[pos + |a|..pos + |a| + |b|];
      assert d == a + b ==> d[..|a|] == a && d[|a|..] == b;
    }
  }

  lemma AtEnds(data: seq<byte>, pos: nat, b: seq<byte>)
    requires At(data, pos, b)
    ensures pos + |b| <= |data|
  {
  }

  lemma SplicedAt(d: seq<byte>, p: nat, b: seq<byte>)
    requires b != []
    ensures At(Splice(d, p, b), p, b)
  {
    hide Splice;
  }

  /** What a read of exactly n bytes at `pos` yields, if there are as many. */
  function Get(data: seq<byte>, pos: nat, n: nat): Option<seq<byte>>
  {
    if n == 0 then Some([]) else if pos + n <= |data| then Some(data[pos..pos + n]) else None
  }

  lemma GetAt(data: seq<byte>, pos: nat, b: seq<byte>)
    requires At(data, pos, b)
    ensures Get(data, pos, |b|) == Some(b)
  {
  }

  /** A length field read where it stands. */
  lemma LengthAt(data: seq<byte>, pos: nat, llen: nat, len: nat)
    requires 1 <= llen <= 9 && len < Pow256(8) && LengthFits(llen, len) && At(data, pos, LengthBytes(llen, len))
    ensures ParseLength(data, pos) == Some((llen, len))
  {
    hide LengthBytes, LengthFits, ParseLength, Pow256;
    LengthRoundTrip(data[..pos], llen, len, data[pos + llen..]);
    assert data == data[..pos] + LengthBytes(llen, len) + data[pos + llen..];
  }

  method ReadBytes(file: FlatFile, n: nat) returns (r: Option<seq<byte>>)
    modifies file`pos
    ensures r == Get(file.data, old(file.pos), n)
    ensures r.Some? ==> |r.value| == n && file.pos == old(file.pos) + n
  {
    var b := file.Read(n);
    r := if |b| == n then Some(b) else None;
  }

  /** `mxf_skip` on a seekable file, where moving past the end is no error. */
  method Skip(file: FlatFile, n: nat)
    modifies file`pos
    ensures file.pos == old(file.pos) + n
  {
    var ok := file.Seek(n, SeekCur);
  }

  datatype Item = Item(tag: nat, value: seq<byte>)

  function ItemBytes(it: Item): (r: seq<byte>)
    ensures |r| == 4 + |it.value|
  {
    BigEndian(2, it.tag) + BigEndian(2, |it.value|) + it.value
  }

  function ItemsBytes(items: seq<Item>): (r: seq<byte>)
  {
    if items == [] then [] else ItemsBytes(items[..|items| - 1]) + ItemBytes(items[|items| - 1])
  }

  /** An item with this tag and this value stands at `pos`. */
  predicate ItemAt(data: seq<byte>, pos: nat, tag: nat, value: seq<byte>)
  {
    && pos + 4 + |value| <= |data|
    && FromBigEndian(data[pos..pos + 2]) == tag && FromBigEndian(data[pos + 2..pos + 4]) == |value|
    && data[pos + 4..pos + 4 + |value|] == value
  }

  lemma ItemIsAt(data: seq<byte>, pos: nat, it: Item)
    requires it.tag < 0x1_0000 && |it.value| < 0x1_0000 && At(data, pos, ItemBytes(it))
    ensures ItemAt(data, pos, it.tag, it.value)
  {
    hide BigEndian, FromBigEndian;
    var t, l := BigEndian(2, it.tag), BigEndian(2, |it.value|);
    AtParts(data, pos, t + l, it.value);
    AtParts(data, pos, t, l);
    Pow256Table();
    BigEndianRoundTrip(2, it.tag);
    BigEndianRoundTrip(2, |it.value|);
  }

  lemma NumberAt(data: seq<byte>, pos: nat, n: nat, v: nat)
    requires v < Pow256(n) && At(data, pos, BigEndian(n, v))
    ensures pos + n <= |data| && FromBigEndian(data[pos..pos + n]) == v
  {
    BigEndianRoundTrip(n, v);
  }

  lemma ItemsNext(items: seq<Item>, it: Item)
    ensures ItemsBytes(items + [it]) == ItemsBytes(items) + ItemBytes(it)
  {
    assert (items + [it])[..|items|] == items;
  }

  lemma {:induction false} ItemsJoin(a: seq<Item>, b: seq<Item>)
    ensures ItemsBytes(a + b) == ItemsBytes(a) + ItemsBytes(b)
  {
    hide ItemsBytes;
    NoItems();
    if b == [] {
      assert a + b == a;
    } else {
      var f, x := b[..|b| - 1], b[|b| - 1];
      ItemsJoin(a, f);
      ItemsNext(a + f, x);
      ItemsNext(f, x);
      assert a + b == (a + f) + [x];
      assert b == f + [x];
    }
  }

  lemma NoItems()
    ensures ItemsBytes([]) == []
  {
  }

  /** Since the file was `d` with the position at `p`, `out` has been written. */
  ghost predicate Emitted(d: seq<byte>, p: nat, out: seq<byte>, data: seq<byte>, pos: nat)
  {
    data == Splice(d, p, out) && pos == p + |out|
  }

  lemma NothingEmitted(d: seq<byte>, p: nat)
    ensures Emitted(d, p, [], d, p)
  {
  }

  lemma EmittedIs(d: seq<byte>, p: nat, out: seq<byte>, data: seq<byte>, pos: nat)
    requires Emitted(d, p, out, data, pos)
    ensures data == Splice(d, p, out) && pos == p + |out|
  {
  }

  method Emit(file: FlatFile, b: seq<byte>, ghost d: seq<byte>, ghost p: nat, ghost out: seq<byte>)
    requires Emitted(d, p, out, file.data, file.pos)
    modifies file
    ensures Emitted(d, p, out + b, file.data, file.pos)
  {
    hide Splice;
    SpliceJoin(d, p, out, b);
    var n := file.Write(b);
  }

  /** `mxf_write_fixed_kl`: a key and a length field of `llen` bytes. */
  method WriteFixedKL(file: FlatFile, key: seq<byte>, llen: nat, len: nat, ghost d: seq<byte>, ghost p: nat, ghost out: seq<byte>)
      returns (ok: bool)
    requires Emitted(d, p, out, file.data, file.pos) && 1 <= llen <= 9 && len < Pow256(8)
    modifies file
    ensures ok == LengthFits(llen, len)
    ensures ok ==> Emitted(d, p, out + key + LengthBytes(llen, len), file.data, file.pos)
  {
    hide Splice, Pow256, LengthFits, LengthBytes;
    Emit(file, key, d, p, out);
    ok := WriteFixedL(file, llen, len);
    if ok {
      SpliceJoin(d, p, out + key, LengthBytes(llen, len));
    }
  }

  /** `mxf_write_kl`: a key and the shortest length field the file allows. */
  method WriteKL(file: FlatFile, key: seq<byte>, minLLen: nat, len: nat, ghost d: seq<byte>, ghost p: nat, ghost out: seq<byte>)
    requires Emitted(d, p, out, file.data, file.pos) && minLLen <= 9 && len < Pow256(8)
    modifies file
    ensures 1 <= GetLLen(minLLen, len) <= 9 && LengthFits(GetLLen(minLLen, len), len)
    ensures Emitted(d, p, out + key + LengthBytes(GetLLen(minLLen, len), len), file.data, file.pos)
  {
    hide Emitted, Pow256, LengthFits, LengthBytes, GetLLen;
    GetLLenIsLeast(minLLen, len);
    var ok := WriteFixedKL(file, key, GetLLen(minLLen, len), len, d, p, out);
  }

  /** Writes a local item: tag, 16-bit length, value. */
  method WriteItem(file: FlatFile, it: Item, ghost d: seq<byte>, ghost p: nat, ghost head: seq<byte>, ghost items: seq<Item>)
    requires Emitted(d, p, head + ItemsBytes(items), file.data, file.pos)
    modifies file
    ensures Emitted(d, p, head + ItemsBytes(items + [it]), file.data, file.pos)
  {
    hide Emitted, BigEndian, ItemsBytes;
    ghost var out := head + ItemsBytes(items);
    var tag, length := BigEndian(2, it.tag), BigEndian(2, |it.value|);
    Emit(file, tag, d, p, out);
    Emit(file, length, d, p, out + tag);
    Emit(file, it.value, d, p, out + tag + length);
    ItemsNext(items, it);
    assert out + tag + length + it.value == head + (ItemsBytes(items) + ItemBytes(it));
  }
}
