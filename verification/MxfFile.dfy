/** The flat file under the `MXFFile` interface, and the fixed-width and BER integers of the KLV layer. */
module Wrappers {
  datatype Option<+T> = None | Some(value: T)

  /** Places in a sequence of length n, from front to back. */
  predicate Places(idx: seq<nat>, n: nat)
  {
    && (forall i | 0 <= i < |idx| :: idx[i] < n)
    && forall i, j | 0 <= i < j < |idx| :: idx[i] < idx[j]
  }

  /** r has the elements of `all` at those places. */
  predicate Picks<T(==)>(all: seq<T>, idx: seq<nat>, r: seq<T>)
  {
    Places(idx, |all|) && |r| == |idx| && forall j | 0 <= j < |idx| :: r[j] == all[idx[j]]
  }

  lemma NothingPicked<T>(all: seq<T>)
    ensures Picks(all, [], [])
  {
  }

  lemma NextPick<T>(all: seq<T>, n: nat, idx: seq<nat>, r: seq<T>)
    requires n < |all| && Picks(all[..n], idx, r)
    ensures Picks(all[..n + 1], idx, r) && Picks(all[..n + 1], idx + [n], r + [all[n]])
    ensures forall i | 0 <= i < n :: i in idx + [n] <==> i in idx
    ensures n !in idx && n in idx + [n]
  {
    NextPlace(idx, n);
    assert forall j | 0 <= j < |idx| :: all[..n][idx[j]] == all[..n + 1][idx[j]];
  }

  lemma NextPlace(idx: seq<nat>, n: nat)
    requires Places(idx, n)
    ensures Places(idx, n + 1) && Places(idx + [n], n + 1)
    ensures forall i | 0 <= i < n :: i in idx + [n] <==> i in idx
    ensures n !in idx && n in idx + [n]
  {
  }
}

module MxfFile {
  import opened Bytes

  datatype Whence = SeekSet | SeekCur | SeekEnd

  /** A disk file opened for update: its bytes and the stream position.  Writing past the end
      leaves a hole that reads as zeros, and seeking past the end is allowed. */
  class FlatFile {
    var data: seq<byte>
    var pos: nat

    constructor (initial: seq<byte>)
      ensures data == initial && pos == 0
    {
      data, pos := initial, 0;
    }

    method Read(count: nat) returns (r: seq<byte>)
      modifies `pos
      ensures r == Extract(data, old(pos), count)
      ensures pos == old(pos) + |r|
    {
      r := Extract(data, pos, count);
      pos := pos + |r|;
    }

    method Write(b: seq<byte>) returns (written: nat)
      modifies this
      ensures written == |b|
      ensures data == Splice(old(data), old(pos), b)
      ensures pos == old(pos) + |b|
    {
      data := Splice(data, pos, b);
      pos := pos + |b|;
      written := |b|;
    }

    method GetChar() returns (c: int)
      modifies `pos
      ensures old(pos) < |data| ==> c == data[old(pos)] && pos == old(pos) + 1
      ensures old(pos) >= |data| ==> c == -1 && pos == old(pos)
    {
      var r := Read(1);
      c := if |r| == 1 then r[0] else -1;
    }

    method Seek(offset: int, whence: Whence) returns (ok: bool)
      modifies `pos
      ensures var newPos := match whence
                            case SeekSet => offset
                            case SeekCur => old(pos) + offset
                            case SeekEnd => |data| + offset;
              ok == (newPos >= 0) && pos == if ok then newPos else old(pos)
    {
      var newPos := match whence
        case SeekSet => offset
        case SeekCur => pos + offset
        case SeekEnd => |data| + offset;
      ok := newPos >= 0;
      if ok {
        pos := newPos;
      }
    }
  }
}

/** Big-endian integers and BER lengths (section 8.1.3 of ITU-T X.690) as the KLV layer writes them. */
module Ber {
  import opened Wrappers
  import opened Bytes
  import opened MxfFile

  function Pow256(n: nat): (r: nat)
    ensures r > 0
  {
    if n == 0 then 1 else 0x100 * Pow256(n - 1)
  }

  /** The n low-order bytes of v, most significant first. */
  function BigEndian(n: nat, v: nat): (r: seq<byte>)
    ensures |r| == n
  {
    if n == 0 then [] else BigEndian(n - 1, v / 0x100) + [v % 0x100]
  }

  function FromBigEndian(s: seq<byte>): nat
  {
    if s == [] then 0 else FromBigEndian(s[..|s| - 1]) * 0x100 + s[|s| - 1]
  }

  lemma {:induction false} BigEndianRoundTrip(n: nat, v: nat)
    requires v < Pow256(n)
    ensures FromBigEndian(BigEndian(n, v)) == v
  {
    if n != 0 {
      BigEndianRoundTrip(n - 1, v / 0x100);
      assert BigEndian(n, v)[..n - 1] == BigEndian(n - 1, v / 0x100);
    }
  }

  /** The first byte counts most. */
  lemma {:induction false} MostSignificantFirst(s: seq<byte>)
    requires s != []
    ensures FromBigEndian(s) == s[0] * Pow256(|s| - 1) + FromBigEndian(s[1..])
    decreases |s|
  {
    if |s| == 1 {
      assert s[..0] == [] && s[1..] == [];
    } else {
      var f, n := s[..|s| - 1], |s| - 1;
      MostSignificantFirst(f);
      assert s[1..][..n - 1] == f[1..];
      Scaled(s[0], Pow256(n - 1));
    }
  }

  lemma Scaled(a: nat, p: nat)
    ensures a * p * 0x100 == a * (0x100 * p)
  {
  }

  lemma {:induction false} BigEndianShift(n: nat, v: nat)
    ensures n > 0 ==> BigEndian(n, v) == [LowByte(v, n - 1)] + BigEndian(n - 1, v)
  {
    if n > 1 {
      BigEndianShift(n - 1, v / 0x100);
      assert BigEndian(n, v) == BigEndian(n - 1, v / 0x100) + [v % 0x100];
      assert BigEndian(n - 1, v) == BigEndian(n - 2, v / 0x100) + [v % 0x100];
    }
  }

  /** Whether a length field of `llen` bytes can hold `len`. */
  predicate LengthFits(llen: nat, len: nat)
  {
    if llen == 1 then len < 0x80 else llen == 9 || (1 < llen < 9 && len < Pow256(llen - 1))
  }

  /** The bytes of a length field. */
  function LengthBytes(llen: nat, len: nat): (r: seq<byte>)
    requires 1 <= llen <= 9 && LengthFits(llen, len)
    ensures |r| == llen
  {
    if llen == 1 then [len] else [0x80 + llen - 1] + BigEndian(llen - 1, len)
  }

  /** Decodes a length field at `pos`: its own size and the length it holds. */
  function ParseLength(data: seq<byte>, pos: nat): Option<(nat, nat)>
  {
    if pos >= |data| then None
    else if data[pos] < 0x80 then Some((1, data[pos]))
    else
      var n := data[pos] - 0x80;
      if n > 8 || pos + 1 + n > |data| then None
      else Some((1 + n, FromBigEndian(data[pos + 1..pos + 1 + n])))
  }

  /** What was written as a length field is read back with its own size, wherever it stands. */
  lemma LengthRoundTrip(pre: seq<byte>, llen: nat, len: nat, rest: seq<byte>)
    requires 1 <= llen <= 9 && len < Pow256(8) && LengthFits(llen, len)
    ensures ParseLength(pre + LengthBytes(llen, len) + rest, |pre|) == Some((llen, len))
  {
    var data := pre + LengthBytes(llen, len) + rest;
    assert data[|pre|] == LengthBytes(llen, len)[0];
    if llen > 1 {
      assert data[|pre| + 1..|pre| + llen] == BigEndian(llen - 1, len);
      BigEndianRoundTrip(llen - 1, len);
    }
  }

  /** The library's choice of length-field size, `minLLen` being the file's minimum (0 when unset). */
  function GetLLen(minLLen: nat, len: nat): nat
  {
    var llen :=
      if len < 0x80 then 1
      else if len >= 0x100_0000_0000_0000 then 9
      else if len >= 0x1_0000_0000_0000 then 8
      else if len >= 0x100_0000_0000 then 7
      else if len >= 0x1_0000_0000 then 6
      else if len >= 0x100_0000 then 5
      else if len >= 0x1_0000 then 4
      else if len >= 0x100 then 3
      else 2;
    if llen < minLLen then minLLen else llen
  }

  lemma Pow256Table()
    ensures Pow256(1) == 0x100 && Pow256(2) == 0x1_0000 && Pow256(3) == 0x100_0000
    ensures Pow256(4) == 0x1_0000_0000 && Pow256(5) == 0x100_0000_0000
    ensures Pow256(6) == 0x1_0000_0000_0000 && Pow256(7) == 0x100_0000_0000_0000
    ensures Pow256(8) == 0x1_0000_0000_0000_0000
  {
    assert Pow256(2) == 0x100 * Pow256(1);
    assert Pow256(4) == 0x100 * Pow256(3);
    assert Pow256(6) == 0x100 * Pow256(5);
    assert Pow256(8) == 0x100 * Pow256(7);
  }

  /** The chosen size is the least one, not below the file's minimum, that can hold the length. */
  lemma GetLLenIsLeast(minLLen: nat, len: nat)
    requires minLLen <= 9 && len < Pow256(8)
    ensures var llen := GetLLen(minLLen, len);
            && Max(1, minLLen) <= llen <= 9
            && LengthFits(llen, len)
            && forall l :: Max(1, minLLen) <= l < llen ==> !LengthFits(l, len)
  {
    Pow256Table();
    var llen := GetLLen(minLLen, len);
    forall l | Max(1, minLLen) <= l < llen
      ensures !LengthFits(l, len)
    {
      assert l == 1 || l == 2 || l == 3 || l == 4 || l == 5 || l == 6 || l == 7 || l == 8;
    }
  }

  /** `len >> (8 * n)`. */
  function Shifted(len: nat, n: nat): nat
  {
    if n == 0 then len else Shifted(len / 0x100, n - 1)
  }

  /** `(len >> (8 * n)) & 0xff`. */
  function LowByte(len: nat, n: nat): byte
  {
    Shifted(len, n) % 0x100
  }

  lemma {:induction false} ShiftedPositive(len: nat, n: nat)
    ensures Shifted(len, n) > 0 <==> len >= Pow256(n)
  {
    if n != 0 {
      ShiftedPositive(len / 0x100, n - 1);
    }
  }

  /** The n low-order bytes of a length, put in a buffer from its end. */
  method LengthBuffer(n: nat, len: nat) returns (r: seq<byte>)
    requires n <= 8
    ensures r == BigEndian(n, len)
  {
    hide LowByte;
    var buffer := new byte[9];
    var i := 0;
    while i < n
      invariant 0 <= i <= n
      invariant buffer[n - i..n] == BigEndian(i, len)
    {
      BigEndianShift(i + 1, len);
      var low := LowByte(len, i);
      buffer[n - i - 1] := low;
      i := i + 1;
      assert buffer[n - i..n] == [low] + buffer[n - i + 1..n];
    }
    r := buffer[..n];
  }

  method WriteFixedL(file: FlatFile, llen: nat, len: nat) returns (ok: bool)
    requires 1 <= llen <= 9 && len < Pow256(8)
    modifies file
    ensures ok == LengthFits(llen, len)
    ensures ok ==> file.data == Splice(old(file.data), old(file.pos), LengthBytes(llen, len))
                   && file.pos == old(file.pos) + llen
    ensures !ok ==> file.data == old(file.data) && file.pos == old(file.pos)
    ensures ok <==> (llen == 1 && len < 0x80) || (llen > 1 && (llen == 9 || len < Pow256(llen - 1)))
    ensures ok && llen == 1 ==> LengthBytes(llen, len) == [len]
    ensures ok && llen > 1 ==> LengthBytes(llen, len) == [0x80 + llen - 1] + BigEndian(llen - 1, len)
  {
    hide Splice, Shifted, BigEndian, Pow256;
    var n;
    if llen == 1 {
      if len >= 0x80 {
        return false;
      }
      n := file.Write([len]);
      return true;
    }
    ShiftedPositive(len, llen - 1);
    if llen != 9 && Shifted(len, llen - 1) > 0 {
      return false;
    }
    var buffer := LengthBuffer(llen - 1, len);
    n := file.Write([0x80 + llen - 1]);
    n := file.Write(buffer);
    SpliceJoin(old(file.data), old(file.pos), [0x80 + llen - 1], buffer);
    return true;
  }

  method ReadL(file: FlatFile) returns (r: Option<(nat, nat)>)
    modifies file`pos
    ensures r == ParseLength(file.data, old(file.pos))
    ensures r.Some? ==> file.pos == old(file.pos) + r.value.0
    // a byte below 0x80 is the length, another one counts the bytes of the length, eight at most
    ensures old(file.pos) < |file.data| ==>
              var d, p := file.data, old(file.pos);
              r == if d[p] < 0x80 then Some((1, d[p]))
                   else if d[p] > 0x88 || p + 1 + (d[p] - 0x80) > |d| then None
                   else Some((1 + (d[p] - 0x80), FromBigEndian(d[p + 1..p + 1 + (d[p] - 0x80)])))
    ensures old(file.pos) >= |file.data| ==> r == None
  {
    var c := file.GetChar();
    if c == -1 {
      return None;
    }
    if c < 0x80 {
      return Some((1, c));
    }
    var bytesToRead := c - 0x80;
    if bytesToRead > 8 {
      return None;
    }
    var length, i := 0, 0;
    ghost var start := file.pos;
    while i < bytesToRead
      invariant 0 <= i <= bytesToRead && file.pos == start + i
      invariant start + i <= |file.data|
      invariant length == FromBigEndian(file.data[start..start + i])
    {
      c := file.GetChar();
      if c == -1 {
        return None;
      }
      assert file.data[start..start + i + 1][..i] == file.data[start..start + i];
      length := length * 0x100 + c;
      i := i + 1;
    }
    return Some((1 + bytesToRead, length));
  }
}
