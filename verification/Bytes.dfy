/** Bytes, byte runs and the flat byte file that every storage layer has to behave like. */
module Bytes {

  type byte = x: int | 0 <= x < 0x100

  const UINT16_MAX: nat := 0xFFFF
  const UINT32_MAX: nat := 0xFFFF_FFFF

  function Min(a: int, b: int): int { if a <= b then a else b }

  function Max(a: int, b: int): int { if a <= b then b else a }

  /** n zero bytes. */
  function Zeros(n: nat): (z: seq<byte>)
    ensures |z| == n
  {
    seq(n, _ => 0)
  }

  /** What a flat file holds after `b` is written at offset `at`: a gap past the old end
      reads as zeros, and bytes beyond the write survive. */
  function Splice(d: seq<byte>, at: nat, b: seq<byte>): (r: seq<byte>)
    ensures b != [] ==> |r| == Max(|d|, at + |b|)
    ensures b != [] ==> forall k :: at <= k < at + |b| ==> r[k] == b[k - at]
    ensures b != [] ==> forall k :: 0 <= k < |d| && !(at <= k < at + |b|) ==> r[k] == d[k]
    ensures b == [] ==> r == d
    ensures b != [] ==> forall k :: |d| <= k < at ==> r[k] == 0
  {
    if b == [] then d
    else seq(Max(|d|, at + |b|), k => if at <= k < at + |b| then b[k - at] else if 0 <= k < |d| then d[k] else 0)
  }

  /** Two adjoining writes are one write: the law that lets a write be cut at page boundaries. */
  lemma SpliceJoin(d: seq<byte>, at: nat, a: seq<byte>, b: seq<byte>)
    ensures Splice(Splice(d, at, a), at + |a|, b) == Splice(d, at, a + b)
  {
    hide Splice;
    assert a == [] ==> a + b == b;
    assert b == [] ==> a + b == a;
    var l := Splice(Splice(d, at, a), at + |a|, b);
    var r := Splice(d, at, a + b);
    if a != [] && b != [] {
      assert |l| == |r|;
      assert forall k | 0 <= k < |l| :: l[k] == r[k];
    }
  }

  /** The first `done` bytes of a write of `data` have been made. */
  ghost predicate Written(d: seq<byte>, at: nat, data: seq<byte>, done: int, now: seq<byte>)
  {
    0 <= done <= |data| && now == Splice(d, at, data[..done])
  }

  lemma WrittenNone(d: seq<byte>, at: nat, data: seq<byte>)
    ensures Written(d, at, data, 0, d)
  {
  }

  lemma WrittenAll(d: seq<byte>, at: nat, data: seq<byte>, now: seq<byte>)
    requires Written(d, at, data, |data|, now)
    ensures now == Splice(d, at, data)
  {
    assert data[..|data|] == data;
  }

  lemma WrittenIs(d: seq<byte>, at: nat, data: seq<byte>, done: nat, now: seq<byte>)
    requires Written(d, at, data, done, now)
    ensures now == Splice(d, at, data[..done])
  {
  }

  /** A write made piece by piece: one more piece. */
  lemma WrittenMore(d: seq<byte>, at: nat, data: seq<byte>, done: nat, more: nat, was: seq<byte>, now: seq<byte>)
    requires done + more <= |data| && more > 0 && Written(d, at, data, done, was)
    requires now == Splice(was, at + done, data[done..done + more])
    ensures Written(d, at, data, done + more, now)
    ensures |now| == Max(|was|, at + done + more)
  {
    hide Splice;
    var chunk := data[done..done + more];
    SpliceJoin(d, at, data[..done], chunk);
    assert data[..done] + chunk == data[..done + more];
  }

  /** Writing back what is there changes nothing. */
  lemma SpliceSelf(d: seq<byte>, lo: nat, hi: nat)
    requires lo <= hi <= |d|
    ensures Splice(d, lo, d[lo..hi]) == d
  {
  }

  /** Ranges a write does not touch keep their bytes. */
  lemma SpliceOutside(d: seq<byte>, at: nat, b: seq<byte>, lo: nat, hi: nat)
    requires lo <= hi <= |d| && (hi <= at || at + |b| <= lo)
    ensures |Splice(d, at, b)| >= |d| && Splice(d, at, b)[lo..hi] == d[lo..hi]
  {
  }

  lemma SpliceWithin(d: seq<byte>, at: nat, b: seq<byte>, a: nat, z: nat)
    requires a + z <= |b| && at + |b| <= |d|
    ensures |Splice(d, at, b)| == |d| && Splice(d, at, b)[at + a..at + a + z] == b[a..a + z]
  {
  }

  lemma ExtractMore(d: seq<byte>, at: nat, n: nat, k: nat)
    requires at + n + k <= |d|
    ensures Extract(d, at, n) + d[at + n..at + n + k] == Extract(d, at, n + k)
  {
  }

  lemma ExtractNext(d: seq<byte>, at: nat, a: seq<byte>, b: seq<byte>)
    requires a == Extract(d, at, |a|) && (b != [] ==> at + |a| + |b| <= |d| && b == d[at + |a|..at + |a| + |b|])
    ensures a + b == Extract(d, at, |a| + |b|)
  {
    hide Extract;
    if b != [] {
      ExtractMore(d, at, |a|, |b|);
    } else {
      assert a + b == a;
    }
  }

  lemma ExtractAll(d: seq<byte>, at: nat, n: nat, count: nat)
    requires n <= count && (n == count || at + n >= |d|)
    ensures Extract(d, at, n) == Extract(d, at, count)
  {
  }

  lemma ExtractWithin(d: seq<byte>, at: nat, count: nat, a: nat, z: nat)
    requires a + z <= |Extract(d, at, count)| && z > 0
    ensures at + a + z <= |d| && Extract(d, at, count)[a..a + z] == d[at + a..at + a + z]
    ensures |Extract(d, at, count)| < count ==> at + |Extract(d, at, count)| == |d|
  {
  }

  lemma SubRange(c: seq<byte>, a: nat, d: seq<byte>, b: nat, z: nat, o: nat, k: nat)
    requires a + z <= |c| && b + z <= |d| && c[a..a + z] == d[b..b + z] && o + k <= z
    ensures c[a + o..a + o + k] == d[b + o..b + o + k]
  {
    var x, y := c[a + o..a + o + k], d[b + o..b + o + k];
    forall i | 0 <= i < k
      ensures x[i] == y[i]
    {
      assert c[a..a + z][o + i] == d[b..b + z][o + i];
    }
  }

  lemma PartOf(data: seq<byte>, pos: nat, n: nat, a: nat, z: nat)
    requires a <= z <= n && pos + n <= |data|
    ensures data[pos..pos + n][a..z] == data[pos + a..pos + z]
    ensures z == n ==> data[pos..pos + n][a..] == data[pos + a..pos + z]
    ensures a == 0 ==> data[pos..pos + n][..z] == data[pos..pos + z]
  {
    var d := data[pos..pos + n];
    SubRange(d, 0, data, pos, n, a, z - a);
    assert d[0..n] == d;
    assert d[a..] == d[a..n] && d[..z] == d[0..z];
    assert d[0..z] == data[pos..pos + z];
  }

  /** Adjoining ranges that agree make one range that agrees. */
  lemma JoinRanges(c: seq<byte>, a: nat, d: seq<byte>, b: nat, m: nat, z: nat)
    requires a + m + z <= |c| && b + m + z <= |d|
    requires c[a..a + m] == d[b..b + m] && c[a + m..a + m + z] == d[b + m..b + m + z]
    ensures c[a..a + m + z] == d[b..b + m + z]
  {
    assert c[a..a + m + z] == c[a..a + m] + c[a + m..a + m + z];
    assert d[b..b + m + z] == d[b..b + m] + d[b + m..b + m + z];
  }

  /** A write made to two byte runs that agree keeps them in agreement. */
  lemma SpliceBoth(c: seq<byte>, a: nat, d: seq<byte>, p: nat, size: nat, o: nat, b: seq<byte>)
    requires a + size <= |c| && p + size <= |d| && c[a..a + size] == d[p..p + size]
    requires o <= size && a + o + |b| <= |c|
    ensures var z := Max(size, o + |b|);
            && a + z <= |Splice(c, a + o, b)| && p + z <= |Splice(d, p + o, b)|
            && Splice(c, a + o, b)[a..a + z] == Splice(d, p + o, b)[p..p + z]
  {
    hide Splice;
    var z, c', d' := Max(size, o + |b|), Splice(c, a + o, b), Splice(d, p + o, b);
    var s, t := c'[a..a + z], d'[p..p + z];
    forall k | 0 <= k < z
      ensures s[k] == t[k]
    {
      if k < size {
        assert c[a..a + size][k] == d[p..p + size][k];
      }
    }
    assert s == t;
  }

  /** A write at the end of a file is an append. */
  lemma SpliceAtEnd(d: seq<byte>, b: seq<byte>)
    ensures Splice(d, |d|, b) == d + b
  {
    if b == [] {
      assert d + b == d;
    }
  }

  /** The bytes a flat file yields for a read of `count` bytes at `at`. */
  function Extract(d: seq<byte>, at: nat, count: nat): (r: seq<byte>)
    ensures |r| == if at >= |d| then 0 else Min(count, |d| - at)
    ensures forall k :: 0 <= k < |r| ==> r[k] == d[at + k]
  {
    if at >= |d| then [] else d[at..Min(at + count, |d|)]
  }

  /** `memcpy` of a byte run into an array. */
  method CopyInto(dst: array<byte>, at: nat, src: seq<byte>)
    requires at + |src| <= dst.Length
    modifies dst
    ensures dst[..] == Splice(old(dst[..]), at, src)
  {
    var i := 0;
    while i < |src|
      invariant 0 <= i <= |src|
      invariant forall k | 0 <= k < dst.Length :: dst[k] == if at <= k < at + i then src[k - at] else old(dst[k])
    {
      dst[at + i] := src[i];
      i := i + 1;
    }
  }
}

/** Offsets of equally sized pages, and the ring slot of a page.  Both functions recurse on the page
    number so that proofs about them stay linear. */
module Grid {

  /** Byte offset of page `p` when pages are `size` bytes long. */
  function Pos(p: nat, size: nat): nat
  {
    if p == 0 then 0 else Pos(p - 1, size) + size
  }

  lemma {:induction false} PosIsProduct(p: nat, size: nat)
    ensures Pos(p, size) == p * size
  {
    if p != 0 {
      PosIsProduct(p - 1, size);
      assert p * size == (p - 1) * size + size;
    }
  }

  lemma PosZero(size: nat)
    ensures Pos(0, size) == 0
  {
  }

  lemma PosNext(p: nat, size: nat)
    ensures Pos(p + 1, size) == Pos(p, size) + size
  {
  }

  lemma SlotSmall(p: nat, n: nat)
    requires p < n
    ensures Slot(p, n) == p
  {
  }

  lemma {:induction false} PosSum(a: nat, b: nat, size: nat)
    ensures Pos(a + b, size) == Pos(a, size) + Pos(b, size)
  {
    if b != 0 {
      PosSum(a, b - 1, size);
    }
  }

  lemma {:induction false} PosMono(a: nat, b: nat, size: nat)
    ensures a <= b ==> Pos(a, size) <= Pos(b, size)
    ensures a < b ==> Pos(a, size) + size <= Pos(b, size)
  {
    if a < b {
      PosMono(a, b - 1, size);
    }
  }

  /** The page a byte offset lies in. */
  function PageOf(position: nat, size: nat): nat
    requires size > 0
  {
    position / size
  }

  /** The page of an offset, and the offset's remainder in it. */
  lemma Locate(position: nat, size: nat)
    requires size > 0
    ensures Pos(position / size, size) <= position < Pos(position / size, size) + size
    ensures PageOf(position, size) == position / size && (position / size) * size == Pos(position / size, size)
    ensures position == Pos(position / size, size) + position % size && position % size < size
  {
    PosIsProduct(position / size, size);
    assert position == (position / size) * size + position % size;
  }

  /** Moving forward inside a page stays on it or lands on the start of the next one. */
  lemma Advance(from: nat, to: nat, size: nat)
    requires size > 0 && from < to <= Pos(PageOf(from, size), size) + size
    ensures PageOf(to, size) == if to == Pos(PageOf(from, size), size) + size then PageOf(from, size) + 1 else PageOf(from, size)
    ensures Pos(PageOf(from, size) + 1, size) == Pos(PageOf(from, size), size) + size
  {
    Locate(from, size);
    if to == Pos(PageOf(from, size), size) + size {
      LocateUnique(to, PageOf(from, size) + 1, size);
    } else {
      LocateUnique(to, PageOf(from, size), size);
    }
  }

  lemma LocateUnique(position: nat, p: nat, size: nat)
    requires size > 0 && Pos(p, size) <= position < Pos(p, size) + size
    ensures PageOf(position, size) == p
  {
    Locate(position, size);
    PosMono(p, position / size, size);
    PosMono(position / size, p, size);
  }

  /** Number of pages needed for `count` bytes. */
  function PagesFor(count: nat, size: nat): nat
    requires size > 0
  {
    (count + size - 1) / size
  }

  lemma PagesForBounds(count: nat, size: nat)
    requires size > 0
    ensures count <= Pos(PagesFor(count, size), size)
    ensures count > 0 ==> PagesFor(count, size) > 0 && Pos(PagesFor(count, size) - 1, size) < count
  {
    Locate(count + size - 1, size);
  }

  /** Rounding a size up to whole pages gives a multiple of the page, and keeps multiples. */
  lemma RoundUp(x: nat, size: nat)
    requires size > 0
    ensures (PagesFor(x, size) * size) % size == 0 && PagesFor(x, size) * size >= x
    ensures x % size == 0 ==> PagesFor(x, size) * size == x
    ensures size % size == 0
  {
    PagesForBounds(x, size);
    var m := PagesFor(x, size);
    PosIsProduct(m, size);
    MultipleMod(m, size);
    MultipleMod(1, size);
    if x % size == 0 {
      assert x + size - 1 == (x / size) * size + (size - 1);
      DivUnique(x + size - 1, x / size, size - 1, size);
    }
  }

  /** As many pages as fit. */
  lemma WholePagesIn(total: nat, size: nat)
    requires size > 0
    ensures var n := total / size; n * size <= total < (n + 1) * size && (n == 0 <==> total < size)
  {
    Locate(total, size);
    PosIsProduct(total / size, size);
    PosIsProduct(total / size + 1, size);
  }

  lemma LeastRoundUp(x: nat, size: nat)
    requires size > 0
    ensures x > 0 ==> PagesFor(x, size) * size - size < x
  {
    PagesForBounds(x, size);
    var m := PagesFor(x, size);
    if x > 0 {
      PosIsProduct(m - 1, size);
      assert m * size == (m - 1) * size + size;
    }
  }

  lemma MultipleMod(m: nat, size: nat)
    requires size > 0
    ensures (m * size) % size == 0
  {
    DivUnique(m * size, m, 0, size);
  }

  /** The same number as the C code computes it, in 32-bit arithmetic. */
  function PagesFor32(count: nat, size: nat): nat
    requires size > 0
  {
    ((count + size - 1) % 0x1_0000_0000) / size
  }

  lemma PagesFor32Exact(count: nat, size: nat)
    requires size > 0 && count + size - 1 <= 0xFFFF_FFFF
    ensures PagesFor32(count, size) == PagesFor(count, size)
  {
  }

  /** A request within a page of 2^32 bytes wraps round and asks for no pages at all. */
  lemma PagesFor32Wraps(count: nat, size: nat)
    requires size > 0 && count <= 0xFFFF_FFFF && count + size - 1 > 0xFFFF_FFFF
    ensures PagesFor32(count, size) == 0
  {
    var x := (count + size - 1) % 0x1_0000_0000;
    if size <= 0xFFFF_FFFF {
      assert x == count + size - 1 - 0x1_0000_0000;
    }
    DivUnique(x, 0, x, size);
  }

  /** Ring slot of page `p` among `n` slots. */
  function Slot(p: nat, n: nat): (s: nat)
    requires n > 0
    ensures s < n
  {
    if p < n then p else Slot(p - n, n)
  }

  lemma {:induction false} SlotIsMod(p: nat, n: nat)
    requires n > 0
    ensures Slot(p, n) == p % n
  {
    if p >= n {
      SlotIsMod(p - n, n);
      assert p % n == (p - n + n) % n == (p - n) % n by { ModPlus(p - n, n); }
    } else {
      assert p % n == p by { ModSmall(p, n); }
    }
  }

  lemma ModSmall(p: nat, n: nat)
    requires p < n
    ensures p % n == p
  {
  }

  lemma ModPlus(p: nat, n: nat)
    requires n > 0
    ensures (p + n) % n == p % n
  {
    var q := p / n;
    assert p + n == (q + 1) * n + p % n;
    assert (p + n) / n == q + 1 by { DivUnique(p + n, q + 1, p % n, n); }
  }

  lemma DivUnique(x: nat, q: nat, r: nat, n: nat)
    requires n > 0 && x == q * n + r && r < n
    ensures x / n == q
  {
    var d := x / n;
    MulGap(d, q, n);
    MulGap(q, d, n);
  }

  lemma MulGap(a: nat, b: nat, n: nat)
    ensures a < b ==> a * n + n <= b * n
  {
    PosIsProduct(a, n);
    PosIsProduct(b, n);
    PosMono(a, b, n);
  }

  /** Walking d < n pages ahead moves d slots ahead, wrapping at most once. */
  lemma {:induction false} SlotAhead(p: nat, d: nat, n: nat)
    requires d <= n && n > 0
    ensures Slot(p + d, n) == if Slot(p, n) + d < n then Slot(p, n) + d else Slot(p, n) + d - n
  {
    if p >= n {
      SlotAhead(p - n, d, n);
    }
  }

  /** Two pages in the same slot are a whole ring apart. */
  lemma SlotInjective(a: nat, b: nat, n: nat)
    requires n > 0 && Slot(a, n) == Slot(b, n)
    ensures a < b ==> a + n <= b
    ensures b < a ==> b + n <= a
  {
    var d: nat := if a < b then b - a else a - b;
    if d < n {
      SlotAhead(if a < b then a else b, d, n);
    }
  }
}
