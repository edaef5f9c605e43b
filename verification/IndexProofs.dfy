/** What the readers recover from what the writers emit. */
module IndexProofs {
  import opened Wrappers
  import opened Bytes
  import opened Grid
  import opened Ber
  import opened LocalSet
  import opened IndexModel

  predicate Fixed(it: Item)
  {
    it.tag < 0x1_0000 && FixedLen(it.tag) == Some(|it.value|)
  }

  predicate AllFixed(items: seq<Item>)
  {
    forall i | 0 <= i < |items| :: Fixed(items[i])
  }

  /** The segment after reading fixed items into `s`. */
  function Fold(s: Segment, items: seq<Item>): Segment
    requires AllFixed(items)
  {
    if items == [] then s
    else
      var it := items[|items| - 1];
      Apply(Fold(s, items[..|items| - 1]), it.tag, it.value)
  }

  lemma FoldNext(s: Segment, items: seq<Item>, it: Item)
    requires AllFixed(items) && Fixed(it)
    ensures AllFixed(items + [it]) && Fold(s, items + [it]) == Apply(Fold(s, items), it.tag, it.value)
  {
    assert (items + [it])[..|items|] == items;
  }

  lemma {:induction false} FoldJoin(s: Segment, a: seq<Item>, b: seq<Item>)
    requires AllFixed(a) && AllFixed(b)
    ensures AllFixed(a + b) && Fold(s, a + b) == Fold(Fold(s, a), b)
  {
    hide Fixed, Apply;
    if b == [] {
      assert a + b == a;
    } else {
      var f, x := b[..|b| - 1], b[|b| - 1];
      FoldJoin(s, a, f);
      FoldNext(s, a + f, x);
      assert a + b == (a + f) + [x];
    }
  }

  /** Tag and length of an item are read back. */
  lemma HeaderAt(data: seq<byte>, pos: nat, tag: nat, len: nat, rest: seq<byte>)
    requires tag < 0x1_0000 && len < 0x1_0000 && At(data, pos, BigEndian(2, tag) + BigEndian(2, len) + rest)
    ensures At(data, pos + 4, rest)
    ensures Get(data, pos, 4).Some?
    ensures var h := Get(data, pos, 4).value; |h| == 4 && FromBigEndian(h[..2]) == tag && FromBigEndian(h[2..]) == len
  {
    hide BigEndian, FromBigEndian;
    var h := BigEndian(2, tag) + BigEndian(2, len);
    AtParts(data, pos, h, rest);
    GetAt(data, pos, h);
    Pow256Table();
    BigEndianRoundTrip(2, tag);
    BigEndianRoundTrip(2, len);
    assert h[..2] == BigEndian(2, tag) && h[2..] == BigEndian(2, len);
  }

  /** Number and size of an array's elements are read back. */
  lemma ArrayHeaderAt(data: seq<byte>, pos: nat, n: nat, size: nat, rest: seq<byte>)
    requires n <= UINT32_MAX && size <= UINT32_MAX && At(data, pos, BigEndian(4, n) + BigEndian(4, size) + rest)
    ensures At(data, pos + 8, rest)
    ensures Get(data, pos, 8).Some?
    ensures var h := Get(data, pos, 8).value; |h| == 8 && FromBigEndian(h[..4]) == n && FromBigEndian(h[4..]) == size
  {
    hide BigEndian, FromBigEndian;
    var h := BigEndian(4, n) + BigEndian(4, size);
    AtParts(data, pos, h, rest);
    GetAt(data, pos, h);
    Pow256Table();
    BigEndianRoundTrip(4, n);
    BigEndianRoundTrip(4, size);
    assert h[..4] == BigEndian(4, n) && h[4..] == BigEndian(4, size);
  }

  function After(st: Progress, seg: Segment, n: nat): Progress
  {
    Progress(seg, st.pos + n, st.total + n)
  }

  lemma ReadFixed(v: Variant, data: seq<byte>, st: Progress, it: Item)
    requires Fixed(it) && At(data, st.pos, ItemBytes(it))
    ensures ReadItem(v, data, st) == Some(After(st, Apply(st.seg, it.tag, it.value), 4 + |it.value|))
  {
    hide BigEndian, FromBigEndian, Apply;
    HeaderAt(data, st.pos, it.tag, |it.value|, it.value);
    GetAt(data, st.pos + 4, it.value);
  }

  lemma ReadOne(v: Variant, data: seq<byte>, st: Progress, next: Progress, segmentLen: nat)
    requires st.total < segmentLen && ReadItem(v, data, st) == Some(next)
    ensures ReadItems(v, data, st, segmentLen) == ReadItems(v, data, next, segmentLen)
  {
    hide ReadItem;
  }

  /** Reading items of fixed size. */
  lemma {:induction false} ReadFixedItems(v: Variant, data: seq<byte>, st: Progress, items: seq<Item>, segmentLen: nat)
    requires AllFixed(items) && At(data, st.pos, ItemsBytes(items)) && st.total + |ItemsBytes(items)| <= segmentLen
    ensures ReadItems(v, data, st, segmentLen)
         == ReadItems(v, data, After(st, Fold(st.seg, items), |ItemsBytes(items)|), segmentLen)
  {
    hide ReadItems, ReadItem, Apply, ItemBytes, At;
    if items != [] {
      var f, x := items[..|items| - 1], items[|items| - 1];
      AtParts(data, st.pos, ItemsBytes(f), ItemBytes(x));
      ReadFixedItems(v, data, st, f, segmentLen);
      var mid := After(st, Fold(st.seg, f), |ItemsBytes(f)|);
      ReadFixed(v, data, mid, x);
      ReadOne(v, data, mid, After(mid, Apply(mid.seg, x.tag, x.value), 4 + |x.value|), segmentLen);
    }
  }

  /* ---- The arrays ---- */

  lemma {:induction false} DeltasAt(data: seq<byte>, pos: nat, s: seq<DeltaEntry>, acc: seq<DeltaEntry>)
    requires At(data, pos, DeltasBytes(s)) && forall i | 0 <= i < |s| :: DeltaOk(s[i])
    ensures ReadDeltas(data, pos, |s|, acc) == Some(acc + s)
    decreases |s|
  {
    hide DeltaBytes, ParseDelta, DeltaOk, At;
    if s == [] {
      assert acc + s == acc;
    } else {
      AtParts(data, pos, DeltaBytes(s[0]), DeltasBytes(s[1..]));
      GetAt(data, pos, DeltaBytes(s[0]));
      DeltaRoundTrip(s[0]);
      DeltasAt(data, pos + 6, s[1..], acc + [s[0]]);
      assert acc + [s[0]] + s[1..] == acc + s;
    }
  }

  lemma {:induction false} SlotsAt(data: seq<byte>, at: nat, used: nat, L: nat, s: seq<nat>, acc: seq<nat>)
    requires At(data, at + used, SlotsBytes(s)) && used + 4 * |s| <= L && forall i | 0 <= i < |s| :: s[i] < Pow256(4)
    ensures ReadSlots(data, at, |s|, used, L, acc) == Some((acc + s, used + 4 * |s|))
    decreases |s|
  {
    hide BigEndian, FromBigEndian, Pow256, At;
    if s == [] {
      assert acc + s == acc;
    } else {
      AtParts(data, at + used, BigEndian(4, s[0]), SlotsBytes(s[1..]));
      GetAt(data, at + used, BigEndian(4, s[0]));
      BigEndianRoundTrip(4, s[0]);
      SlotsAt(data, at, used + 4, L, s[1..], acc + [s[0]]);
      assert acc + [s[0]] + s[1..] == acc + s;
    }
  }

  lemma {:induction false} PositionsAt(data: seq<byte>, at: nat, used: nat, L: nat, s: seq<Rational>, acc: seq<Rational>)
    requires At(data, at + used, PositionsBytes(s)) && used + 8 * |s| <= L && forall i | 0 <= i < |s| :: RationalOk(s[i])
    ensures ReadPositions(data, at, |s|, used, L, acc) == Some((acc + s, used + 8 * |s|))
    decreases |s|
  {
    hide RationalBytes, ParseRational, RationalOk, At;
    if s == [] {
      assert acc + s == acc;
    } else {
      AtParts(data, at + used, RationalBytes(s[0]), PositionsBytes(s[1..]));
      GetAt(data, at + used, RationalBytes(s[0]));
      RationalRoundTrip(s[0]);
      PositionsAt(data, at, used + 8, L, s[1..], acc + [s[0]]);
      assert acc + [s[0]] + s[1..] == acc + s;
    }
  }

  lemma HeadRoundTrip(e: IndexEntry)
    requires EntryOk(e, |e.sliceOffset|, |e.posTable|)
    ensures ParseHead(HeadBytes(e), e.sliceOffset, e.posTable) == e
  {
    hide BigEndian, FromBigEndian, IntBytes, FromInt;
    var b := HeadBytes(e);
    IntRoundTrip(1, e.temporalOffset);
    IntRoundTrip(1, e.keyFrameOffset);
    BigEndianRoundTrip(1, e.flags);
    BigEndianRoundTrip(8, e.streamOffset);
    assert b[..1] == IntBytes(1, e.temporalOffset);
    assert b[1..2] == IntBytes(1, e.keyFrameOffset);
    assert b[2..3] == BigEndian(1, e.flags);
    assert b[3..] == BigEndian(8, e.streamOffset);
  }

  lemma EntryAt(data: seq<byte>, pos: nat, L: nat, e: IndexEntry)
    requires EntryOk(e, |e.sliceOffset|, |e.posTable|) && L == |EntryBytes(e)| && At(data, pos, EntryBytes(e))
    ensures ReadEntry(data, pos, L, |e.sliceOffset|, |e.posTable|) == Some((e, pos + L))
  {
    hide HeadBytes, ParseHead, SlotsBytes, PositionsBytes, At, ReadSlots, ReadPositions;
    var slots, table := SlotsBytes(e.sliceOffset), PositionsBytes(e.posTable);
    AtParts(data, pos, HeadBytes(e) + slots, table);
    AtParts(data, pos, HeadBytes(e), slots);
    GetAt(data, pos, HeadBytes(e));
    HeadRoundTrip(e);
    SlotsAt(data, pos, 11, L, e.sliceOffset, []);
    PositionsAt(data, pos, 11 + |slots|, L, e.posTable, []);
    assert [] + e.sliceOffset == e.sliceOffset && [] + e.posTable == e.posTable;
  }

  lemma {:induction false} EntriesAt(data: seq<byte>, pos: nat, L: nat, slices: nat, positions: nat,
                                     s: seq<IndexEntry>, acc: seq<IndexEntry>)
    requires At(data, pos, EntriesBytes(s)) && L == 11 + 4 * slices + 8 * positions
    requires forall i | 0 <= i < |s| :: EntryOk(s[i], slices, positions)
    ensures |EntriesBytes(s)| == Pos(|s|, L)
    ensures ReadEntries(data, pos, |s|, L, slices, positions, acc) == Some((acc + s, pos + Pos(|s|, L)))
    decreases |s|
  {
    hide EntryBytes, ReadEntry, At;
    if s == [] {
      assert acc + s == acc;
    } else {
      AtParts(data, pos, EntryBytes(s[0]), EntriesBytes(s[1..]));
      EntryAt(data, pos, L, s[0]);
      EntriesAt(data, pos + L, L, slices, positions, s[1..], acc + [s[0]]);
      PosNext(|s| - 1, L);
      assert acc + [s[0]] + s[1..] == acc + s;
    }
  }

  /** The length of a segment's arrays in the file. */
  lemma ArraySizes(s: Segment, field: nat)
    requires SegmentOk(s)
    ensures |DeltaArray(s.deltas)| == if s.deltas == [] then 0 else 12 + Pos(|s.deltas|, 6)
    ensures |IndexArray(s, field)| == if s.entries == [] then 0 else 12 + Pos(|s.entries|, EntryLen(s))
  {
    hide Pos, BigEndian, EntryOk;
    EntriesSize(s.entries, s.sliceCount, s.posTableCount);
  }

  lemma {:induction false} EntriesSize(s: seq<IndexEntry>, slices: nat, positions: nat)
    requires forall i | 0 <= i < |s| :: EntryOk(s[i], slices, positions)
    ensures |EntriesBytes(s)| == Pos(|s|, 11 + slices * 4 + positions * 8)
    decreases |s|
  {
    if s != [] {
      EntriesSize(s[1..], slices, positions);
    }
  }

  /** A delta array is read back if its length fits the local length field, and refused if it does not. */
  lemma ReadDeltasBack(v: Variant, data: seq<byte>, st: Progress, s: seq<DeltaEntry>)
    requires s != [] && |s| <= UINT32_MAX && 8 + Pos(|s|, 6) <= UINT32_MAX && st.seg.deltas == []
    requires forall i | 0 <= i < |s| :: DeltaOk(s[i])
    requires At(data, st.pos, DeltaArray(s))
    ensures ReadItem(v, data, st) == if 8 + Pos(|s|, 6) > UINT16_MAX then None
                                     else Some(After(st, st.seg.(deltas := s), |DeltaArray(s)|))
  {
    hide Pos, At, Get, BigEndian, FromBigEndian, DeltasBytes, ReadDeltas, DeltaOk;
    var n, body, len := |s|, DeltasBytes(s), 8 + Pos(|s|, 6);
    var rest := BigEndian(4, n) + BigEndian(4, 6) + body;
    assert DeltaArray(s) == BigEndian(2, 0x3f09) + BigEndian(2, len) + rest;
    LowBytes(len);
    HeaderAt(data, st.pos, 0x3f09, len % 0x1_0000, rest);
    ArrayHeaderAt(data, st.pos + 4, n, 6, body);
    DeltasAt(data, st.pos + 12, s, []);
    assert [] + s == s;
  }

  lemma LowBytes(v: nat)
    ensures BigEndian(2, v) == BigEndian(2, v % 0x1_0000)
  {
    hide BigEndian;
    LowParts(v);
    TwoBytes(v);
    TwoBytes(v % 0x1_0000);
  }

  lemma LowParts(v: nat)
    ensures v / 0x100 % 0x100 == v % 0x1_0000 / 0x100 % 0x100
    ensures v % 0x100 == v % 0x1_0000 % 0x100
  {
  }

  lemma TwoBytes(v: nat)
    ensures BigEndian(2, v) == [v / 0x100 % 0x100, v % 0x100]
  {
    assert BigEndian(1, v / 0x100) == BigEndian(0, v / 0x100 / 0x100) + [v / 0x100 % 0x100];
  }

  /** The Avid reader reads an index array back whatever its local length says; the standard reader does so exactly
      if the local length is the array's. */
  lemma ReadEntriesBack(v: Variant, data: seq<byte>, st: Progress, s: Segment, field: nat)
    requires SegmentOk(s) && s.entries != [] && 8 + Pos(|s.entries|, EntryLen(s)) <= UINT32_MAX
    requires st.seg.entries == [] && st.seg.sliceCount == s.sliceCount && st.seg.posTableCount == s.posTableCount
    requires At(data, st.pos, IndexArray(s, field))
    ensures ReadItem(v, data, st)
         == if v == Standard && field % 0x1_0000 != 8 + Pos(|s.entries|, EntryLen(s)) then None
            else Some(After(st, st.seg.(entries := s.entries), |IndexArray(s, field)|))
  {
    hide Pos, At, Get, BigEndian, FromBigEndian, EntriesBytes, ReadEntries, EntryOk;
    var n, L, body := |s.entries|, EntryLen(s), EntriesBytes(s.entries);
    var rest := BigEndian(4, n) + BigEndian(4, L) + body;
    assert IndexArray(s, field) == BigEndian(2, 0x3f0a) + BigEndian(2, field) + rest;
    LowBytes(field);
    Pow256Table();
    HeaderAt(data, st.pos, 0x3f0a, field % 0x1_0000, rest);
    ArrayHeaderAt(data, st.pos + 4, n, L, body);
    EntriesAt(data, st.pos + 12, L, s.sliceCount, s.posTableCount, s.entries, []);
    assert [] + s.entries == s.entries;
  }

  /* ---- Whole segments ---- */

  lemma FoldOne(s: Segment, it: Item)
    requires Fixed(it)
    ensures AllFixed([it]) && Fold(s, [it]) == Apply(s, it.tag, it.value)
  {
    FoldNext(s, [], it);
    assert [] + [it] == [it];
  }

  lemma FoldBase(s: Segment)
    requires SegmentOk(s)
    ensures AllFixed(BaseItems(s))
    ensures Fold(NewSegment(), BaseItems(s))
         == NewSegment().(instanceUID := s.instanceUID, indexEditRate := s.indexEditRate,
                          indexStartPosition := s.indexStartPosition, indexDuration := s.indexDuration,
                          editUnitByteCount := s.editUnitByteCount, indexSID := s.indexSID, bodySID := s.bodySID)
  {
    hide Fold, BigEndian, FromBigEndian, IntBytes, FromInt, RationalBytes, ParseRational, Pow256, IsInt, RationalOk;
    var b, n := BaseItems(s), NewSegment();
    RationalRoundTrip(s.indexEditRate);
    IntRoundTrip(8, s.indexStartPosition);
    IntRoundTrip(8, s.indexDuration);
    BigEndianRoundTrip(4, s.editUnitByteCount);
    BigEndianRoundTrip(4, s.indexSID);
    BigEndianRoundTrip(4, s.bodySID);
    FoldOne(n, b[0]);
    FoldNext(n, [b[0]], b[1]);
    FoldNext(n, [b[0]] + [b[1]], b[2]);
    FoldNext(n, [b[0]] + [b[1]] + [b[2]], b[3]);
    FoldNext(n, [b[0]] + [b[1]] + [b[2]] + [b[3]], b[4]);
    FoldNext(n, [b[0]] + [b[1]] + [b[2]] + [b[3]] + [b[4]], b[5]);
    FoldNext(n, [b[0]] + [b[1]] + [b[2]] + [b[3]] + [b[4]] + [b[5]], b[6]);
    assert [b[0]] + [b[1]] + [b[2]] + [b[3]] + [b[4]] + [b[5]] + [b[6]] == b;
  }

  lemma FoldCounts(t: Segment, s: Segment)
    requires SegmentOk(s) && t.sliceCount == 0 && t.posTableCount == 0
    ensures AllFixed(CountItems(s, s.entries != []))
    ensures Fold(t, CountItems(s, s.entries != []))
         == t.(sliceCount := Kept(s).sliceCount, posTableCount := Kept(s).posTableCount)
  {
    hide Fold, BigEndian, FromBigEndian;
    BigEndianRoundTrip(1, s.sliceCount);
    BigEndianRoundTrip(1, s.posTableCount);
    var c := CountItems(s, s.entries != []);
    FoldNone(t);
    if c != [] {
      FoldOne(t, c[0]);
      assert |c| == 1 ==> c == [c[0]];
      if |c| == 2 {
        FoldNext(t, [c[0]], c[1]);
        assert c == [c[0]] + [c[1]];
      }
    }
  }

  lemma FoldNone(s: Segment)
    ensures Fold(s, []) == s
  {
  }

  lemma FoldNumber(t: Segment, tag: nat, v: nat)
    requires v < Pow256(8) && tag in {0x3f0f, 0x3f10}
    ensures AllFixed(NumberItem(tag, v))
    ensures tag == 0x3f0f && t.extStartOffset == 0 ==> Fold(t, NumberItem(tag, v)) == t.(extStartOffset := v)
    ensures tag == 0x3f10 && t.vbeByteCount == 0 ==> Fold(t, NumberItem(tag, v)) == t.(vbeByteCount := v)
  {
    hide Fold, BigEndian, FromBigEndian;
    BigEndianRoundTrip(8, v);
    FoldNone(t);
    if v != 0 {
      FoldOne(t, Item(tag, BigEndian(8, v)));
    }
  }

  lemma FoldFlag(t: Segment, tag: nat, b: OptBool)
    requires tag in {0x3f11, 0x3f12, 0x3f13}
    ensures AllFixed(FlagItem(tag, b))
    ensures tag == 0x3f11 && t.singleIndexLocation == NotPresent ==> Fold(t, FlagItem(tag, b)) == t.(singleIndexLocation := b)
    ensures tag == 0x3f12 && t.singleEssenceLocation == NotPresent ==> Fold(t, FlagItem(tag, b)) == t.(singleEssenceLocation := b)
    ensures tag == 0x3f13 && t.forwardIndexDirection == NotPresent ==> Fold(t, FlagItem(tag, b)) == t.(forwardIndexDirection := b)
  {
    hide Fold, BigEndian, FromBigEndian;
    Pow256Table();
    BigEndianRoundTrip(1, if b == OptTrue then 1 else 0);
    FoldNone(t);
    if b != NotPresent {
      FoldOne(t, Item(tag, BigEndian(1, if b == OptTrue then 1 else 0)));
    }
  }

  lemma FoldOptions(t: Segment, s: Segment)
    requires SegmentOk(s) && t.extStartOffset == 0 && t.vbeByteCount == 0
    requires t.singleIndexLocation == t.singleEssenceLocation == t.forwardIndexDirection == NotPresent
    ensures AllFixed(OptionItems(s))
    ensures Fold(t, OptionItems(s))
         == t.(extStartOffset := s.extStartOffset, vbeByteCount := s.vbeByteCount, singleIndexLocation := s.singleIndexLocation,
               singleEssenceLocation := s.singleEssenceLocation, forwardIndexDirection := s.forwardIndexDirection)
  {
    hide Fold, AllFixed, FlagItem, NumberItem;
    var a, b := NumberItem(0x3f0f, s.extStartOffset), NumberItem(0x3f10, s.vbeByteCount);
    var c, d := FlagItem(0x3f11, s.singleIndexLocation), FlagItem(0x3f12, s.singleEssenceLocation);
    var e := FlagItem(0x3f13, s.forwardIndexDirection);
    FoldNumber(t, 0x3f0f, s.extStartOffset);
    FoldNumber(Fold(t, a), 0x3f10, s.vbeByteCount);
    FoldJoin(t, a, b);
    FoldFlag(Fold(t, a + b), 0x3f11, s.singleIndexLocation);
    FoldJoin(t, a + b, c);
    FoldFlag(Fold(t, a + b + c), 0x3f12, s.singleEssenceLocation);
    FoldJoin(t, a + b + c, d);
    FoldFlag(Fold(t, a + b + c + d), 0x3f13, s.forwardIndexDirection);
    FoldJoin(t, a + b + c + d, e);
  }

  /** What is left after the fixed items: everything but the arrays. */
  lemma FoldAll(s: Segment)
    requires SegmentOk(s)
    ensures AllFixed(FixedItems(s, s.entries != []))
    ensures Fold(NewSegment(), FixedItems(s, s.entries != [])) == Kept(s).(deltas := [], entries := [])
  {
    hide Fold, AllFixed, BaseItems, CountItems, OptionItems;
    var b, c, o := BaseItems(s), CountItems(s, s.entries != []), OptionItems(s);
    FoldBase(s);
    FoldCounts(Fold(NewSegment(), b), s);
    FoldJoin(NewSegment(), b, c);
    FoldOptions(Fold(NewSegment(), b + c), s);
    FoldJoin(NewSegment(), b + c, o);
  }

  /** Whether the arrays' lengths fit the local length fields. */
  predicate DeltasFit(s: Segment) { s.deltas == [] || 8 + Pos(|s.deltas|, 6) <= UINT16_MAX }

  predicate EntriesFit(s: Segment, field: nat)
  {
    s.entries == [] || field % 0x1_0000 == 8 + Pos(|s.entries|, EntryLen(s))
  }

  /** Below 2^32 no 32-bit product wraps. */
  predicate ArraysBelow32(s: Segment)
  {
    8 + Pos(|s.deltas|, 6) <= UINT32_MAX && 8 + Pos(|s.entries|, EntryLen(s)) <= UINT32_MAX
  }

  lemma ReadEnd(v: Variant, data: seq<byte>, st: Progress, segmentLen: nat)
    ensures st.total == segmentLen ==> ReadItems(v, data, st, segmentLen) == Some(st)
    ensures st.total < segmentLen && ReadItem(v, data, st).None? ==> ReadItems(v, data, st, segmentLen).None?
  {
    hide ReadItem;
  }

  /** The exact round trip: a reader returns the segment that was written, without the counts that were not
      written, and ends where the segment ends, if and only if the array lengths fit their fields; the Avid reader
      does not need that of the index array. */
  lemma ReadsBackExactly(v: Variant, data: seq<byte>, pos: nat, s: Segment, field: nat)
    requires SegmentOk(s) && ArraysBelow32(s) && At(data, pos, SegmentBytes(s, field))
    ensures ReadSegment(v, data, pos, |SegmentBytes(s, field)|)
         == if DeltasFit(s) && (v == Avid || EntriesFit(s, field))
            then Some(Progress(s.(sliceCount := if s.entries != [] || s.forceWriteSliceCount then s.sliceCount else 0,
                                  posTableCount := if s.entries != [] then s.posTableCount else 0,
                                  forceWriteSliceCount := false), pos + |SegmentBytes(s, field)|, |SegmentBytes(s, field)|))
            else None
  {
    hide Fold, AllFixed, FixedItems, DeltaArray, IndexArray, ReadItems, ReadItem, ItemsBytes, SegmentOk, Pos, At;
    var items, deltas, entries := FixedItems(s, s.entries != []), DeltaArray(s.deltas), IndexArray(s, field);
    var n := |SegmentBytes(s, field)|;
    AtParts(data, pos, ItemsBytes(items) + deltas, entries);
    AtParts(data, pos, ItemsBytes(items), deltas);
    FoldAll(s);
    ArraySizes(s, field);
    var st := Progress(NewSegment(), pos, 0);
    ReadFixedItems(v, data, st, items, n);
    var st1 := After(st, Fold(st.seg, items), |ItemsBytes(items)|);
    var st2 := After(st1, st1.seg.(deltas := s.deltas), |deltas|);
    if s.deltas != [] {
      DeltasOk(s);
      ReadDeltasBack(v, data, st1, s.deltas);
      ReadEnd(v, data, st1, n);
    }
    if DeltasFit(s) {
      if s.deltas != [] {
        ReadOne(v, data, st1, st2, n);
      }
      var st3 := After(st2, st2.seg.(entries := s.entries), |entries|);
      if s.entries != [] {
        ReadEntriesBack(v, data, st2, s, field);
        ReadEnd(v, data, st2, n);
        if v == Avid || EntriesFit(s, field) {
          ReadOne(v, data, st2, st3, n);
        }
      }
      ReadEnd(v, data, st3, n);
    }
  }

  lemma DeltasOk(s: Segment)
    requires SegmentOk(s)
    ensures |s.deltas| <= UINT32_MAX && forall i | 0 <= i < |s.deltas| :: DeltaOk(s.deltas[i])
  {
  }

  /* ---- What the readers make of any bytes ---- */

  /** Of k slice offsets, as many are read as begin before the entry's length L is used up, each from its 4 bytes. */
  lemma {:induction false} SlotsAre(data: seq<byte>, at: nat, k: nat, used: nat, L: nat, acc: seq<nat>)
    ensures var n := if L <= used then 0 else Min(k, (L - used + 3) / 4);
      var r := ReadSlots(data, at, k, used, L, acc);
      && (r.Some? <==> n == 0 || at + used + 4 * n <= |data|)
      && (r.Some? ==>
            && |r.value.0| == |acc| + n && r.value.0[..|acc|] == acc && r.value.1 == used + 4 * n
            && forall i | 0 <= i < n ::
                 r.value.0[|acc| + i] == FromBigEndian(data[at + used + 4 * i..at + used + 4 * i + 4]))
    decreases k
  {
    hide FromBigEndian;
    if k != 0 && used < L && at + used + 4 <= |data| {
      var next := acc + [FromBigEndian(data[at + used..at + used + 4])];
      SlotsAre(data, at, k - 1, used + 4, L, next);
      var r := ReadSlots(data, at, k, used, L, acc);
      assert r == ReadSlots(data, at, k - 1, used + 4, L, next);
      if r.Some? {
        var s := r.value.0;
        assert s[..|acc|] == s[..|next|][..|acc|];
        assert s[|acc|] == s[..|next|][|acc|];
        forall i | 0 < i < |s| - |acc|
          ensures s[|acc| + i] == FromBigEndian(data[at + used + 4 * i..at + used + 4 * i + 4])
        {
          assert s[|next| + (i - 1)] == FromBigEndian(data[at + (used + 4) + 4 * (i - 1)..at + (used + 4) + 4 * (i - 1) + 4]);
        }
      }
    }
  }

  /** The same for positions of 8 bytes: numerator and denominator. */
  lemma {:induction false} PositionsAre(data: seq<byte>, at: nat, k: nat, used: nat, L: nat, acc: seq<Rational>)
    ensures var n := if L <= used then 0 else Min(k, (L - used + 7) / 8);
      var r := ReadPositions(data, at, k, used, L, acc);
      && (r.Some? <==> n == 0 || at + used + 8 * n <= |data|)
      && (r.Some? ==>
            && |r.value.0| == |acc| + n && r.value.0[..|acc|] == acc && r.value.1 == used + 8 * n
            && forall i | 0 <= i < n ::
                 && r.value.0[|acc| + i].numerator == FromInt(data[at + used + 8 * i..at + used + 8 * i + 4])
                 && r.value.0[|acc| + i].denominator == FromInt(data[at + used + 8 * i + 4..at + used + 8 * i + 8]))
    decreases k
  {
    hide FromInt;
    if k != 0 && used < L && at + used + 8 <= |data| {
      var b := data[at + used..at + used + 8];
      var next := acc + [ParseRational(b)];
      assert b[..4] == data[at + used..at + used + 4] && b[4..] == data[at + used + 4..at + used + 8];
      PositionsAre(data, at, k - 1, used + 8, L, next);
      var r := ReadPositions(data, at, k, used, L, acc);
      assert r == ReadPositions(data, at, k - 1, used + 8, L, next);
      if r.Some? {
        var s := r.value.0;
        assert s[..|acc|] == s[..|next|][..|acc|];
        assert s[|acc|] == s[..|next|][|acc|];
        forall i | 0 < i < |s| - |acc|
          ensures s[|acc| + i].numerator == FromInt(data[at + used + 8 * i..at + used + 8 * i + 4])
          ensures s[|acc| + i].denominator == FromInt(data[at + used + 8 * i + 4..at + used + 8 * i + 8])
        {
          assert s[|next| + (i - 1)].numerator
              == FromInt(data[at + (used + 8) + 8 * (i - 1)..at + (used + 8) + 8 * (i - 1) + 4]);
        }
      }
    }
  }

  /** The fields at the start of an index entry, from its first 11 bytes. */
  predicate HeadStands(data: seq<byte>, pos: nat, e: IndexEntry)
  {
    && pos + 11 <= |data|
    && e.temporalOffset == FromInt(data[pos..pos + 1]) && e.keyFrameOffset == FromInt(data[pos + 1..pos + 2])
    && e.flags == FromBigEndian(data[pos + 2..pos + 3]) && e.streamOffset == FromBigEndian(data[pos + 3..pos + 11])
  }

  /** n numbers of 4 bytes. */
  predicate SlotsStand(data: seq<byte>, pos: nat, n: nat, s: seq<nat>)
  {
    |s| == n && pos + 4 * n <= |data| && forall i | 0 <= i < n :: s[i] == FromBigEndian(data[pos + 4 * i..pos + 4 * i + 4])
  }

  /** n pairs of a numerator and a denominator of 4 bytes. */
  predicate PositionsStand(data: seq<byte>, pos: nat, n: nat, s: seq<Rational>)
  {
    && |s| == n && pos + 8 * n <= |data|
    && forall i | 0 <= i < n :: && s[i].numerator == FromInt(data[pos + 8 * i..pos + 8 * i + 4])
                               && s[i].denominator == FromInt(data[pos + 8 * i + 4..pos + 8 * i + 8])
  }

  /** What an index entry of L bytes at `pos` says, for any L and any numbers of slots: each field from its bytes; a
      slice offset or a position is there if it begins before L; what is left of the entry is passed over. */
  predicate EntryStands(data: seq<byte>, pos: nat, L: nat, slices: nat, positions: nat, e: IndexEntry, next: nat)
  {
    var s := if L <= 11 then 0 else Min(slices, (L - 11 + 3) / 4);
    var p := if L <= 11 + 4 * s then 0 else Min(positions, (L - 11 - 4 * s + 7) / 8);
    && HeadStands(data, pos, e) && SlotsStand(data, pos + 11, s, e.sliceOffset)
    && PositionsStand(data, pos + 11 + 4 * s, p, e.posTable)
    && next == pos + Max(L, 11 + 4 * s + 8 * p)
  }

  lemma HeadIs(data: seq<byte>, pos: nat, slots: seq<nat>, positions: seq<Rational>)
    requires pos + 11 <= |data|
    ensures var e := ParseHead(data[pos..pos + 11], slots, positions);
            HeadStands(data, pos, e) && e.sliceOffset == slots && e.posTable == positions
  {
    hide FromInt, FromBigEndian;
    PartOf(data, pos, 11, 0, 1);
    PartOf(data, pos, 11, 1, 2);
    PartOf(data, pos, 11, 2, 3);
    PartOf(data, pos, 11, 3, 11);
  }

  lemma SlotsRead(data: seq<byte>, at: nat, k: nat, used: nat, L: nat)
    requires at + used <= |data|
    ensures var n := if L <= used then 0 else Min(k, (L - used + 3) / 4);
      var r := ReadSlots(data, at, k, used, L, []);
      && (r.Some? <==> at + used + 4 * n <= |data|)
      && (r.Some? ==> r.value.1 == used + 4 * n && SlotsStand(data, at + used, n, r.value.0))
  {
    hide FromBigEndian, ReadSlots;
    SlotsAre(data, at, k, used, L, []);
    var r := ReadSlots(data, at, k, used, L, []);
    if r.Some? {
      forall i | 0 <= i < |r.value.0|
        ensures r.value.0[i] == FromBigEndian(data[at + used + 4 * i..at + used + 4 * i + 4])
      {
        assert r.value.0[0 + i] == FromBigEndian(data[at + used + 4 * i..at + used + 4 * i + 4]);
      }
    }
  }

  lemma PositionsRead(data: seq<byte>, at: nat, k: nat, used: nat, L: nat)
    requires at + used <= |data|
    ensures var n := if L <= used then 0 else Min(k, (L - used + 7) / 8);
      var r := ReadPositions(data, at, k, used, L, []);
      && (r.Some? <==> at + used + 8 * n <= |data|)
      && (r.Some? ==> r.value.1 == used + 8 * n && PositionsStand(data, at + used, n, r.value.0))
  {
    hide FromInt, ReadPositions;
    PositionsAre(data, at, k, used, L, []);
    var r := ReadPositions(data, at, k, used, L, []);
    if r.Some? {
      forall i | 0 <= i < |r.value.0|
        ensures r.value.0[i].numerator == FromInt(data[at + used + 8 * i..at + used + 8 * i + 4])
        ensures r.value.0[i].denominator == FromInt(data[at + used + 8 * i + 4..at + used + 8 * i + 8])
      {
        assert r.value.0[0 + i].numerator == FromInt(data[at + used + 8 * i..at + used + 8 * i + 4]);
      }
    }
  }

  lemma EntryIs(data: seq<byte>, pos: nat, L: nat, slices: nat, positions: nat)
    ensures var s := if L <= 11 then 0 else Min(slices, (L - 11 + 3) / 4);
      var p := if L <= 11 + 4 * s then 0 else Min(positions, (L - 11 - 4 * s + 7) / 8);
      var r := ReadEntry(data, pos, L, slices, positions);
      && (r.Some? <==> pos + 11 + 4 * s + 8 * p <= |data|)
      && (r.Some? ==> EntryStands(data, pos, L, slices, positions, r.value.0, r.value.1))
  {
    hide FromInt, FromBigEndian, ReadSlots, ReadPositions, ParseHead, HeadStands, SlotsStand, PositionsStand;
    if pos + 11 <= |data| {
      SlotsRead(data, pos, slices, 11, L);
      var slots := ReadSlots(data, pos, slices, 11, L, []);
      if slots.Some? {
        PositionsRead(data, pos, positions, slots.value.1, L);
        var table := ReadPositions(data, pos, positions, slots.value.1, L, []);
        if table.Some? {
          HeadIs(data, pos, slots.value.0, table.value.0);
        }
      }
    }
  }

  /** The bytes that an entry of length L takes: the slots that begin before L are read whole. */
  function Stride(L: nat, slices: nat, positions: nat): nat
  {
    var s := if L <= 11 then 0 else Min(slices, (L - 11 + 3) / 4);
    var p := if L <= 11 + 4 * s then 0 else Min(positions, (L - 11 - 4 * s + 7) / 8);
    Max(L, 11 + 4 * s + 8 * p)
  }

  /** It is L if L holds whole slots, or more than all of them. */
  lemma WholeSlots(L: nat, slices: nat, positions: nat, k: nat)
    requires (L == 11 + 4 * k && k <= slices) || (L == 11 + 4 * slices + 8 * k && k <= positions)
             || L >= 11 + 4 * slices + 8 * positions
    ensures Stride(L, slices, positions) == L
  {
    var s := if L <= 11 then 0 else Min(slices, (L - 11 + 3) / 4);
    if L == 11 + 4 * k && k <= slices {
      assert s == k;
    } else {
      assert s == slices;
    }
  }

  lemma NextEntry(data: seq<byte>, pos: nat, L: nat, slices: nat, positions: nat)
    ensures var t, r := Stride(L, slices, positions), ReadEntry(data, pos, L, slices, positions);
            r.Some? ==> r.value.1 == pos + t && EntryStands(data, pos, L, slices, positions, r.value.0, pos + t)
  {
    hide ReadEntry, HeadStands, SlotsStand, PositionsStand;
    EntryIs(data, pos, L, slices, positions);
  }

  /** Entries stand behind each other. */
  lemma {:induction false} EntriesAre(data: seq<byte>, pos: nat, n: nat, L: nat, slices: nat, positions: nat, acc: seq<IndexEntry>)
    ensures var t, r := Stride(L, slices, positions), ReadEntries(data, pos, n, L, slices, positions, acc);
      r.Some? ==>
        && |r.value.0| == |acc| + n && r.value.0[..|acc|] == acc && r.value.1 == pos + Pos(n, t)
        && forall i | 0 <= i < n ::
             EntryStands(data, pos + Pos(i, t), L, slices, positions, r.value.0[|acc| + i], pos + Pos(i, t) + t)
    decreases n
  {
    hide ReadEntry, EntryStands, Stride;
    NextEntry(data, pos, L, slices, positions);
    PosZero(Stride(L, slices, positions));
    var t, r, e := Stride(L, slices, positions), ReadEntries(data, pos, n, L, slices, positions, acc),
                   ReadEntry(data, pos, L, slices, positions);
    if n > 0 && e.Some? {
      var next := acc + [e.value.0];
      EntriesAre(data, e.value.1, n - 1, L, slices, positions, next);
      if r.Some? {
        var s := r.value.0;
        PosSum(1, n - 1, t);
        PosNext(0, t);
        assert s[..|acc|] == s[..|next|][..|acc|] && s[|acc|] == s[..|next|][|acc|];
        forall i | 0 <= i < n
          ensures EntryStands(data, pos + Pos(i, t), L, slices, positions, s[|acc| + i], pos + Pos(i, t) + t)
        {
          if i > 0 {
            PosSum(1, i - 1, t);
            assert s[|next| + (i - 1)] == s[|acc| + i];
          }
        }
      }
    }
  }

  /** A delta entry from its 6 bytes. */
  predicate DeltaStands(data: seq<byte>, pos: nat, e: DeltaEntry)
  {
    && pos + 6 <= |data| && e.posTableIndex == FromInt(data[pos..pos + 1])
    && e.slice == FromBigEndian(data[pos + 1..pos + 2]) && e.elementData == FromBigEndian(data[pos + 2..pos + 6])
  }

  lemma DeltaIs(data: seq<byte>, pos: nat)
    requires pos + 6 <= |data|
    ensures DeltaStands(data, pos, ParseDelta(data[pos..pos + 6]))
  {
    hide FromInt, FromBigEndian;
    PartOf(data, pos, 6, 0, 1);
    PartOf(data, pos, 6, 1, 2);
    PartOf(data, pos, 6, 2, 6);
  }

  lemma {:induction false} DeltasAre(data: seq<byte>, pos: nat, n: nat, acc: seq<DeltaEntry>)
    ensures var r := ReadDeltas(data, pos, n, acc);
      && (r.Some? <==> n == 0 || pos + Pos(n, 6) <= |data|)
      && (r.Some? ==>
            && |r.value| == |acc| + n && r.value[..|acc|] == acc
            && forall i | 0 <= i < n :: DeltaStands(data, pos + Pos(i, 6), r.value[|acc| + i]))
    decreases n
  {
    hide ParseDelta, DeltaStands;
    PosZero(6);
    if n > 0 {
      PosNext(n - 1, 6);
      PosSum(1, n - 1, 6);
      PosNext(0, 6);
      if pos + 6 <= |data| {
        DeltaIs(data, pos);
        var next := acc + [ParseDelta(data[pos..pos + 6])];
        DeltasAre(data, pos + 6, n - 1, next);
        var r := ReadDeltas(data, pos, n, acc);
        if r.Some? {
          var s := r.value;
          assert s[..|acc|] == s[..|next|][..|acc|] && s[|acc|] == s[..|next|][|acc|];
          forall i | 0 <= i < n
            ensures DeltaStands(data, pos + Pos(i, 6), s[|acc| + i])
          {
            if i > 0 {
              PosSum(1, i - 1, 6);
              assert s[|next| + (i - 1)] == s[|acc| + i];
            }
          }
        }
      }
    }
  }

  /** The fields that tags set, each from as many bytes as its type has. */
  predicate FieldStands(tag: nat, v: seq<byte>, was: Segment, now: Segment)
  {
    if tag == 0x3c0a then |v| == 16 && now == was.(instanceUID := v)
    else if tag == 0x3f0b then |v| == 8 && now == was.(indexEditRate := Rational(FromInt(v[..4]), FromInt(v[4..])))
    else if tag == 0x3f0c then |v| == 8 && now == was.(indexStartPosition := FromInt(v))
    else if tag == 0x3f0d then |v| == 8 && now == was.(indexDuration := FromInt(v))
    else if tag == 0x3f05 then |v| == 4 && now == was.(editUnitByteCount := FromBigEndian(v))
    else if tag == 0x3f06 then |v| == 4 && now == was.(indexSID := FromBigEndian(v))
    else if tag == 0x3f07 then |v| == 4 && now == was.(bodySID := FromBigEndian(v))
    else if tag == 0x3f08 then |v| == 1 && now == was.(sliceCount := FromBigEndian(v))
    else if tag == 0x3f0e then |v| == 1 && now == was.(posTableCount := FromBigEndian(v))
    else if tag == 0x3f0f then |v| == 8 && now == was.(extStartOffset := FromBigEndian(v))
    else if tag == 0x3f10 then |v| == 8 && now == was.(vbeByteCount := FromBigEndian(v))
    else if tag == 0x3f11 then |v| == 1 && now == was.(singleIndexLocation := if v[0] != 0 then OptTrue else OptFalse)
    else if tag == 0x3f12 then |v| == 1 && now == was.(singleEssenceLocation := if v[0] != 0 then OptTrue else OptFalse)
    else tag == 0x3f13 && |v| == 1 && now == was.(forwardIndexDirection := if v[0] != 0 then OptTrue else OptFalse)
  }

  /** The delta array with its length `len` at `q`: number, size and the entries, which join those read before. */
  predicate DeltaArrayStands(data: seq<byte>, q: nat, len: nat, a: Progress, b: Progress)
  {
    && q + 8 <= |data|
    && var n, size := FromBigEndian(data[q..q + 4]), FromBigEndian(data[q + 4..q + 8]);
    && (n == 0 || size == 6) && len == (8 + Pos(n, 6)) % 0x1_0000_0000 && (n == 0 || q + 8 + Pos(n, 6) <= |data|)
    && b == Progress(a.seg.(deltas := b.seg.deltas), q + 8 + Pos(n, 6), a.total + 4 + len)
    && |b.seg.deltas| == |a.seg.deltas| + n && b.seg.deltas[..|a.seg.deltas|] == a.seg.deltas
    && forall i | 0 <= i < n :: DeltaStands(data, q + 8 + Pos(i, 6), b.seg.deltas[|a.seg.deltas| + i])
  }

  /** The index array: only the standard reader minds its length. */
  predicate IndexArrayStands(v: Variant, data: seq<byte>, q: nat, len: nat, a: Progress, b: Progress)
  {
    && q + 8 <= |data|
    && var n, L := FromBigEndian(data[q..q + 4]), FromBigEndian(data[q + 4..q + 8]);
    && (v == Standard ==> len == (8 + Pos(n, L)) % 0x1_0000_0000)
    && var t := Stride(L, a.seg.sliceCount, a.seg.posTableCount);
    && b == Progress(a.seg.(entries := b.seg.entries), q + 8 + Pos(n, t), a.total + 4 + if v == Standard then len else 8 + Pos(n, L))
    && |b.seg.entries| == |a.seg.entries| + n && b.seg.entries[..|a.seg.entries|] == a.seg.entries
    && forall i | 0 <= i < n :: EntryStands(data, q + 8 + Pos(i, t), L, a.seg.sliceCount, a.seg.posTableCount,
                                            b.seg.entries[|a.seg.entries| + i], q + 8 + Pos(i, t) + t)
  }

  /** A local item at a.pos, tag, length and value, takes the reader from a to b.  A tag that is not known changes
      nothing but the place. */
  predicate ItemStands(v: Variant, data: seq<byte>, a: Progress, b: Progress)
  {
    && a.pos + 4 <= |data|
    && var tag, len, q := FromBigEndian(data[a.pos..a.pos + 2]), FromBigEndian(data[a.pos + 2..a.pos + 4]), a.pos + 4;
    if tag == 0x3f09 then DeltaArrayStands(data, q, len, a, b)
    else if tag == 0x3f0a then IndexArrayStands(v, data, q, len, a, b)
    else
      && b.pos == q + len && b.total == a.total + 4 + len
      && if tag in {0x3c0a, 0x3f05, 0x3f06, 0x3f07, 0x3f08, 0x3f0b, 0x3f0c, 0x3f0d, 0x3f0e, 0x3f0f, 0x3f10, 0x3f11, 0x3f12, 0x3f13}
         then q + len <= |data| && FieldStands(tag, data[q..q + len], a.seg, b.seg)
         else b.seg == a.seg
  }

  lemma FieldIs(s: Segment, tag: nat, v: seq<byte>)
    requires FixedLen(tag) == Some(|v|)
    ensures FieldStands(tag, v, s, Apply(s, tag, v))
  {
    hide FromInt, FromBigEndian;
    if |v| == 1 {
      OneByte(v);
    }
  }

  lemma OneByte(v: seq<byte>)
    requires |v| == 1
    ensures FromBigEndian(v) == v[0]
  {
    assert v[..0] == [];
  }

  /** A delta array is read exactly if it stands there. */
  lemma DeltaArrayIs(data: seq<byte>, a: Progress, b: Progress, len: nat)
    ensures ReadDeltaArray(data, a, len).Some? ==> DeltaArrayStands(data, a.pos + 4, len, a, ReadDeltaArray(data, a, len).value)
    ensures DeltaArrayStands(data, a.pos + 4, len, a, b) ==> ReadDeltaArray(data, a, len).Some?
  {
    hide FromBigEndian, Pos, ReadDeltas, DeltaStands;
    var q := a.pos + 4;
    if q + 8 <= |data| {
      PartOf(data, q, 8, 0, 4);
      PartOf(data, q, 8, 4, 8);
      DeltasAre(data, q + 8, FromBigEndian(data[q..q + 4]), a.seg.deltas);
    }
  }

  /** So is an index array. */
  lemma IndexArrayIs(v: Variant, data: seq<byte>, a: Progress, b: Progress, len: nat)
    ensures ReadIndexArray(v, data, a, len).Some? ==>
              IndexArrayStands(v, data, a.pos + 4, len, a, ReadIndexArray(v, data, a, len).value)
    ensures IndexArrayStands(v, data, a.pos + 4, len, a, b) ==> ReadIndexArray(v, data, a, len).Some?
  {
    hide FromBigEndian, Pos, ReadEntries, EntryStands, Stride;
    var q := a.pos + 4;
    if q + 8 <= |data| {
      PartOf(data, q, 8, 0, 4);
      PartOf(data, q, 8, 4, 8);
      var n, L := FromBigEndian(data[q..q + 4]), FromBigEndian(data[q + 4..q + 8]);
      EntriesAre(data, q + 8, n, L, a.seg.sliceCount, a.seg.posTableCount, a.seg.entries);
      if IndexArrayStands(v, data, q, len, a, b) {
        EntriesThere(data, q + 8, n, L, a.seg.sliceCount, a.seg.posTableCount, a.seg.entries, b.seg.entries);
      }
    }
  }

  /** Entries that stand behind each other are read. */
  lemma {:induction false} EntriesThere(data: seq<byte>, pos: nat, n: nat, L: nat, slices: nat, positions: nat,
                                        acc: seq<IndexEntry>, s: seq<IndexEntry>)
    requires |s| == |acc| + n
    requires var t := Stride(L, slices, positions);
      forall i | 0 <= i < n :: EntryStands(data, pos + Pos(i, t), L, slices, positions, s[|acc| + i], pos + Pos(i, t) + t)
    ensures ReadEntries(data, pos, n, L, slices, positions, acc).Some?
    decreases n
  {
    hide ReadEntry, EntryStands, Stride;
    if n > 0 {
      var t := Stride(L, slices, positions);
      PosZero(t);
      PosNext(0, t);
      assert EntryStands(data, pos + Pos(0, t), L, slices, positions, s[|acc| + 0], pos + Pos(0, t) + t);
      EntryThere(data, pos, L, slices, positions, s[|acc|], pos + t);
      NextEntry(data, pos, L, slices, positions);
      var next := acc + [ReadEntry(data, pos, L, slices, positions).value.0];
      forall i | 0 <= i < n - 1
        ensures EntryStands(data, pos + t + Pos(i, t), L, slices, positions, s[|next| + i], pos + t + Pos(i, t) + t)
      {
        PosSum(1, i, t);
        assert s[|next| + i] == s[|acc| + (i + 1)];
      }
      EntriesThere(data, pos + t, n - 1, L, slices, positions, next, s);
    }
  }

  lemma EntryThere(data: seq<byte>, pos: nat, L: nat, slices: nat, positions: nat, e: IndexEntry, next: nat)
    requires EntryStands(data, pos, L, slices, positions, e, next)
    ensures ReadEntry(data, pos, L, slices, positions).Some?
  {
    hide ReadEntry, FromInt, FromBigEndian;
    EntryIs(data, pos, L, slices, positions);
  }

  /** A reader takes a step exactly if a local item stands there, and goes where the item takes it. */
  lemma ItemIs(v: Variant, data: seq<byte>, a: Progress, b: Progress)
    ensures ReadItem(v, data, a).Some? ==> ItemStands(v, data, a, ReadItem(v, data, a).value)
    ensures ItemStands(v, data, a, b) ==> ReadItem(v, data, a).Some?
  {
    hide FromInt, FromBigEndian, Apply, ReadDeltaArray, ReadIndexArray, DeltaArrayStands, IndexArrayStands, FieldStands;
    if a.pos + 4 <= |data| {
      PartOf(data, a.pos, 4, 0, 2);
      PartOf(data, a.pos, 4, 2, 4);
      var tag, len, q := FromBigEndian(data[a.pos..a.pos + 2]), FromBigEndian(data[a.pos + 2..a.pos + 4]), a.pos + 4;
      DeltaArrayIs(data, a, b, len);
      IndexArrayIs(v, data, a, b, len);
      if q + len <= |data| && FixedLen(tag).Some? {
        FieldLength(tag, data[q..q + len], a.seg, b.seg);
        if FixedLen(tag) == Some(len) {
          FieldIs(a.seg, tag, data[q..q + len]);
        }
      }
    }
  }

  lemma FieldLength(tag: nat, v: seq<byte>, was: Segment, now: Segment)
    ensures FieldStands(tag, v, was, now) ==> FixedLen(tag) == Some(|v|)
  {
    hide FromInt, FromBigEndian;
  }

  /** The states a reader goes through: item by item until the length is used up; it fails if an item does not stand
      there or goes beyond the length. */
  predicate Steps(v: Variant, data: seq<byte>, segmentLen: nat, steps: seq<Progress>)
  {
    steps != [] && forall i | 0 <= i < |steps| - 1 :: steps[i].total < segmentLen && ItemStands(v, data, steps[i], steps[i + 1])
  }

  lemma {:induction false} ItemsAre(v: Variant, data: seq<byte>, st: Progress, segmentLen: nat) returns (steps: seq<Progress>)
    ensures Steps(v, data, segmentLen, steps) && steps[0] == st
    ensures var end, r := steps[|steps| - 1], ReadItems(v, data, st, segmentLen);
            && (r.Some? <==> end.total == segmentLen) && (r.Some? ==> r.value == end)
            && (r.None? ==> end.total > segmentLen || (end.total < segmentLen && forall next :: !ItemStands(v, data, end, next)))
    decreases segmentLen - st.total
  {
    hide ItemStands, ReadItem;
    steps := [st];
    ItemIs(v, data, st, st);
    if st.total < segmentLen {
      if ReadItem(v, data, st).Some? {
        var rest := ItemsAre(v, data, ReadItem(v, data, st).value, segmentLen);
        steps := [st] + rest;
        forall i | 0 <= i < |steps| - 1
          ensures steps[i].total < segmentLen && ItemStands(v, data, steps[i], steps[i + 1])
        {
          if i > 0 {
            assert steps[i] == rest[i - 1] && steps[i + 1] == rest[i];
          }
        }
      } else {
        forall next
          ensures !ItemStands(v, data, st, next)
        {
          ItemIs(v, data, st, next);
        }
      }
    }
  }

  /* ---- The two readers ---- */

  /** No index array met on the way has a length that wraps in 32 bits. */
  predicate NoWrap(data: seq<byte>, st: Progress, segmentLen: nat)
    decreases segmentLen - st.total
  {
    st.total < segmentLen && ReadItem(Standard, data, st).Some? ==>
      && (match Get(data, st.pos, 12)
          case None => true
          case Some(h) => FromBigEndian(h[..2]) == 0x3f0a ==>
            8 + Pos(FromBigEndian(h[4..8]), FromBigEndian(h[8..])) <= UINT32_MAX)
      && NoWrap(data, ReadItem(Standard, data, st).value, segmentLen)
  }

  lemma AvidItem(data: seq<byte>, st: Progress)
    requires ReadItem(Standard, data, st).Some?
    requires match Get(data, st.pos, 12)
             case None => true
             case Some(h) => FromBigEndian(h[..2]) == 0x3f0a ==>
               8 + Pos(FromBigEndian(h[4..8]), FromBigEndian(h[8..])) <= UINT32_MAX
    ensures ReadItem(Avid, data, st) == ReadItem(Standard, data, st)
  {
    hide BigEndian, FromBigEndian, Apply, ReadDeltaArray, ReadEntries, Pos;
    var h := Get(data, st.pos, 4).value;
    var tag := FromBigEndian(h[..2]);
    if FixedLen(tag).None? && tag == 0x3f0a {
      var a := Get(data, st.pos + 4, 8).value;
      var x := Get(data, st.pos, 12).value;
      assert x[..2] == h[..2] && x[4..8] == a[..4] && x[8..] == a[4..];
    }
  }

  /** Whatever the standard reader accepts, the Avid reader accepts with the same result. */
  lemma {:induction false} AvidAccepts(data: seq<byte>, st: Progress, segmentLen: nat)
    requires ReadItems(Standard, data, st, segmentLen).Some? && NoWrap(data, st, segmentLen)
    ensures ReadItems(Avid, data, st, segmentLen) == ReadItems(Standard, data, st, segmentLen)
    decreases segmentLen - st.total
  {
    hide ReadItem;
    if st.total < segmentLen {
      AvidItem(data, st);
      AvidAccepts(data, ReadItem(Standard, data, st).value, segmentLen);
    }
  }
}
