/** Index table segments (section 11 of SMPTE ST 377-1:2011) as bytes: what the writers emit and what the two
    readers make of it. */
module IndexModel {
  import opened Wrappers
  import opened Bytes
  import opened Grid
  import opened Ber
  import opened LocalSet

  /* ---- Numbers ---- */

  /** Half the range of n bytes. */
  function Half(n: nat): (r: int)
    requires n > 0
    ensures r > 0 && 2 * r == Pow256(n)
  {
    0x80 * Pow256(n - 1)
  }

  predicate IsInt(n: nat, v: int)
    requires n > 0
  {
    -Half(n) <= v < Half(n)
  }

  /** Two's complement. */
  function IntBytes(n: nat, v: int): (r: seq<byte>)
    requires n > 0
    ensures |r| == n
  {
    BigEndian(n, if -Half(n) <= v < 0 then v + 2 * Half(n) else if v < 0 then 0 else v)
  }

  function FromInt(s: seq<byte>): int
    requires s != []
  {
    var u := FromBigEndian(s);
    if u >= Half(|s|) then u - 2 * Half(|s|) else u
  }

  lemma IntRoundTrip(n: nat, v: int)
    requires n > 0 && IsInt(n, v)
    ensures FromInt(IntBytes(n, v)) == v
  {
    BigEndianRoundTrip(n, if v < 0 then v + 2 * Half(n) else v);
  }

  /* ---- Data ---- */

  datatype Rational = Rational(numerator: int, denominator: int)

  /** An optional flag of a segment. */
  datatype OptBool = NotPresent | OptTrue | OptFalse

  datatype DeltaEntry = DeltaEntry(posTableIndex: int, slice: nat, elementData: nat)

  datatype IndexEntry = IndexEntry(temporalOffset: int, keyFrameOffset: int, flags: nat, streamOffset: nat,
                                   sliceOffset: seq<nat>, posTable: seq<Rational>)

  datatype Segment = Segment(instanceUID: seq<byte>, indexEditRate: Rational, indexStartPosition: int,
                             indexDuration: int, editUnitByteCount: nat, indexSID: nat, bodySID: nat,
                             sliceCount: nat, forceWriteSliceCount: bool, posTableCount: nat,
                             deltas: seq<DeltaEntry>, entries: seq<IndexEntry>,
                             extStartOffset: nat, vbeByteCount: nat, singleIndexLocation: OptBool,
                             singleEssenceLocation: OptBool, forwardIndexDirection: OptBool)

  /** A segment as created: every field zero. */
  function NewSegment(): Segment
  {
    Segment(Zeros(16), Rational(0, 0), 0, 0, 0, 0, 0, 0, false, 0, [], [], 0, 0, NotPresent, NotPresent, NotPresent)
  }

  predicate RationalOk(r: Rational)
  {
    IsInt(4, r.numerator) && IsInt(4, r.denominator)
  }

  predicate DeltaOk(e: DeltaEntry)
  {
    IsInt(1, e.posTableIndex) && e.slice < Pow256(1) && e.elementData < Pow256(4)
  }

  predicate EntryOk(e: IndexEntry, slices: nat, positions: nat)
  {
    && IsInt(1, e.temporalOffset) && IsInt(1, e.keyFrameOffset) && e.flags < Pow256(1) && e.streamOffset < Pow256(8)
    && |e.sliceOffset| == slices && (forall i | 0 <= i < slices :: e.sliceOffset[i] < Pow256(4))
    && |e.posTable| == positions && (forall i | 0 <= i < positions :: RationalOk(e.posTable[i]))
  }

  /** Every field is in the range of its C type, and every entry has as many slots as the segment says. */
  predicate SegmentOk(s: Segment)
  {
    && |s.instanceUID| == 16 && RationalOk(s.indexEditRate) && IsInt(8, s.indexStartPosition) && IsInt(8, s.indexDuration)
    && s.editUnitByteCount < Pow256(4) && s.indexSID < Pow256(4) && s.bodySID < Pow256(4)
    && s.sliceCount < Pow256(1) && s.posTableCount < Pow256(1)
    && s.extStartOffset < Pow256(8) && s.vbeByteCount < Pow256(8)
    && |s.deltas| <= UINT32_MAX && (forall i | 0 <= i < |s.deltas| :: DeltaOk(s.deltas[i]))
    && |s.entries| <= UINT32_MAX
    && forall i | 0 <= i < |s.entries| :: EntryOk(s.entries[i], s.sliceCount, s.posTableCount)
  }

  /** What survives a round trip: the counts of slots are only written beside index entries. */
  function Kept(s: Segment): Segment
  {
    s.(sliceCount := if s.entries != [] || s.forceWriteSliceCount then s.sliceCount else 0,
       posTableCount := if s.entries != [] then s.posTableCount else 0,
       forceWriteSliceCount := false)
  }

  /* ---- Bytes ---- */

  function RationalBytes(r: Rational): (b: seq<byte>)
    ensures |b| == 8
  {
    IntBytes(4, r.numerator) + IntBytes(4, r.denominator)
  }

  function ParseRational(b: seq<byte>): Rational
    requires |b| == 8
  {
    Rational(FromInt(b[..4]), FromInt(b[4..]))
  }

  lemma RationalRoundTrip(r: Rational)
    requires RationalOk(r)
    ensures ParseRational(RationalBytes(r)) == r
  {
    var b := RationalBytes(r);
    IntRoundTrip(4, r.numerator);
    IntRoundTrip(4, r.denominator);
    assert b[..4] == IntBytes(4, r.numerator) && b[4..] == IntBytes(4, r.denominator);
  }

  function DeltaBytes(e: DeltaEntry): (b: seq<byte>)
    ensures |b| == 6
  {
    IntBytes(1, e.posTableIndex) + BigEndian(1, e.slice) + BigEndian(4, e.elementData)
  }

  function ParseDelta(b: seq<byte>): DeltaEntry
    requires |b| == 6
  {
    DeltaEntry(FromInt(b[..1]), FromBigEndian(b[1..2]), FromBigEndian(b[2..]))
  }

  lemma DeltaRoundTrip(e: DeltaEntry)
    requires DeltaOk(e)
    ensures ParseDelta(DeltaBytes(e)) == e
  {
    var b := DeltaBytes(e);
    IntRoundTrip(1, e.posTableIndex);
    BigEndianRoundTrip(1, e.slice);
    BigEndianRoundTrip(4, e.elementData);
    assert b[..1] == IntBytes(1, e.posTableIndex) && b[1..2] == BigEndian(1, e.slice) && b[2..] == BigEndian(4, e.elementData);
  }

  function DeltasBytes(s: seq<DeltaEntry>): (b: seq<byte>)
    ensures |b| == Pos(|s|, 6)
  {
    if s == [] then [] else DeltaBytes(s[0]) + DeltasBytes(s[1..])
  }

  function HeadBytes(e: IndexEntry): (b: seq<byte>)
    ensures |b| == 11
  {
    IntBytes(1, e.temporalOffset) + IntBytes(1, e.keyFrameOffset) + BigEndian(1, e.flags) + BigEndian(8, e.streamOffset)
  }

  function SlotsBytes(s: seq<nat>): (b: seq<byte>)
    ensures |b| == 4 * |s|
  {
    if s == [] then [] else BigEndian(4, s[0]) + SlotsBytes(s[1..])
  }

  function PositionsBytes(s: seq<Rational>): (b: seq<byte>)
    ensures |b| == 8 * |s|
  {
    if s == [] then [] else RationalBytes(s[0]) + PositionsBytes(s[1..])
  }

  function EntryBytes(e: IndexEntry): (b: seq<byte>)
    ensures |b| == 11 + 4 * |e.sliceOffset| + 8 * |e.posTable|
  {
    HeadBytes(e) + SlotsBytes(e.sliceOffset) + PositionsBytes(e.posTable)
  }

  function EntriesBytes(s: seq<IndexEntry>): seq<byte>
  {
    if s == [] then [] else EntryBytes(s[0]) + EntriesBytes(s[1..])
  }

  function EntryLen(s: Segment): nat
  {
    11 + s.sliceCount * 4 + s.posTableCount * 8
  }

  /** An array item: tag, local length, number and size of the elements, and the elements. */
  function ArrayBytes(tag: nat, field: nat, n: nat, size: nat, body: seq<byte>): seq<byte>
  {
    BigEndian(2, tag) + BigEndian(2, field) + BigEndian(4, n) + BigEndian(4, size) + body
  }

  function FlagItem(tag: nat, b: OptBool): seq<Item>
  {
    if b == NotPresent then [] else [Item(tag, BigEndian(1, if b == OptTrue then 1 else 0))]
  }

  function NumberItem(tag: nat, v: nat): seq<Item>
  {
    if v == 0 then [] else [Item(tag, BigEndian(8, v))]
  }

  function BaseItems(s: Segment): seq<Item>
  {
    [Item(0x3c0a, s.instanceUID), Item(0x3f0b, RationalBytes(s.indexEditRate)),
     Item(0x3f0c, IntBytes(8, s.indexStartPosition)), Item(0x3f0d, IntBytes(8, s.indexDuration)),
     Item(0x3f05, BigEndian(4, s.editUnitByteCount)), Item(0x3f06, BigEndian(4, s.indexSID)),
     Item(0x3f07, BigEndian(4, s.bodySID))]
  }

  function CountItems(s: Segment, hasEntries: bool): seq<Item>
  {
    if hasEntries then [Item(0x3f08, BigEndian(1, s.sliceCount)), Item(0x3f0e, BigEndian(1, s.posTableCount))]
    else if s.forceWriteSliceCount then [Item(0x3f08, BigEndian(1, s.sliceCount))]
    else []
  }

  function OptionItems(s: Segment): seq<Item>
  {
    NumberItem(0x3f0f, s.extStartOffset) + NumberItem(0x3f10, s.vbeByteCount)
    + FlagItem(0x3f11, s.singleIndexLocation) + FlagItem(0x3f12, s.singleEssenceLocation)
    + FlagItem(0x3f13, s.forwardIndexDirection)
  }

  /** The items of fixed size. */
  function FixedItems(s: Segment, hasEntries: bool): seq<Item>
  {
    BaseItems(s) + CountItems(s, hasEntries) + OptionItems(s)
  }

  /** The local length of n elements of `size` bytes in 32-bit arithmetic, before any cast to 16 bits. */
  function ArrayLen(n: nat, size: nat): nat
  {
    (8 + Pos(n, size)) % 0x1_0000_0000
  }

  function DeltaArray(s: seq<DeltaEntry>): seq<byte>
  {
    if s == [] then [] else ArrayBytes(0x3f09, ArrayLen(|s|, 6), |s|, 6, DeltasBytes(s))
  }

  function IndexArray(s: Segment, field: nat): seq<byte>
  {
    if s.entries == [] then [] else ArrayBytes(0x3f0a, field, |s.entries|, EntryLen(s), EntriesBytes(s.entries))
  }

  /** The value of a segment's KLV, the index array's local length being `field`. */
  function SegmentBytes(s: Segment, field: nat): seq<byte>
  {
    ItemsBytes(FixedItems(s, s.entries != [])) + DeltaArray(s.deltas) + IndexArray(s, field)
  }

  /* ---- Readers ---- */

  /** Lengths of the items of fixed size. */
  function FixedLen(tag: nat): Option<nat>
  {
    if tag == 0x3c0a then Some(16)
    else if tag in {0x3f0b, 0x3f0c, 0x3f0d, 0x3f0f, 0x3f10} then Some(8)
    else if tag in {0x3f05, 0x3f06, 0x3f07} then Some(4)
    else if tag in {0x3f08, 0x3f0e, 0x3f11, 0x3f12, 0x3f13} then Some(1)
    else None
  }

  function ParseFlag(v: seq<byte>): OptBool
  {
    if FromBigEndian(v) != 0 then OptTrue else OptFalse
  }

  function Apply(s: Segment, tag: nat, v: seq<byte>): Segment
    requires FixedLen(tag) == Some(|v|)
  {
    if tag == 0x3c0a then s.(instanceUID := v)
    else if tag == 0x3f0b then s.(indexEditRate := ParseRational(v))
    else if tag == 0x3f0c then s.(indexStartPosition := FromInt(v))
    else if tag == 0x3f0d then s.(indexDuration := FromInt(v))
    else if tag == 0x3f05 then s.(editUnitByteCount := FromBigEndian(v))
    else if tag == 0x3f06 then s.(indexSID := FromBigEndian(v))
    else if tag == 0x3f07 then s.(bodySID := FromBigEndian(v))
    else if tag == 0x3f08 then s.(sliceCount := FromBigEndian(v))
    else if tag == 0x3f0e then s.(posTableCount := FromBigEndian(v))
    else if tag == 0x3f0f then s.(extStartOffset := FromBigEndian(v))
    else if tag == 0x3f10 then s.(vbeByteCount := FromBigEndian(v))
    else if tag == 0x3f11 then s.(singleIndexLocation := ParseFlag(v))
    else if tag == 0x3f12 then s.(singleEssenceLocation := ParseFlag(v))
    else s.(forwardIndexDirection := ParseFlag(v))
  }

  /** n delta entries from `pos` on, behind those read so far. */
  function ReadDeltas(data: seq<byte>, pos: nat, n: nat, acc: seq<DeltaEntry>): Option<seq<DeltaEntry>>
    decreases n
  {
    if n == 0 then Some(acc)
    else match Get(data, pos, 6)
      case None => None
      case Some(b) => ReadDeltas(data, pos + 6, n - 1, acc + [ParseDelta(b)])
  }

  function ParseHead(b: seq<byte>, slots: seq<nat>, positions: seq<Rational>): IndexEntry
    requires |b| == 11
  {
    IndexEntry(FromInt(b[..1]), FromInt(b[1..2]), FromBigEndian(b[2..3]), FromBigEndian(b[3..]), slots, positions)
  }

  /** Up to k slice offsets of the entry at `at`, as long as its length L is not used up; with the length used. */
  function ReadSlots(data: seq<byte>, at: nat, k: nat, used: nat, L: nat, acc: seq<nat>): Option<(seq<nat>, nat)>
    decreases k
  {
    if k == 0 || used >= L then Some((acc, used))
    else match Get(data, at + used, 4)
      case None => None
      case Some(b) => ReadSlots(data, at, k - 1, used + 4, L, acc + [FromBigEndian(b)])
  }

  function ReadPositions(data: seq<byte>, at: nat, k: nat, used: nat, L: nat, acc: seq<Rational>): Option<(seq<Rational>, nat)>
    decreases k
  {
    if k == 0 || used >= L then Some((acc, used))
    else match Get(data, at + used, 8)
      case None => None
      case Some(b) => ReadPositions(data, at, k - 1, used + 8, L, acc + [ParseRational(b)])
  }

  /** The index entry at `pos` and where the next one starts.  Slots the entry has no room for are left out. */
  function ReadEntry(data: seq<byte>, pos: nat, L: nat, slices: nat, positions: nat): Option<(IndexEntry, nat)>
  {
    match Get(data, pos, 11)
    case None => None
    case Some(head) =>
      match ReadSlots(data, pos, slices, 11, L, [])
      case None => None
      case Some(slots) =>
        match ReadPositions(data, pos, positions, slots.1, L, [])
        case None => None
        case Some(table) => Some((ParseHead(head, slots.0, table.0), pos + Max(table.1, L)))
  }

  function ReadEntries(data: seq<byte>, pos: nat, n: nat, L: nat, slices: nat, positions: nat, acc: seq<IndexEntry>):
      Option<(seq<IndexEntry>, nat)>
    decreases n
  {
    if n == 0 then Some((acc, pos))
    else match ReadEntry(data, pos, L, slices, positions)
      case None => None
      case Some(e) => ReadEntries(data, e.1, n - 1, L, slices, positions, acc + [e.0])
  }

  /** The standard reader trusts the local length, the Avid reader the array header. */
  datatype Variant = Standard | Avid

  /** A reader's state: the segment so far, the file position and the count of bytes accounted for. */
  datatype Progress = Progress(seg: Segment, pos: nat, total: nat)

  function ReadDeltaArray(data: seq<byte>, st: Progress, len: nat): (r: Option<Progress>)
    ensures r.Some? ==> r.value.total > st.total
  {
    match Get(data, st.pos + 4, 8)
    case None => None
    case Some(h) =>
      var n, size := FromBigEndian(h[..4]), FromBigEndian(h[4..]);
      if (n != 0 && size != 6) || len != ArrayLen(n, 6) then None
      else match ReadDeltas(data, st.pos + 12, n, st.seg.deltas)
        case None => None
        case Some(d) => Some(Progress(st.seg.(deltas := d), st.pos + 12 + Pos(n, 6), st.total + 4 + len))
  }

  function ReadIndexArray(v: Variant, data: seq<byte>, st: Progress, len: nat): (r: Option<Progress>)
    ensures r.Some? ==> r.value.total > st.total
  {
    match Get(data, st.pos + 4, 8)
    case None => None
    case Some(h) =>
      var n, L := FromBigEndian(h[..4]), FromBigEndian(h[4..]);
      if v == Standard && len != ArrayLen(n, L) then None
      else match ReadEntries(data, st.pos + 12, n, L, st.seg.sliceCount, st.seg.posTableCount, st.seg.entries)
        case None => None
        case Some(e) =>
          Some(Progress(st.seg.(entries := e.0), e.1, st.total + 4 + if v == Standard then len else 8 + Pos(n, L)))
  }

  /** One local item. */
  function ReadItem(v: Variant, data: seq<byte>, st: Progress): (r: Option<Progress>)
    ensures r.Some? ==> r.value.total > st.total
  {
    match Get(data, st.pos, 4)
    case None => None
    case Some(h) =>
      var tag, len := FromBigEndian(h[..2]), FromBigEndian(h[2..]);
      if FixedLen(tag).Some? then
        if FixedLen(tag).value != len then None
        else match Get(data, st.pos + 4, len)
          case None => None
          case Some(b) => Some(Progress(Apply(st.seg, tag, b), st.pos + 4 + len, st.total + 4 + len))
      else if tag == 0x3f09 then ReadDeltaArray(data, st, len)
      else if tag == 0x3f0a then ReadIndexArray(v, data, st, len)
      else Some(Progress(st.seg, st.pos + 4 + len, st.total + 4 + len))
  }

  /** All items of a segment of `segmentLen` bytes. */
  function ReadItems(v: Variant, data: seq<byte>, st: Progress, segmentLen: nat): Option<Progress>
    decreases segmentLen - st.total
  {
    if st.total >= segmentLen then if st.total == segmentLen then Some(st) else None
    else match ReadItem(v, data, st)
      case None => None
      case Some(next) => ReadItems(v, data, next, segmentLen)
  }

  function ReadSegment(v: Variant, data: seq<byte>, pos: nat, segmentLen: nat): Option<Progress>
  {
    ReadItems(v, data, Progress(NewSegment(), pos, 0), segmentLen)
  }
}

module IndexTable {
  import opened Wrappers
  import opened Bytes
  import opened Grid
  import opened Ber
  import opened MxfFile
  import opened LocalSet
  import opened IndexModel
  import opened IndexProofs

  const INDEX_TABLE_SEGMENT_KEY: seq<byte> :=
    [0x06, 0x0e, 0x2b, 0x34, 0x02, 0x53, 0x01, 0x01, 0x0d, 0x01, 0x02, 0x01, 0x01, 0x10, 0x01, 0x00]

  /* ---- Lengths ---- */

  function CountsLen(s: Segment, hasEntries: bool): nat
  {
    if hasEntries then 10 else if s.forceWriteSliceCount then 5 else 0
  }

  function OptionsLen(s: Segment): nat
  {
    (if s.extStartOffset != 0 then 12 else 0) + (if s.vbeByteCount != 0 then 12 else 0)
    + (if s.singleIndexLocation != NotPresent then 5 else 0) + (if s.singleEssenceLocation != NotPresent then 5 else 0)
    + if s.forwardIndexDirection != NotPresent then 5 else 0
  }

  lemma ItemsOne(it: Item)
    ensures |ItemsBytes([it])| == 4 + |it.value|
  {
    assert [it] == [] + [it];
    ItemsNext([], it);
    NoItems();
  }

  lemma FixedSize(s: Segment, hasEntries: bool)
    requires |s.instanceUID| == 16
    ensures |ItemsBytes(FixedItems(s, hasEntries))| == 80 + CountsLen(s, hasEntries) + OptionsLen(s)
  {
    hide ItemsBytes, BigEndian, IntBytes, RationalBytes;
    NoItems();
    BaseSize(s);
    OptionsSize(s);
    var b, c := BaseItems(s), CountItems(s, hasEntries);
    ItemsJoin(b, c);
    ItemsJoin(b + c, OptionItems(s));
    if c != [] {
      ItemsOne(c[0]);
      assert |c| == 1 ==> c == [c[0]];
      if |c| == 2 {
        ItemsNext([c[0]], c[1]);
        assert c == [c[0]] + [c[1]];
      }
    }
  }

  lemma BaseSize(s: Segment)
    requires |s.instanceUID| == 16
    ensures |ItemsBytes(BaseItems(s))| == 80
  {
    hide ItemsBytes, BigEndian, IntBytes, RationalBytes;
    var b := BaseItems(s);
    ItemsOne(b[0]);
    ItemsNext([b[0]], b[1]);
    ItemsNext([b[0]] + [b[1]], b[2]);
    ItemsNext([b[0]] + [b[1]] + [b[2]], b[3]);
    ItemsNext([b[0]] + [b[1]] + [b[2]] + [b[3]], b[4]);
    ItemsNext([b[0]] + [b[1]] + [b[2]] + [b[3]] + [b[4]], b[5]);
    ItemsNext([b[0]] + [b[1]] + [b[2]] + [b[3]] + [b[4]] + [b[5]], b[6]);
    assert [b[0]] + [b[1]] + [b[2]] + [b[3]] + [b[4]] + [b[5]] + [b[6]] == b;
  }

  lemma OptionsSize(s: Segment)
    ensures |ItemsBytes(OptionItems(s))| == OptionsLen(s)
  {
    hide ItemsBytes, BigEndian, NumberItem, FlagItem;
    var a, b := NumberItem(0x3f0f, s.extStartOffset), NumberItem(0x3f10, s.vbeByteCount);
    var c, d := FlagItem(0x3f11, s.singleIndexLocation), FlagItem(0x3f12, s.singleEssenceLocation);
    var e := FlagItem(0x3f13, s.forwardIndexDirection);
    NumberSize(0x3f0f, s.extStartOffset);
    NumberSize(0x3f10, s.vbeByteCount);
    FlagSize(0x3f11, s.singleIndexLocation);
    FlagSize(0x3f12, s.singleEssenceLocation);
    FlagSize(0x3f13, s.forwardIndexDirection);
    ItemsJoin(a, b);
    ItemsJoin(a + b, c);
    ItemsJoin(a + b + c, d);
    ItemsJoin(a + b + c + d, e);
  }

  lemma NumberSize(tag: nat, v: nat)
    ensures |ItemsBytes(NumberItem(tag, v))| == if v != 0 then 12 else 0
  {
    hide ItemsBytes, BigEndian;
    NoItems();
    ItemsOne(Item(tag, BigEndian(8, v)));
  }

  lemma FlagSize(tag: nat, b: OptBool)
    ensures |ItemsBytes(FlagItem(tag, b))| == if b != NotPresent then 5 else 0
  {
    hide ItemsBytes, BigEndian;
    NoItems();
    ItemsOne(Item(tag, BigEndian(1, if b == OptTrue then 1 else 0)));
  }

  /** The length the streaming header declares: its array terms are computed in 32 bits. */
  function StreamLen(s: Segment, numDeltas: nat, numEntries: nat): nat
  {
    80 + OptionsLen(s)
    + (if numDeltas > 0 then (12 + Pos(numDeltas, 6)) % 0x1_0000_0000 else 0)
    + if numEntries > 0 then (22 + Pos(numEntries, EntryLen(s))) % 0x1_0000_0000 else CountsLen(s, false)
  }

  lemma SegmentLength(s: Segment, field: nat)
    requires SegmentOk(s)
    ensures |SegmentBytes(s, field)| == 80 + OptionsLen(s) + CountsLen(s, s.entries != [])
                                        + (if s.deltas == [] then 0 else 12 + Pos(|s.deltas|, 6))
                                        + if s.entries == [] then 0 else 12 + Pos(|s.entries|, EntryLen(s))
    ensures |SegmentBytes(s, field)| < Pow256(8)
  {
    hide Pos, DeltaArray, IndexArray, ItemsBytes, FixedItems, OptionsLen, Pow256;
    FixedSize(s, s.entries != []);
    ArraySizes(s, field);
    Pow256Table();
    SizeBound(|s.deltas|, 6);
    SizeBound(|s.entries|, EntryLen(s));
    OptionsBound(s);
  }

  lemma OptionsBound(s: Segment)
    ensures OptionsLen(s) <= 39
  {
  }

  lemma SizeBound(n: nat, size: nat)
    requires n <= UINT32_MAX && size <= 3071
    ensures Pos(n, size) <= UINT32_MAX * 3071
  {
    hide Pos;
    PosMono(n, UINT32_MAX, size);
    PosIsProduct(UINT32_MAX, size);
  }

  /** The streaming header declares the right length exactly as long as no 32-bit term wraps. */
  lemma StreamLenExact(s: Segment, field: nat)
    requires SegmentOk(s)
    ensures StreamLen(s, |s.deltas|, |s.entries|) == |SegmentBytes(s, field)|
            <==> (s.deltas == [] || 12 + Pos(|s.deltas|, 6) <= UINT32_MAX)
                 && (s.entries == [] || 22 + Pos(|s.entries|, EntryLen(s)) <= UINT32_MAX)
  {
    hide Pos, OptionsLen, SegmentBytes, SegmentOk, EntryLen;
    SegmentLength(s, field);
  }

  /* ---- Lists written front to back ---- */

  lemma {:induction false} DeltasNext(s: seq<DeltaEntry>, e: DeltaEntry)
    ensures DeltasBytes(s + [e]) == DeltasBytes(s) + DeltaBytes(e)
    decreases |s|
  {
    hide DeltaBytes;
    if s != [] {
      DeltasNext(s[1..], e);
      assert (s + [e])[1..] == s[1..] + [e];
    }
  }

  lemma {:induction false} SlotsNext(s: seq<nat>, x: nat)
    ensures SlotsBytes(s + [x]) == SlotsBytes(s) + BigEndian(4, x)
    decreases |s|
  {
    hide BigEndian;
    if s != [] {
      SlotsNext(s[1..], x);
      assert (s + [x])[1..] == s[1..] + [x];
    }
  }

  lemma {:induction false} PositionsNext(s: seq<Rational>, x: Rational)
    ensures PositionsBytes(s + [x]) == PositionsBytes(s) + RationalBytes(x)
    decreases |s|
  {
    hide RationalBytes;
    if s != [] {
      PositionsNext(s[1..], x);
      assert (s + [x])[1..] == s[1..] + [x];
    }
  }

  lemma {:induction false} EntriesNext(s: seq<IndexEntry>, e: IndexEntry)
    ensures EntriesBytes(s + [e]) == EntriesBytes(s) + EntryBytes(e)
    decreases |s|
  {
    hide EntryBytes;
    if s != [] {
      EntriesNext(s[1..], e);
      assert (s + [e])[1..] == s[1..] + [e];
    }
  }

  /* ---- Writers ---- */

  method WriteOption(file: FlatFile, option: seq<Item>, ghost d: seq<byte>, ghost p: nat, ghost head: seq<byte>,
                     ghost items: seq<Item>)
    requires |option| <= 1 && Emitted(d, p, head + ItemsBytes(items), file.data, file.pos)
    modifies file
    ensures Emitted(d, p, head + ItemsBytes(items + option), file.data, file.pos)
  {
    hide Emitted, ItemsBytes;
    if option != [] {
      assert option == [option[0]];
      WriteItem(file, option[0], d, p, head, items);
    } else {
      assert items + option == items;
    }
  }

  /** The items of fixed size, in their order. */
  method WriteFixedItems(file: FlatFile, s: Segment, hasEntries: bool, ghost d: seq<byte>, ghost p: nat, ghost head: seq<byte>)
    requires Emitted(d, p, head, file.data, file.pos)
    modifies file
    ensures Emitted(d, p, head + ItemsBytes(FixedItems(s, hasEntries)), file.data, file.pos)
  {
    hide Emitted, ItemsBytes, BigEndian, IntBytes, RationalBytes, NumberItem, FlagItem;
    NoItems();
    assert head + [] == head;
    ghost var items: seq<Item> := [];
    WriteItem(file, Item(0x3c0a, s.instanceUID), d, p, head, []);
    ghost var b := BaseItems(s);
    assert [] + [b[0]] == b[..1];
    WriteItem(file, Item(0x3f0b, RationalBytes(s.indexEditRate)), d, p, head, b[..1]);
    assert b[..1] + [b[1]] == b[..2];
    WriteItem(file, Item(0x3f0c, IntBytes(8, s.indexStartPosition)), d, p, head, b[..2]);
    assert b[..2] + [b[2]] == b[..3];
    WriteItem(file, Item(0x3f0d, IntBytes(8, s.indexDuration)), d, p, head, b[..3]);
    assert b[..3] + [b[3]] == b[..4];
    WriteItem(file, Item(0x3f05, BigEndian(4, s.editUnitByteCount)), d, p, head, b[..4]);
    assert b[..4] + [b[4]] == b[..5];
    WriteItem(file, Item(0x3f06, BigEndian(4, s.indexSID)), d, p, head, b[..5]);
    assert b[..5] + [b[5]] == b[..6];
    WriteItem(file, Item(0x3f07, BigEndian(4, s.bodySID)), d, p, head, b[..6]);
    assert b[..6] + [b[6]] == b;
    if hasEntries {
      WriteItem(file, Item(0x3f08, BigEndian(1, s.sliceCount)), d, p, head, b);
      WriteItem(file, Item(0x3f0e, BigEndian(1, s.posTableCount)), d, p, head, b + [Item(0x3f08, BigEndian(1, s.sliceCount))]);
    } else if s.forceWriteSliceCount {
      WriteItem(file, Item(0x3f08, BigEndian(1, s.sliceCount)), d, p, head, b);
    }
    ghost var c := CountItems(s, hasEntries);
    assert hasEntries ==> b + [c[0]] + [c[1]] == b + c;
    assert !hasEntries && s.forceWriteSliceCount ==> b + [c[0]] == b + c;
    assert !hasEntries && !s.forceWriteSliceCount ==> b == b + c;
    WriteOptions(file, s, d, p, head, b + c);
  }

  method WriteOptions(file: FlatFile, s: Segment, ghost d: seq<byte>, ghost p: nat, ghost head: seq<byte>, ghost items: seq<Item>)
    requires Emitted(d, p, head + ItemsBytes(items), file.data, file.pos)
    modifies file
    ensures Emitted(d, p, head + ItemsBytes(items + OptionItems(s)), file.data, file.pos)
  {
    hide Emitted, ItemsBytes, BigEndian;
    ghost var e, v := NumberItem(0x3f0f, s.extStartOffset), NumberItem(0x3f10, s.vbeByteCount);
    ghost var i, j := FlagItem(0x3f11, s.singleIndexLocation), FlagItem(0x3f12, s.singleEssenceLocation);
    WriteOption(file, NumberItem(0x3f0f, s.extStartOffset), d, p, head, items);
    WriteOption(file, NumberItem(0x3f10, s.vbeByteCount), d, p, head, items + e);
    WriteOption(file, FlagItem(0x3f11, s.singleIndexLocation), d, p, head, items + e + v);
    WriteOption(file, FlagItem(0x3f12, s.singleEssenceLocation), d, p, head, items + e + v + i);
    WriteOption(file, FlagItem(0x3f13, s.forwardIndexDirection), d, p, head, items + e + v + i + j);
    assert items + e + v + i + j + FlagItem(0x3f13, s.forwardIndexDirection) == items + OptionItems(s);
  }

  /** Tag, local length and the header of an array. */
  method WriteArrayHeader(file: FlatFile, tag: nat, field: nat, n: nat, size: nat, ghost d: seq<byte>, ghost p: nat, ghost out: seq<byte>)
    requires Emitted(d, p, out, file.data, file.pos)
    modifies file
    ensures Emitted(d, p, out + ArrayBytes(tag, field, n, size, []), file.data, file.pos)
  {
    hide Emitted, BigEndian;
    Emit(file, BigEndian(2, tag), d, p, out);
    Emit(file, BigEndian(2, field), d, p, out + BigEndian(2, tag));
    Emit(file, BigEndian(4, n), d, p, out + BigEndian(2, tag) + BigEndian(2, field));
    Emit(file, BigEndian(4, size), d, p, out + BigEndian(2, tag) + BigEndian(2, field) + BigEndian(4, n));
    assert out + BigEndian(2, tag) + BigEndian(2, field) + BigEndian(4, n) + BigEndian(4, size)
        == out + ArrayBytes(tag, field, n, size, []);
  }

  method WriteDeltaEntry(file: FlatFile, e: DeltaEntry, ghost d: seq<byte>, ghost p: nat, ghost out: seq<byte>)
    requires Emitted(d, p, out, file.data, file.pos)
    modifies file
    ensures Emitted(d, p, out + DeltaBytes(e), file.data, file.pos)
  {
    hide Emitted, BigEndian, IntBytes;
    Emit(file, IntBytes(1, e.posTableIndex), d, p, out);
    Emit(file, BigEndian(1, e.slice), d, p, out + IntBytes(1, e.posTableIndex));
    Emit(file, BigEndian(4, e.elementData), d, p, out + IntBytes(1, e.posTableIndex) + BigEndian(1, e.slice));
    assert out + IntBytes(1, e.posTableIndex) + BigEndian(1, e.slice) + BigEndian(4, e.elementData) == out + DeltaBytes(e);
  }

  method WriteIndexEntry(file: FlatFile, slices: nat, positions: nat, e: IndexEntry, ghost d: seq<byte>, ghost p: nat, ghost out: seq<byte>)
    requires Emitted(d, p, out, file.data, file.pos) && |e.sliceOffset| == slices && |e.posTable| == positions
    modifies file
    ensures Emitted(d, p, out + EntryBytes(e), file.data, file.pos)
  {
    hide Emitted, BigEndian, IntBytes, SlotsBytes, PositionsBytes;
    Emit(file, IntBytes(1, e.temporalOffset), d, p, out);
    Emit(file, IntBytes(1, e.keyFrameOffset), d, p, out + IntBytes(1, e.temporalOffset));
    Emit(file, BigEndian(1, e.flags), d, p, out + IntBytes(1, e.temporalOffset) + IntBytes(1, e.keyFrameOffset));
    Emit(file, BigEndian(8, e.streamOffset), d, p,
         out + IntBytes(1, e.temporalOffset) + IntBytes(1, e.keyFrameOffset) + BigEndian(1, e.flags));
    assert out + IntBytes(1, e.temporalOffset) + IntBytes(1, e.keyFrameOffset) + BigEndian(1, e.flags) + BigEndian(8, e.streamOffset)
        == out + HeadBytes(e);
    WriteSlots(file, e.sliceOffset, d, p, out + HeadBytes(e));
    WritePositions(file, e.posTable, d, p, out + HeadBytes(e) + SlotsBytes(e.sliceOffset));
    assert out + HeadBytes(e) + SlotsBytes(e.sliceOffset) + PositionsBytes(e.posTable) == out + EntryBytes(e);
  }

  method WriteSlots(file: FlatFile, s: seq<nat>, ghost d: seq<byte>, ghost p: nat, ghost out: seq<byte>)
    requires Emitted(d, p, out, file.data, file.pos)
    modifies file
    ensures Emitted(d, p, out + SlotsBytes(s), file.data, file.pos)
  {
    hide Emitted, BigEndian;
    assert out + [] == out;
    var i := 0;
    while i < |s|
      invariant 0 <= i <= |s| && Emitted(d, p, out + SlotsBytes(s[..i]), file.data, file.pos)
    {
      Emit(file, BigEndian(4, s[i]), d, p, out + SlotsBytes(s[..i]));
      SlotsNext(s[..i], s[i]);
      assert s[..i] + [s[i]] == s[..i + 1];
      assert out + SlotsBytes(s[..i]) + BigEndian(4, s[i]) == out + SlotsBytes(s[..i + 1]);
      i := i + 1;
    }
    assert s[..i] == s;
  }

  method WritePositions(file: FlatFile, s: seq<Rational>, ghost d: seq<byte>, ghost p: nat, ghost out: seq<byte>)
    requires Emitted(d, p, out, file.data, file.pos)
    modifies file
    ensures Emitted(d, p, out + PositionsBytes(s), file.data, file.pos)
  {
    hide Emitted, IntBytes;
    assert out + [] == out;
    var i := 0;
    while i < |s|
      invariant 0 <= i <= |s| && Emitted(d, p, out + PositionsBytes(s[..i]), file.data, file.pos)
    {
      ghost var o := out + PositionsBytes(s[..i]);
      Emit(file, IntBytes(4, s[i].numerator), d, p, o);
      Emit(file, IntBytes(4, s[i].denominator), d, p, o + IntBytes(4, s[i].numerator));
      PositionsNext(s[..i], s[i]);
      assert s[..i] + [s[i]] == s[..i + 1];
      assert o + IntBytes(4, s[i].numerator) + IntBytes(4, s[i].denominator) == out + PositionsBytes(s[..i + 1]);
      i := i + 1;
    }
    assert s[..i] == s;
  }

  /** The entries of the two arrays, one by one. */
  method WriteDeltas(file: FlatFile, s: seq<DeltaEntry>, ghost d: seq<byte>, ghost p: nat, ghost out: seq<byte>)
    requires Emitted(d, p, out, file.data, file.pos)
    modifies file
    ensures Emitted(d, p, out + DeltasBytes(s), file.data, file.pos)
  {
    hide Emitted, DeltaBytes;
    assert out + [] == out;
    var i := 0;
    while i < |s|
      invariant 0 <= i <= |s| && Emitted(d, p, out + DeltasBytes(s[..i]), file.data, file.pos)
    {
      WriteDeltaEntry(file, s[i], d, p, out + DeltasBytes(s[..i]));
      DeltasNext(s[..i], s[i]);
      assert s[..i] + [s[i]] == s[..i + 1];
      assert out + DeltasBytes(s[..i]) + DeltaBytes(s[i]) == out + DeltasBytes(s[..i + 1]);
      i := i + 1;
    }
    assert s[..i] == s;
  }

  method WriteEntries(file: FlatFile, s: seq<IndexEntry>, slices: nat, positions: nat, ghost d: seq<byte>, ghost p: nat, ghost out: seq<byte>)
    requires Emitted(d, p, out, file.data, file.pos)
    requires forall i | 0 <= i < |s| :: EntryOk(s[i], slices, positions)
    modifies file
    ensures Emitted(d, p, out + EntriesBytes(s), file.data, file.pos)
  {
    hide Emitted, EntryBytes;
    assert out + [] == out;
    var i := 0;
    while i < |s|
      invariant 0 <= i <= |s| && Emitted(d, p, out + EntriesBytes(s[..i]), file.data, file.pos)
    {
      WriteIndexEntry(file, slices, positions, s[i], d, p, out + EntriesBytes(s[..i]));
      EntriesNext(s[..i], s[i]);
      assert s[..i] + [s[i]] == s[..i + 1];
      assert out + EntriesBytes(s[..i]) + EntryBytes(s[i]) == out + EntriesBytes(s[..i + 1]);
      i := i + 1;
    }
    assert s[..i] == s;
  }

  /** The length of a segment, counted entry by entry. */
  method CountSegment(s: Segment, ghost field: nat) returns (segmentLen: nat, deltaEntryArrayLen: nat, indexEntryArrayLen: nat)
    requires SegmentOk(s)
    ensures deltaEntryArrayLen == |s.deltas| && indexEntryArrayLen == |s.entries|
    ensures segmentLen == |SegmentBytes(s, field)| < Pow256(8)
  {
    hide Pos, SegmentBytes, SegmentOk, EntryLen, Pow256;
    PosZero(6);
    PosZero(EntryLen(s));
    segmentLen, deltaEntryArrayLen, indexEntryArrayLen := 80, 0, 0;
    if s.deltas != [] {
      segmentLen := segmentLen + 12;
      while deltaEntryArrayLen < |s.deltas|
        invariant 0 <= deltaEntryArrayLen <= |s.deltas| && segmentLen == 92 + Pos(deltaEntryArrayLen, 6)
      {
        PosNext(deltaEntryArrayLen, 6);
        segmentLen := segmentLen + 6;
        deltaEntryArrayLen := deltaEntryArrayLen + 1;
      }
    }
    if s.entries != [] {
      segmentLen := segmentLen + 22;
      ghost var before := segmentLen;
      while indexEntryArrayLen < |s.entries|
        invariant 0 <= indexEntryArrayLen <= |s.entries| && segmentLen == before + Pos(indexEntryArrayLen, EntryLen(s))
      {
        PosNext(indexEntryArrayLen, EntryLen(s));
        segmentLen := segmentLen + EntryLen(s);
        indexEntryArrayLen := indexEntryArrayLen + 1;
      }
    } else if s.forceWriteSliceCount {
      segmentLen := segmentLen + 5;
    }
    segmentLen := segmentLen + OptionsLen(s);
    SegmentLength(s, field);
  }

  /** A segment as a KLV whose declared length is the number of bytes that follow. */
  function Klv(minLLen: nat, len: nat, value: seq<byte>): (r: seq<byte>)
    requires minLLen <= 9 && len < Pow256(8)
    ensures r != []
  {
    GetLLenIsLeast(minLLen, len);
    INDEX_TABLE_SEGMENT_KEY + LengthBytes(GetLLen(minLLen, len), len) + value
  }

  /** The one-shot writer. */
  method WriteSegment(file: FlatFile, minLLen: nat, s: Segment)
    requires SegmentOk(s) && minLLen <= 9
    modifies file
    ensures var value := SegmentBytes(s, ArrayLen(|s.entries|, EntryLen(s)));
      && |value| < Pow256(8)
      && file.data == Splice(old(file.data), old(file.pos), Klv(minLLen, |value|, value))
      && file.pos == old(file.pos) + |Klv(minLLen, |value|, value)|
  {
    hide Emitted, Pow256, LengthBytes, GetLLen, ItemsBytes, FixedItems, DeltaArray, IndexArray, BigEndian, EntryOk, Splice;
    ghost var d, p := file.data, file.pos;
    NothingEmitted(d, p);
    var segmentLen, deltaEntryArrayLen, indexEntryArrayLen := CountSegment(s, ArrayLen(|s.entries|, EntryLen(s)));
    var field := ArrayLen(indexEntryArrayLen, EntryLen(s));
    assert |SegmentBytes(s, field)| == segmentLen;
    WriteKL(file, INDEX_TABLE_SEGMENT_KEY, minLLen, segmentLen, d, p, []);
    ghost var head := [] + INDEX_TABLE_SEGMENT_KEY + LengthBytes(GetLLen(minLLen, segmentLen), segmentLen);
    WriteFixedItems(file, s, s.entries != [], d, p, head);
    ghost var out := head + ItemsBytes(FixedItems(s, s.entries != []));
    WriteDeltaArray(file, s.deltas, d, p, out);
    out := out + DeltaArray(s.deltas);
    WriteIndexArray(file, s, field, d, p, out);
    JoinParts(head, ItemsBytes(FixedItems(s, s.entries != [])), DeltaArray(s.deltas), IndexArray(s, field));
    assert head + SegmentBytes(s, field) == Klv(minLLen, segmentLen, SegmentBytes(s, field));
    EmittedIs(d, p, out + IndexArray(s, field), file.data, file.pos);
  }

  method WriteDeltaArray(file: FlatFile, s: seq<DeltaEntry>, ghost d: seq<byte>, ghost p: nat, ghost out: seq<byte>)
    requires Emitted(d, p, out, file.data, file.pos)
    modifies file
    ensures Emitted(d, p, out + DeltaArray(s), file.data, file.pos)
  {
    hide Emitted, BigEndian, DeltasBytes;
    assert out + [] == out;
    if s == [] {
      return;
    }
    var n := |s|;
    WriteArrayHeader(file, 0x3f09, ArrayLen(n, 6), n, 6, d, p, out);
    WriteDeltas(file, s, d, p, out + ArrayBytes(0x3f09, ArrayLen(n, 6), n, 6, []));
    assert out + ArrayBytes(0x3f09, ArrayLen(n, 6), n, 6, []) + DeltasBytes(s) == out + DeltaArray(s);
  }

  method WriteIndexArray(file: FlatFile, s: Segment, field: nat, ghost d: seq<byte>, ghost p: nat, ghost out: seq<byte>)
    requires SegmentOk(s) && Emitted(d, p, out, file.data, file.pos)
    modifies file
    ensures Emitted(d, p, out + IndexArray(s, field), file.data, file.pos)
  {
    hide Emitted, BigEndian, EntriesBytes, EntryOk;
    assert out + [] == out;
    if s.entries == [] {
      return;
    }
    var n, L := |s.entries|, EntryLen(s);
    WriteArrayHeader(file, 0x3f0a, field, n, L, d, p, out);
    WriteEntries(file, s.entries, s.sliceCount, s.posTableCount, d, p, out + ArrayBytes(0x3f0a, field, n, L, []));
    assert out + ArrayBytes(0x3f0a, field, n, L, []) + EntriesBytes(s.entries) == out + IndexArray(s, field);
  }

  lemma JoinParts(a: seq<byte>, b: seq<byte>, c: seq<byte>, d: seq<byte>)
    ensures a + b + c + d == a + (b + c + d)
  {
  }

  /** The local length the Avid header writer puts before an index array. */
  function AvidField(n: nat, size: nat): nat
  {
    if ArrayLen(n, size) > UINT16_MAX then UINT16_MAX else ArrayLen(n, size)
  }

  /** The streaming writers: a header that only knows the counts, then the arrays' headers and entries one by one.
      With the Avid array header a long index array gets a saturated local length. */
  method WriteStreaming(file: FlatFile, minLLen: nat, s: Segment, avid: bool)
    requires SegmentOk(s) && minLLen <= 9
    modifies file
    ensures StreamLen(s, |s.deltas|, |s.entries|) < Pow256(8)
    ensures var L := EntryLen(s);
      var value := SegmentBytes(s, if avid then AvidField(|s.entries|, L) else ArrayLen(|s.entries|, L));
      && file.data == Splice(old(file.data), old(file.pos), Klv(minLLen, StreamLen(s, |s.deltas|, |s.entries|), value))
      && file.pos == old(file.pos) + |Klv(minLLen, StreamLen(s, |s.deltas|, |s.entries|), value)|
  {
    hide Emitted, Pow256, LengthBytes, GetLLen, ItemsBytes, FixedItems, DeltaArray, IndexArray, BigEndian, EntryOk, Splice;
    ghost var d, p := file.data, file.pos;
    NothingEmitted(d, p);
    var n, L := |s.entries|, EntryLen(s);
    StreamLenBound(s, |s.deltas|, n);
    var segmentLen := StreamLen(s, |s.deltas|, n);
    WriteKL(file, INDEX_TABLE_SEGMENT_KEY, minLLen, segmentLen, d, p, []);
    ghost var head := [] + INDEX_TABLE_SEGMENT_KEY + LengthBytes(GetLLen(minLLen, segmentLen), segmentLen);
    WriteFixedItems(file, s, n > 0, d, p, head);
    ghost var out := head + ItemsBytes(FixedItems(s, n > 0));
    WriteDeltaArray(file, s.deltas, d, p, out);
    out := out + DeltaArray(s.deltas);
    var field := if avid then AvidField(n, L) else ArrayLen(n, L);
    WriteIndexArray(file, s, field, d, p, out);
    JoinParts(head, ItemsBytes(FixedItems(s, s.entries != [])), DeltaArray(s.deltas), IndexArray(s, field));
    assert head + SegmentBytes(s, field) == Klv(minLLen, segmentLen, SegmentBytes(s, field));
    EmittedIs(d, p, out + IndexArray(s, field), file.data, file.pos);
  }

  lemma StreamLenBound(s: Segment, numDeltas: nat, numEntries: nat)
    ensures StreamLen(s, numDeltas, numEntries) < Pow256(8)
  {
    hide Pos, OptionsLen, Pow256;
    OptionsBound(s);
    Pow256Table();
    assert CountsLen(s, false) <= 5;
    assert StreamLen(s, numDeltas, numEntries) <= 124 + 0x2_0000_0000;
  }

  /* ---- Readers ---- */

  method ReadDeltaEntries(file: FlatFile, n: nat, deltas: seq<DeltaEntry>) returns (r: Option<seq<DeltaEntry>>)
    modifies file`pos
    ensures r == ReadDeltas(file.data, old(file.pos), n, deltas)
    ensures r.Some? ==> file.pos == old(file.pos) + Pos(n, 6)
  {
    hide ParseDelta, Pos, Get;
    ghost var p := file.pos;
    var acc, entry := deltas, n;
    PosZero(6);
    while entry > 0
      invariant 0 <= entry <= n && file.pos == p + Pos(n - entry, 6)
      invariant ReadDeltas(file.data, p, n, deltas) == ReadDeltas(file.data, file.pos, entry, acc)
    {
      var b := ReadBytes(file, 6);
      if b.None? {
        return None;
      }
      PosNext(n - entry, 6);
      acc := acc + [ParseDelta(b.value)];
      entry := entry - 1;
    }
    return Some(acc);
  }

  /** The slice offsets of an entry whose first `used` bytes have been read. */
  method ReadSliceOffsets(file: FlatFile, ghost at: nat, slices: nat, start: nat, L: nat) returns (r: Option<(seq<nat>, nat)>)
    requires file.pos == at + start
    modifies file`pos
    ensures r == ReadSlots(file.data, at, slices, start, L, [])
    ensures r.Some? ==> file.pos == at + r.value.1
  {
    hide Get, FromBigEndian;
    var acc: seq<nat>, used, i := [], start, 0;
    while i < slices && used < L
      invariant 0 <= i <= slices && used >= 0 && file.pos == at + used
      invariant ReadSlots(file.data, at, slices, start, L, []) == ReadSlots(file.data, at, slices - i, used, L, acc)
    {
      var b := ReadBytes(file, 4);
      if b.None? {
        return None;
      }
      acc, used, i := acc + [FromBigEndian(b.value)], used + 4, i + 1;
    }
    return Some((acc, used));
  }

  method ReadPosTable(file: FlatFile, ghost at: nat, positions: nat, start: nat, L: nat) returns (r: Option<(seq<Rational>, nat)>)
    requires file.pos == at + start
    modifies file`pos
    ensures r == ReadPositions(file.data, at, positions, start, L, [])
    ensures r.Some? ==> file.pos == at + r.value.1
  {
    hide Get, ParseRational;
    var acc: seq<Rational>, used, i := [], start, 0;
    while i < positions && used < L
      invariant 0 <= i <= positions && used >= 0 && file.pos == at + used
      invariant ReadPositions(file.data, at, positions, start, L, []) == ReadPositions(file.data, at, positions - i, used, L, acc)
    {
      var b := ReadBytes(file, 8);
      if b.None? {
        return None;
      }
      acc, used, i := acc + [ParseRational(b.value)], used + 8, i + 1;
    }
    return Some((acc, used));
  }

  /** One index entry of L bytes: its head, the slice offsets and positions that begin before L, and the rest skipped. */
  method ReadIndexEntry(file: FlatFile, L: nat, slices: nat, positions: nat) returns (r: Option<IndexEntry>)
    modifies file`pos
    ensures var spec := ReadEntry(file.data, old(file.pos), L, slices, positions);
      && r.Some? == spec.Some? && (r.Some? ==> r.value == spec.value.0 && file.pos == spec.value.1)
    // there are as many slots as begin before L, and it fails exactly if they are not in the file
    ensures var s := if L <= 11 then 0 else Min(slices, (L - 11 + 3) / 4);
      var p := if L <= 11 + 4 * s then 0 else Min(positions, (L - 11 - 4 * s + 7) / 8);
      && (r.Some? <==> old(file.pos) + 11 + 4 * s + 8 * p <= |file.data|)
      && (r.Some? ==> |r.value.sliceOffset| == s && |r.value.posTable| == p
                      && file.pos == old(file.pos) + Max(L, 11 + 4 * s + 8 * p))
    // every field is the big-endian number at its place
    ensures r.Some? ==>
              var d, at, e := file.data, old(file.pos), r.value;
              var u := at + 11 + 4 * |e.sliceOffset|;
              && u + 8 * |e.posTable| <= |d|
              && e.temporalOffset == FromInt(d[at..at + 1]) && e.keyFrameOffset == FromInt(d[at + 1..at + 2])
              && e.flags == FromBigEndian(d[at + 2..at + 3]) && e.streamOffset == FromBigEndian(d[at + 3..at + 11])
              && (forall i | 0 <= i < |e.sliceOffset| ::
                    e.sliceOffset[i] == FromBigEndian(d[at + 11 + 4 * i..at + 11 + 4 * i + 4]))
              && forall i | 0 <= i < |e.posTable| ::
                   && e.posTable[i].numerator == FromInt(d[u + 8 * i..u + 8 * i + 4])
                   && e.posTable[i].denominator == FromInt(d[u + 8 * i + 4..u + 8 * i + 8])
  {
    hide Get, ParseHead, ReadSlots, ReadPositions, FromInt, FromBigEndian;
    ghost var at := file.pos;
    EntryIs(file.data, at, L, slices, positions);
    var head := ReadBytes(file, 11);
    if head.None? {
      return None;
    }
    var slots := ReadSliceOffsets(file, at, slices, 11, L);
    if slots.None? {
      return None;
    }
    var table := ReadPosTable(file, at, positions, slots.value.1, L);
    if table.None? {
      return None;
    }
    if table.value.1 < L {
      Skip(file, L - table.value.1);
    }
    return Some(ParseHead(head.value, slots.value.0, table.value.0));
  }

  method ReadIndexEntries(file: FlatFile, n: nat, L: nat, slices: nat, positions: nat, entries: seq<IndexEntry>)
      returns (r: Option<seq<IndexEntry>>)
    modifies file`pos
    ensures var spec := ReadEntries(file.data, old(file.pos), n, L, slices, positions, entries);
      && r.Some? == spec.Some? && (r.Some? ==> r.value == spec.value.0 && file.pos == spec.value.1)
    // each entry starts where the one before ends: L bytes on, or behind its last slot
    ensures r.Some? ==>
              var t := Stride(L, slices, positions);
              && |r.value| == |entries| + n && r.value[..|entries|] == entries && file.pos == old(file.pos) + Pos(n, t)
              && forall i | 0 <= i < n ::
                   EntryStands(file.data, old(file.pos) + Pos(i, t), L, slices, positions, r.value[|entries| + i],
                               old(file.pos) + Pos(i, t) + t)
  {
    hide ReadEntry, EntryStands, Stride;
    ghost var p := file.pos;
    EntriesAre(file.data, p, n, L, slices, positions, entries);
    var acc, entry := entries, n;
    while entry > 0
      invariant 0 <= entry <= n
      invariant ReadEntries(file.data, p, n, L, slices, positions, entries)
             == ReadEntries(file.data, file.pos, entry, L, slices, positions, acc)
    {
      var e := ReadIndexEntry(file, L, slices, positions);
      if e.None? {
        return None;
      }
      acc := acc + [e.value];
      entry := entry - 1;
    }
    return Some(acc);
  }

  lemma ItemReads(v: Variant, data: seq<byte>, a: Progress)
    ensures ReadItem(v, data, a).Some? ==> ItemStands(v, data, a, ReadItem(v, data, a).value)
    ensures ReadItem(v, data, a).None? ==> forall next :: !ItemStands(v, data, a, next)
    ensures a.pos + 4 <= |data| ==> var h := data[a.pos..a.pos + 4];
              && Get(data, a.pos, 4) == Some(h) && h[..2] == data[a.pos..a.pos + 2] && h[2..] == data[a.pos + 2..a.pos + 4]
  {
    hide ReadItem, ItemStands;
    ItemIs(v, data, a, a);
    forall next
      ensures ReadItem(v, data, a).None? ==> !ItemStands(v, data, a, next)
    {
      ItemIs(v, data, a, next);
    }
    if a.pos + 4 <= |data| {
      PartOf(data, a.pos, 4, 0, 2);
      PartOf(data, a.pos, 4, 2, 4);
    }
  }

  /** One local item: the segment with it, and the bytes it accounts for. */
  method ReadLocalItem(file: FlatFile, v: Variant, seg: Segment, ghost total: nat) returns (r: Option<(Segment, nat)>)
    modifies file`pos
    ensures var spec := ReadItem(v, file.data, Progress(seg, old(file.pos), total));
      && r.Some? == spec.Some?
      && (r.Some? ==> spec.value == Progress(r.value.0, file.pos, total + r.value.1) && r.value.1 > 0)
    // it succeeds exactly if an item stands here, and does what the item says
    ensures r.Some? ==> ItemStands(v, file.data, Progress(seg, old(file.pos), total), Progress(r.value.0, file.pos, total + r.value.1))
    ensures r.None? ==> forall next :: !ItemStands(v, file.data, Progress(seg, old(file.pos), total), next)
    // an item with another tag is skipped
    ensures old(file.pos) + 4 <= |file.data| ==>
              var tag, len := FromBigEndian(file.data[old(file.pos)..old(file.pos) + 2]),
                              FromBigEndian(file.data[old(file.pos) + 2..old(file.pos) + 4]);
              tag !in {0x3c0a, 0x3f05, 0x3f06, 0x3f07, 0x3f08, 0x3f09, 0x3f0a, 0x3f0b, 0x3f0c, 0x3f0d, 0x3f0e, 0x3f0f,
                       0x3f10, 0x3f11, 0x3f12, 0x3f13} ==>
                r == Some((seg, 4 + len)) && file.pos == old(file.pos) + 4 + len
  {
    hide Get, FromBigEndian, Apply, ReadDeltas, ReadEntries, Pos, ItemStands, EntryStands, Stride;
    ghost var p := file.pos;
    ItemReads(v, file.data, Progress(seg, p, total));
    var tl := ReadBytes(file, 4);
    if tl.None? {
      return None;
    }
    var localTag, localLen := FromBigEndian(tl.value[..2]), FromBigEndian(tl.value[2..]);
    if FixedLen(localTag).Some? {
      if localLen != FixedLen(localTag).value {
        return None;
      }
      var value := ReadBytes(file, localLen);
      if value.None? {
        return None;
      }
      return Some((Apply(seg, localTag, value.value), 4 + localLen));
    }
    if localTag != 0x3f09 && localTag != 0x3f0a {
      Skip(file, localLen);
      return Some((seg, 4 + localLen));
    }
    var header := ReadBytes(file, 8);
    if header.None? {
      return None;
    }
    var n, size := FromBigEndian(header.value[..4]), FromBigEndian(header.value[4..]);
    if localTag == 0x3f09 {
      if (n != 0 && size != 6) || localLen != ArrayLen(n, 6) {
        return None;
      }
      var deltas := ReadDeltaEntries(file, n, seg.deltas);
      if deltas.None? {
        return None;
      }
      return Some((seg.(deltas := deltas.value), 4 + localLen));
    }
    if v == Standard && localLen != ArrayLen(n, size) {
      return None;
    }
    var entries := ReadIndexEntries(file, n, size, seg.sliceCount, seg.posTableCount, seg.entries);
    if entries.None? {
      return None;
    }
    return Some((seg.(entries := entries.value), 4 + if v == Standard then localLen else 8 + Pos(n, size)));
  }

  /** Reads the value of a segment's KLV, `segmentLen` bytes. */
  method ReadIndexTableSegment(v: Variant, file: FlatFile, segmentLen: nat) returns (r: Option<Segment>, ghost steps: seq<Progress>)
    modifies file`pos
    ensures var spec := ReadSegment(v, file.data, old(file.pos), segmentLen);
      && r.Some? == spec.Some? && (r.Some? ==> r.value == spec.value.seg && file.pos == spec.value.pos)
    // from an empty segment it goes item by item as long as the length is not used up
    ensures steps != [] && steps[0] == Progress(NewSegment(), old(file.pos), 0)
    ensures forall i | 0 <= i < |steps| - 1 ::
              steps[i].total < segmentLen && ItemStands(v, file.data, steps[i], steps[i + 1])
    // and succeeds exactly if the items add up to it
    ensures var end := steps[|steps| - 1];
      && (r.Some? <==> end.total == segmentLen) && (r.Some? ==> end == Progress(r.value, file.pos, segmentLen))
      && (r.None? ==> end.total > segmentLen || forall next :: !ItemStands(v, file.data, end, next))
  {
    hide ReadItem, ItemStands;
    ghost var p := file.pos;
    steps := ItemsAre(v, file.data, Progress(NewSegment(), p, 0), segmentLen);
    var newSegment, totalLen := NewSegment(), 0;
    while totalLen < segmentLen
      invariant totalLen >= 0
      invariant ReadSegment(v, file.data, p, segmentLen)
             == ReadItems(v, file.data, Progress(newSegment, file.pos, totalLen), segmentLen)
    {
      var item := ReadLocalItem(file, v, newSegment, totalLen);
      if item.None? {
        return None, steps;
      }
      newSegment, totalLen := item.value.0, totalLen + item.value.1;
    }
    if totalLen != segmentLen {
      return None, steps;
    }
    return Some(newSegment), steps;
  }

  /** A way to write a segment: in one go, or streamed with one of the two index array headers. */
  datatype Writer = OneShot | Streaming(avid: bool)

  function FieldOf(w: Writer, s: Segment): nat
  {
    if w == Streaming(true) then AvidField(|s.entries|, EntryLen(s)) else ArrayLen(|s.entries|, EntryLen(s))
  }

  /** Whatever the writer, the local length it gives the index array is right exactly if it fits 16 bits. */
  lemma FieldFits(w: Writer, s: Segment)
    requires ArraysBelow32(s)
    ensures EntriesFit(s, FieldOf(w, s)) <==> s.entries == [] || 8 + Pos(|s.entries|, EntryLen(s)) <= UINT16_MAX
  {
    hide Pos, EntryLen;
  }

  lemma KlvAt(data: seq<byte>, p: nat, minLLen: nat, value: seq<byte>)
    requires minLLen <= 9 && |value| < Pow256(8) && At(data, p, Klv(minLLen, |value|, value))
    ensures ParseLength(data, p + 16) == Some((GetLLen(minLLen, |value|), |value|))
    ensures At(data, p + 16 + GetLLen(minLLen, |value|), value)
  {
    hide LengthBytes, GetLLen, ParseLength, Pow256, LengthFits;
    GetLLenIsLeast(minLLen, |value|);
    var llen := GetLLen(minLLen, |value|);
    AtParts(data, p, INDEX_TABLE_SEGMENT_KEY + LengthBytes(llen, |value|), value);
    AtParts(data, p, INDEX_TABLE_SEGMENT_KEY, LengthBytes(llen, |value|));
    LengthAt(data, p + 16, llen, |value|);
  }

  /** Writing a segment and reading the file back from where its value starts: the segment returns, without the
      counts that were not written, exactly if the arrays' lengths fit 16 bits; for the Avid reader the delta
      array's alone. */
  method WriteThenRead(file: FlatFile, minLLen: nat, s: Segment, w: Writer, v: Variant) returns (r: Option<Segment>)
    requires SegmentOk(s) && ArraysBelow32(s) && minLLen <= 9
    requires w.Streaming? ==> 22 + Pos(|s.entries|, EntryLen(s)) <= UINT32_MAX && 12 + Pos(|s.deltas|, 6) <= UINT32_MAX
    modifies file
    ensures r == if && (s.deltas == [] || 8 + Pos(|s.deltas|, 6) <= UINT16_MAX)
                    && (v == Avid || s.entries == [] || 8 + Pos(|s.entries|, 11 + s.sliceCount * 4 + s.posTableCount * 8) <= UINT16_MAX)
                 then Some(s.(sliceCount := if s.entries != [] || s.forceWriteSliceCount then s.sliceCount else 0,
                              posTableCount := if s.entries != [] then s.posTableCount else 0,
                              forceWriteSliceCount := false))
                 else None
  {
    hide SegmentBytes, LengthBytes, GetLLen, ReadSegment, SegmentOk, Pos, ParseLength, Splice, StreamLen, Klv, ArrayLen, AvidField, EntriesFit, ItemStands, Steps, Pow256;
    var p := file.pos;
    ghost var d := file.data;
    ghost var value := SegmentBytes(s, FieldOf(w, s));
    match w {
      case OneShot => WriteSegment(file, minLLen, s);
      case Streaming(avid) => WriteStreaming(file, minLLen, s, avid);
    }
    StreamLenExact(s, FieldOf(w, s));
    FieldFits(w, s);
    SplicedAt(d, p, Klv(minLLen, |value|, value));
    KlvAt(file.data, p, minLLen, value);
    ReadsBackExactly(v, file.data, p + 16 + GetLLen(minLLen, |value|), s, FieldOf(w, s));
    var ok := file.Seek(p + 16, SeekSet);
    var length := ReadL(file);
    ghost var steps;
    r, steps := ReadIndexTableSegment(v, file, length.value.1);
  }
}
