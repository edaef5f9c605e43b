# libMXF storage layers, codecs and metadata graph: a verified model

libMXF reads and writes MXF files through an `MXFFile` interface. Behind it stand several storage layers that do
ring-buffer, LRU or chunk arithmetic and must all look like one flat byte file; above it stand the KLV, index-table
and header-metadata codecs and the graph of metadata sets. This project models these parts in Dafny and proves what
they are for.

The one reference everything is measured against is the flat file: `Bytes.Splice` says what a file holds after a
write and `Bytes.Extract` what a read yields.

- `Bytes.dfy`: byte runs and the flat file's laws (`Bytes`); page offsets and ring slots, by recursion so that proofs stay linear (`Grid`).
- `MxfFile.dfy`: a disk file (`MxfFile`), big-endian integers and BER lengths, section 8.1.3 of ITU-T X.690 (`Ber`).
- `CacheModel.dfy`, `CacheFile.dfy`: the write-back page cache: invariants and elementary steps as values, then the class with its loops.
- `PageFile.dfy`: the file kept as many page files with at most 32 descriptors open in a linked LRU list.
- `MemoryFile.dfy`: the file kept in memory in chunks.
- `Runs.dfy`: whole runs of operations on the three layers against the flat file, and what can go wrong in them.
- `LocalSet.dfy`: local items (tag, length, value) at a place in a file, and sequential output.
- `IndexTable.dfy`, `IndexProofs.dfy`: index table segments, section 11 of SMPTE ST 377-1:2011: three writers, two readers.
- `HeaderMetadata.dfy`: metadata sets as KLVs: sizes, order, fillers, reading back.
- `AvidHeader.dfy`: Avid header output with its root set and object directory.
- `SetsIterator.dfy`: finding sets by UID from a moving iterator.
- `CloneSet.dfy`: cloning a set with all it refers to strongly.
- `DataModel.dfy`: set, item and type definitions: lookup along parents, cloning, linking, checking.
- `WeakReferences.dfy`: the Avid meta-dictionary's weak references, filled in at the end.

## What was found

Where the code does not do what it is for on every input, the exact condition is proved.

- **Flushing the cache.** The asserts of the flush loop hold if and only if the flush does not start strictly inside the
  upper part of a dirty run that wraps past the last slot (`CacheModel.FlushAssertsExactly`). So a read or write is
  stopped by them if and only if its first page is missing and a flush may not start in that page's slot
  (`CacheRun.AbortsExactly`). Reads, writes and flushes lead to no such place; a seek with dirty pages can
  (`CacheRun.SeekMayAbort`), and a run that flushes everything before each seek is never stopped (`CacheRun.Run`).
- **The blank slot.** A new cache has slot 0 at position -1, and a write there never loads the page. The page shows
  the right bytes, whatever the slot's memory held, if and only if the write starts where the page does and covers the
  page or the rest of the file (`CacheModel.BlankWriteExact`). In a cached page a write shows the right bytes, the gap
  before it read as zeros, if and only if it starts at or before the end of the page's bytes (`CacheModel.HeldWriteExact`).
- **The read-ahead of a write.** The page a write needs is in the cache after the read-ahead if and only if the pages
  read do not go once round the ring over it (`CacheFile.CacheFile.ReadAhead`). Otherwise, if the read-ahead ends inside
  the file, the write loop stays where it is for ever (`CacheFile.CacheFile.WriteStuck`). If it comes up short the loop
  takes the place for the end of the file: it claims the page empty, and the slot's memory, which begins with the bytes
  of the page a ring ahead, stands in the file before the write (`CacheFile.CacheFile.WriteInside`). The file is right
  then if and only if that memory equals the page's own bytes (`CacheModel.StaleExactly`); a file, a ring of any size and
  a write for which it is not are in `CacheAhead.ReadAheadCorrupts`, and the wrong byte reaches the target in
  `CacheAhead.WrongByteWritten`.
- **32-bit page counts.** `(count + pageSize - 1) / pageSize` is computed in 32 bits and gives 0 within a page of 2^32
  (`Grid.PagesFor32Wraps`). A read of such a count stops where a page is missing (`CacheFile.CacheFile.Read`), and a
  write's turn then changes nothing, so the loop does not end (`CacheFile.CacheFile.WriteMiss`).
- **SEEK_END on the cache** counts from the target's size. It means the presented file's end if and only if nothing is
  dirty or the last dirty page ends where the target does or before (`CacheFile.CacheFile.Seek`); something written to a
  new cache and not flushed is missed (`CacheRun.SeekEndMissesDirty`).
- **Gaps in a memory file.** A write past the end fills the gap correctly if and only if the file ends at a chunk
  boundary or the gap reaches past the chunk it ends in (`MemoryFile.MemoryFile.FillGap`).
- **Index arrays beyond 16 bits.** The writers cast the local length to 16 bits. A segment is read back if and only if
  its arrays' lengths fit; the Avid reader needs that of the delta array only (`IndexProofs.ReadsBackExactly`). The
  streaming header's length is right if and only if no 32-bit term wraps (`IndexTable.StreamLenExact`).
- **Fixed space of a set.** A set that can be written takes its predicted size if and only if the fill does not pass
  32 bits (`MetadataModel.SetSizeExact`).
- **Redefined items.** Cloned into a new model, a set definition finds the farthest parent's definition of an item, the
  original the nearest; for a set and all above it these agree if and only if nothing is redefined (`Definitions.AgreeExactly`).
- **Avid output.** Every set is written exactly once if and only if every set's key belongs to exactly one of the four
  parts of the output (`AvidModel.WrittenOnce`); for the classes of a data model that is so for all keys if and only if
  neither MetaDictionary nor Preface descends from MetaDefinition, and whatever else descends from MetaDictionary
  does (`AvidModel.PartsOfModel`).
- **Repeated UIDs.** A search for a UID from the iterator's place finds what a search from the start finds if and only
  if the UID does not occur on both sides of that place (`SetsIterator.StartMattersExactly`, with `StartMatters` as the
  smallest case).

## Model

| member | source | states |
|---|---|---|
| `Bytes.SpliceJoin` | mxf/mxf_page_file.c:525-546 | two adjoining writes are one write: the law by which writes may be cut at page and chunk boundaries |
| `Ber.GetLLenIsLeast` | mxf/mxf_file.c:737-766 | the chosen length-field size is the least one, not below the file's minimum, that can hold the length, for all 64-bit lengths |
| `Ber.LengthRoundTrip` | mxf/mxf_file.c:553-581 | a written length field is read back with its own size and its length, wherever it stands |
| `Ber.WriteFixedL` | mxf/mxf_file.c:681-711 | writes exactly the length field if the length fits the size asked for, the length itself in one byte or 0x80 with the number of bytes and then the length, and otherwise nothing |
| `Ber.ReadL` | mxf/mxf_file.c:553-581 | reads the length field at the position: a byte below 0x80 is the length, another one counts the bytes of the big-endian length; fails on a truncated one or one of more than 8 bytes |
| `Ber.BigEndianRoundTrip` | mxf/mxf_file.c:422-450 | integers written big-endian are read back |
| `Ber.MostSignificantFirst` | mxf/mxf_file.c:436-450 | the first byte of a number counts most |
| `Grid.PagesFor32Exact` | mxf/mxf_cache_file.c:259-261 | the 32-bit count of pages is the true one below 2^32 |
| `Grid.PagesFor32Wraps` | mxf/mxf_cache_file.c:259-261 | and is zero for requests within a page of 2^32, whatever the page size |
| `CacheModel.FlushKeepsInv` | mxf/mxf_cache_file.c:113-143 | writing out a prefix or suffix of the dirty run keeps the cache's invariant: dirty slots stay one run in slots and file positions, and clean pages agree with the target |
| `CacheModel.LoadKeepsInv` | mxf/mxf_cache_file.c:190-207 | loading pages read from the target into clean slots keeps it |
| `CacheModel.MarkKeepsInv` | mxf/mxf_cache_file.c:243-258 | dirtying the page behind the dirty run keeps it |
| `CacheModel.StoreKeepsInv` | mxf/mxf_cache_file.c:260-268 | storing bytes in a dirty page keeps it and is a write to the presented file |
| `CacheModel.FlushAssertsExactly` | mxf/mxf_cache_file.c:92-152 | the flush loop's asserts hold exactly when the flush does not start inside the upper part of a wrapped run |
| `CacheModel.AccessAssertsExactly` | mxf/mxf_cache_file.c:185-191 | an access to a missing page fails an assert of the flush loop exactly when a flush may not start in the page's slot |
| `CacheModel.BlankWriteExact` | mxf/mxf_cache_file.c:238-268 | a write to a page in a blank slot, wherever the file ends, shows the right bytes, whatever the memory held, exactly when it starts with the page and covers it or the rest of the file |
| `CacheModel.HeldWriteExact` | mxf/mxf_cache_file.c:243-268 | a write to a cached page shows the right bytes, whatever the memory held behind the page's, exactly when it starts at or before their end |
| `CacheModel.StaleExactly` | mxf/mxf_cache_file.c:238-281 | a page claimed in the middle of the file presents the right file exactly when the slot's memory equals the page's bytes before the write |
| `CacheFile.CacheFile.constructor` | mxf/mxf_cache_file.c:415-433 | a new cache presents its target; only slot 0 is blank |
| `CacheFile.Open` | mxf/mxf_cache_file.c:392-433 | the page size is the least multiple of the system's that is not below the one asked for, the cache holds as many pages as fit, and opening fails exactly when not even one does or so many that their arithmetic could overflow |
| `CacheFile.CacheFile.GetCurrentPageInfo` | mxf/mxf_cache_file.c:78-90 | the page, its slot and the offset in it for the position |
| `CacheFile.CacheFile.PlanFlush` | mxf/mxf_cache_file.c:98-131 | a turn of the flush loop writes a run that may be written, within the ring, and makes progress |
| `CacheFile.CacheFile.FlushRun` | mxf/mxf_cache_file.c:113-143 | writing a run that may be written changes nothing presented, cleans its slots and takes its pages off the dirty run |
| `CacheFile.CacheFile.FlushTurn` | mxf/mxf_cache_file.c:97-151 | a turn keeps the invariant and the presented file, and the next turn is safe again |
| `CacheFile.CacheFile.FlushDirtyPages` | mxf/mxf_cache_file.c:92-152 | flushing terminates, changes no presented byte, leaves every requested slot clean, and from the front of the run takes exactly the pages asked for |
| `CacheFile.CacheFile.FetchPages` | mxf/mxf_cache_file.c:193-209 | pages are read from the target into clean slots; nothing is read exactly when the file ends before the page |
| `CacheFile.CacheFile.LoadPages` | mxf/mxf_cache_file.c:184-210 | a missing page is loaded after its slots have been flushed, or the file ends before it; with a count of pages that wraps to 0 nothing happens |
| `CacheFile.CacheFile.Read` | mxf/mxf_cache_file.c:165-220 | a read returns exactly the presented bytes from the position up to the end of the file and changes none of them, unless the count of pages wraps, and then it stops at the first missing page; nothing becomes dirty or blank, and the pages read stay as far as the ring holds them |
| `CacheFile.CacheFile.BlankSlots` | mxf/mxf_cache_file.c:276-281 | the slots wanted are flushed and forgotten; nothing presented changes |
| `CacheFile.CacheFile.ReadAhead` | mxf/mxf_cache_file.c:282-291 | after the read-ahead the page at the position is cached, or writing at the end has begun there, exactly when the read-ahead does not evict that page; otherwise a page a ring ahead is in its slot, and writing at the end has begun exactly when it came up short |
| `CacheFile.CacheFile.WriteMiss` | mxf/mxf_cache_file.c:269-292 | the miss branch in all its cases: at the end, inside the file, with a read-ahead that does not fit, and with a count of pages that wraps, where nothing changes |
| `CacheFile.CacheFile.WriteStuck` | mxf/mxf_cache_file.c:229-293 | after any number of turns with a read-ahead that evicts its page and does not come up short nothing has been written and the loop is where it was |
| `CacheFile.CacheFile.ClaimInside` | mxf/mxf_cache_file.c:238-268 | a page claimed empty in the middle of the file shows the slot's memory before the write; if it is filled to its end the cache is in order and presents that |
| `CacheFile.CacheFile.WriteInside` | mxf/mxf_cache_file.c:238-281 | so it goes after a read-ahead that evicted its page and came up short; the memory begins with the bytes of the page a ring ahead |
| `CacheFile.CacheFile.MarkDirty` | mxf/mxf_cache_file.c:243-258 | a page behind the dirty run extends it and the target stays; for any other page the whole run is flushed first, the target is the presented file then, and the page is the only dirty one |
| `CacheFile.CacheFile.WriteTurn` | mxf/mxf_cache_file.c:229-293 | each turn of the write loop writes a piece or brings the page nearer, and keeps what has been written |
| `CacheFile.CacheFile.Write` | mxf/mxf_cache_file.c:222-296 | a write terminates and is one write to the presented file; data appended in whole pages beside the dirty ones, as far as the ring holds both, writes nothing to the target and leaves all its pages dirty |
| `CacheFile.CacheFile.Seek` | mxf/mxf_cache_file.c:321-359 | the position moves if it would not be negative; an end-relative seek counts from the target's end, which is the presented file's exactly when nothing is dirty or the last dirty page ends inside the target |
| `CacheFile.CacheFile.Size` | mxf/mxf_cache_file.c:371-383 | the size is the presented file's |
| `CacheFile.CacheFile.Flush` | mxf/mxf_cache_file.c:477-488 | as many pages as the size needs leave the front of the run, and their size is returned |
| `CacheFile.CacheFile.Close` | mxf/mxf_cache_file.c:154-163 | closing leaves the target equal to the presented file |
| `CacheRun.AbortsExactly` | mxf/mxf_cache_file.c:165-296 | a read or write is stopped by an assert at its first access exactly when the page at the position is missing and a flush may not start in its slot |
| `CacheRun.Step` | mxf/mxf_cache_file.c:165-359 | an operation that is not stopped does what it does on the flat file; only a seek with dirty pages can lead to where the next one is stopped |
| `CacheRun.Run` | mxf/mxf_cache_file.c:165-383 | any run of reads, writes, flushes and seeks on a cache that agrees with a flat file returns what that returns and reports its sizes, up to the first operation that an assert stops; none is stopped if everything is flushed before each seek |
| `CacheRun.RunNew` | mxf/mxf_cache_file.c:154-383 | a run over an empty target that is not stopped leaves the flat file's bytes in it when the cache is closed |
| `CacheRun.SeekMayAbort` | mxf/mxf_cache_file.c:92-152 | two pages written and flushed, three written, and a seek in a ring of four lead to a place where a read is stopped |
| `CacheRun.RunSequential` | mxf/mxf_cache_file.c:154-383 | sequential writes of any sizes with flushes between them report the bytes written so far and leave their concatenation |
| `CacheRun.SequentialAppends` | mxf/mxf_cache_file.c:222-296 | such a run only appends |
| `CacheRun.SeekEndMissesDirty` | mxf/mxf_cache_file.c:321-359 | after a write to a new cache that has not been flushed a seek to the end goes to position 0 |
| `CacheAhead.ReadAheadCorrupts` | mxf/mxf_cache_file.c:229-293 | in a ring of any size, over a file one byte longer than the ring, reading the last byte and then writing as many pages as the ring has from position 2 makes the file begin with its last byte |
| `CacheAhead.WrongByteWritten` | mxf/mxf_cache_file.c:154-296 | with one page that byte is in the target after closing |
| `PageModel.WriteKeepsPaged` | mxf/mxf_page_file.c:453-464 | writing in one page at or before the file's end is one flat write, and keeps all pages but the last full |
| `PageModel.ReadInPage` | mxf/mxf_page_file.c:407-418 | reading in one page is reading the flat file |
| `PageModel.AddPage` | mxf/mxf_page_file.c:360-365 | an empty page behind full ones changes nothing |
| `PageModel.OpenAreMostRecent` | mxf/mxf_page_file.c:174-306 | after any history the open pages are the most recently used ones, as many as there are descriptors, in order of last use; so the one closed is the least recently used |
| `PageFile.DescriptorList.MoveToTail` | mxf/mxf_page_file.c:187-220 | an open descriptor moves to the end of a well-formed doubly linked list |
| `PageFile.DescriptorList.CloseHead` | mxf/mxf_page_file.c:223-251 | the head leaves the list and its page has no descriptor |
| `PageFile.DescriptorList.Append` | mxf/mxf_page_file.c:292-303 | a new descriptor goes to the end |
| `PageFile.PageFile.UseOpenPage` | mxf/mxf_page_file.c:187-220 | using an open page makes it the most recently used; descriptors and pages stay linked one to one |
| `PageFile.PageFile.MakeRoom` | mxf/mxf_page_file.c:223-251 | if all descriptors are taken the least recently used page is closed, and no other |
| `PageFile.PageFile.AddDescriptor` | mxf/mxf_page_file.c:282-303 | a newly opened page is linked with a descriptor at its start, the most recently used |
| `PageFile.PageFile.OpenFile` | mxf/mxf_page_file.c:174-317 | opening keeps the list and its links, orders pages by last use, and creates or empties a page's file only when it is first opened for writing or missing |
| `PageFile.MovePages` | mxf/mxf_page_file.c:342-355 | page records at new places are equal to the old ones, and each open descriptor points at its page's new place |
| `PageFile.PageFile.Reallocate` | mxf/mxf_page_file.c:339-358 | when the page array moves every open descriptor is pointed at its page's new place |
| `PageFile.PageFile.AppendPage` | mxf/mxf_page_file.c:331-366 | a record for one more page, at the end of an array that has room for it |
| `PageFile.PageFile.OpenPage` | mxf/mxf_page_file.c:319-374 | the page at the position is opened, a new one being added at the end of full pages unless the file is only read; no other page's file changes |
| `PageFile.PageFile.OpenPages` | mxf/mxf_page_file.c:174-306 | at any time the open pages are the most recently used ones and no more than the descriptors allow |
| `PageFile.PageFile.ReadFromPage` | mxf/mxf_page_file.c:376-419 | as many bytes of the flat file as lie in the page at the position |
| `PageFile.PageFile.WriteToPage` | mxf/mxf_page_file.c:421-465 | as many bytes as fit in the page are written to the flat file, none if it is only read |
| `PageFile.PageFile.Read` | mxf/mxf_page_file.c:512-529 | a read is a read of the flat file however many pages it crosses |
| `PageFile.PageFile.Write` | mxf/mxf_page_file.c:531-548 | a write is one write to the flat file however many pages it crosses |
| `PageFile.PageFile.Size` | mxf/mxf_page_file.c:502-510 | the size is the flat file's |
| `PageFile.PageFile.Seek` | mxf/mxf_page_file.c:583-617 | the position moves exactly within the file |
| `PageFile.Open` | mxf/mxf_page_file.c:631-892 | an opened file presents what its page files hold, with nothing open yet |
| `PageRun.Run` | mxf/mxf_page_file.c:502-617 | any run of reads, writes and seeks returns what the flat file returns and leaves its bytes |
| `MemoryModel.StoreKeepsFilled` | mxf/mxf_memory_file.c:244-266 | storing bytes in a chunk is one flat write and keeps all chunks but the last full |
| `MemoryModel.ExtendKeepsFilled` | mxf/mxf_memory_file.c:104-138 | new empty chunks change nothing |
| `MemoryModel.GrowKeepsFilled` | mxf/mxf_memory_file.c:225-243 | bytes already in the buffer of the last used chunk can be counted as part of the file |
| `MemoryFile.MemoryFile.GetSize` | mxf/mxf_memory_file.c:452-461 | the size is the flat file's |
| `MemoryFile.MemoryFile.GetChunkPos` | mxf/mxf_memory_file.c:76-102 | the chunk and the offset in it for a position in or at the end of the chunks |
| `MemoryFile.MemoryFile.Extend` | mxf/mxf_memory_file.c:104-138 | the chunks get room for the bytes asked for, and no more than needed |
| `MemoryFile.MemoryFile.FillGap` | mxf/mxf_memory_file.c:225-243 | the gap before a write is made part of the file exactly when the guard it depends on holds; otherwise the chunk it starts in gets the wrong size |
| `MemoryFile.MemoryFile.Write` | mxf/mxf_memory_file.c:202-270 | a write, after the gap before it if there is one, is one write to the flat file |
| `MemoryFile.MemoryFile.Read` | mxf/mxf_memory_file.c:164-200 | a read is a read of the flat file, and sets the end-of-file flag exactly when it comes up short |
| `MemoryFile.MemoryFile.Seek` | mxf/mxf_memory_file.c:295-324 | the position moves if it would not be negative, counted from the virtual start |
| `MemoryFile.MemoryFile.FlushToFile` | mxf/mxf_memory_file.c:463-487 | exactly the file's bytes are written out |
| `MemoryRun.Run` | mxf/mxf_memory_file.c:164-324 | any run of reads, writes and seeks with chunks of any size and any virtual start returns what the flat file returns, and flushing emits exactly its bytes |
| `LocalSet.WriteItem` | mxf/mxf_file.c:649-655 | a local item is emitted as tag, 16-bit length and value |
| `LocalSet.WriteKL` | mxf/mxf_file.c:673-679 | a key and the shortest length field the file allows |
| `IndexModel.DeltaRoundTrip` | mxf/mxf_index_table.c:702-709 | a delta entry is read back as written |
| `IndexProofs.HeadRoundTrip` | mxf/mxf_index_table.c:722-741 | so are the fixed fields of an index entry |
| `IndexTable.SegmentLength` | mxf/mxf_index_table.c:247-297 | the counted segment length is the number of bytes of the segment, for any lists |
| `IndexTable.CountSegment` | mxf/mxf_index_table.c:247-297 | counting entry by entry gives that length |
| `IndexTable.StreamLenExact` | mxf/mxf_index_table.c:596-632 | the streaming header declares that length exactly when no 32-bit term wraps |
| `IndexTable.WriteSegment` | mxf/mxf_index_table.c:247-396 | the one-shot writer emits a KLV whose declared length is the number of bytes that follow |
| `IndexTable.WriteStreaming` | mxf/mxf_index_table.c:596-741 | the streaming writers emit the same bytes as the one-shot writer |
| `IndexTable.WriteIndexEntry` | mxf/mxf_index_table.c:722-741 | an index entry with its slots |
| `IndexProofs.SlotsAre` | mxf/mxf_index_table.c:547-551 | of an entry's slice offsets as many are read as begin before its length, each from its 4 bytes |
| `IndexProofs.PositionsAre` | mxf/mxf_index_table.c:552-557 | so are the positions, numerator and denominator |
| `IndexProofs.EntryIs` | mxf/mxf_index_table.c:526-570 | what an index entry says, from its bytes |
| `IndexProofs.WholeSlots` | mxf/mxf_index_table.c:547-570 | the next entry is the entry length further on if that is 11 and whole slots, or more than all of them |
| `IndexProofs.EntriesAre` | mxf/mxf_index_table.c:538-571 | entries stand behind each other, each as far on as the one before takes |
| `IndexProofs.DeltasAre` | mxf/mxf_index_table.c:495-515 | delta entries are read from 6 bytes each |
| `IndexProofs.ItemIs` | mxf/mxf_index_table.c:426-577 | a reader takes a step exactly if an item stands there: each known tag sets its field from as many bytes as it has, the arrays join what was read before, and another tag changes nothing |
| `IndexTable.ReadLocalItem` | mxf/mxf_index_table.c:426-577 | one item is read as it stands; one with an unknown tag leaves the segment as it is and the next is behind its value |
| `IndexTable.ReadIndexEntries` | mxf/mxf_index_table.c:538-571 | the entries of an index array, one behind the other |
| `IndexTable.ReadIndexTableSegment` | mxf/mxf_index_table.c:398-586 | from an empty segment the reader goes item by item, each as it stands in the file, as long as the length is not used up, and succeeds exactly if the items' lengths add up to it |
| `IndexTable.ReadIndexEntry` | mxf/mxf_index_table.c:526-563 | for any entry length and numbers of slots: each field is the big-endian number at its place, a slice offset or position is there exactly if it begins before the entry's length is used up, the rest is skipped, and it fails exactly if these bytes are not in the file |
| `IndexProofs.ReadsBackExactly` | mxf/mxf_index_table.c:247-586 | a segment is read back, without the counts that were not written, and ends where it should, exactly if its arrays' lengths fit; for the Avid reader the delta array's alone |
| `IndexProofs.AvidAccepts` | mxf/mxf_avid.c:1123-1325 | whatever the standard reader accepts the Avid reader accepts with the same result, unless an array's length wraps 32 bits |
| `IndexTable.WriteThenRead` | mxf/mxf_avid.c:873-891 | whichever writer wrote a segment and whichever reader reads it, it returns with all its fields but the counts that were not written, exactly if the lengths fit; with the saturated Avid length the Avid reader recovers arrays of any length |
| `MetadataModel.FillLLen` | mxf/mxf_partition.c:575-593 | the length field chosen for a filler leaves room for itself and holds the rest |
| `MetadataModel.FillIsZeros` | mxf/mxf_partition.c:575-598 | a filler has exactly the size asked for: fill key, length and zeros |
| `MetadataModel.SetLLenIsLeast` | mxf/mxf_header_metadata.c:1032-1036 | the length field of a set has the least size that holds the length and is not below 4 bytes or the file's minimum |
| `MetadataModel.SetSizeExact` | mxf/mxf_header_metadata.c:1019-1117 | a set that can be written takes its predicted size exactly if the fill does not pass 32 bits |
| `HeaderMetadata.WriteZeros` | mxf/mxf_file.c:796-832 | exactly the zeros asked for, in blocks of a growing buffer |
| `HeaderMetadata.WriteFill` | mxf/mxf_partition.c:575-598 | a filler of exactly the size asked for, or a failure if it is too small |
| `HeaderMetadata.GetSetSize` | mxf/mxf_header_metadata.c:1092-1117 | the predicted size of a set |
| `HeaderMetadata.WriteSet` | mxf/mxf_header_metadata.c:1019-1064 | a set, its length field of 4 bytes where possible, and its fill; fails exactly when the fixed space cannot be met |
| `HeaderMetadata.FindSingularSetByKey` | mxf/mxf_header_metadata.c:605-629 | the set with the key if it is the only one with that key, and none otherwise |
| `HeaderOrder.OneWithKey` | mxf/mxf_header_metadata.c:605-629 | a single set is found with a key exactly if only one has it |
| `HeaderOrder.OrderIsComplete` | mxf/mxf_header_metadata.c:995-1016 | every set is written exactly once, the Preface first, exactly when there is one Preface |
| `HeaderOrder.OrderKept` | mxf/mxf_header_metadata.c:995-1016 | behind the Preface stand all other sets in the order of the header |
| `HeaderOrder.HeaderSizeExact` | mxf/mxf_header_metadata.c:995-1117 | the sets are written in as many bytes as their predicted sizes add up to |
| `HeaderMetadata.WriteHeaderSets` | mxf/mxf_header_metadata.c:995-1016 | the sets in that order; fails exactly when there is not one Preface or a fixed space cannot be met |
| `MetadataModel.UidIs` | mxf/mxf_header_metadata.c:903-907 | the UID of a set is the value of its last InstanceUID item; without one there is none |
| `MetadataModel.SetItemsRead` | mxf/mxf_header_metadata.c:880-929 | whatever items a set has in the file, those registered and known are read, in their order, with their keys, tags and values |
| `MetadataModel.PassedOver` | mxf/mxf_header_metadata.c:776-838 | fillers of any version and unknown sets are passed over to where their length says |
| `MetadataModel.SetIs` | mxf/mxf_header_metadata.c:857-957 | a reader makes a set of the bytes exactly if one stands there, for any bytes |
| `MetadataModel.StepsRead` | mxf/mxf_header_metadata.c:880-929 | items that stand behind each other and add up to the length are read |
| `MetadataModel.SetsTaken` | mxf/mxf_header_metadata.c:776-838 | a header is read KLV by KLV |
| `HeaderMetadata.ReadItems` | mxf/mxf_header_metadata.c:880-929 | item by item, the first in any case, as long as the set's length is not used up; it succeeds exactly if the items add up to it, and notes the value of the last InstanceUID item |
| `HeaderMetadata.ReadKnownSet` | mxf/mxf_header_metadata.c:857-957 | succeeds exactly if a set stands there: its items add up to its length, and its UID, which is not null, is the start of the last InstanceUID item's value; unknown items are skipped |
| `HeaderMetadata.ReadHeaderSets` | mxf/mxf_header_metadata.c:776-838 | KLV by KLV as long as the declared bytes are not used up: known sets join the others in order, fillers and unknown sets are skipped; it succeeds exactly if the KLVs add up to the bytes |
| `HeaderOrder.HeaderReadsBack` | mxf/mxf_header_metadata.c:756-1016 | a written header is read back as the Preface and the other sets in order, with their keys, UIDs and items, and the byte count comes out |
| `HeaderMetadata.WriteThenRead` | mxf/mxf_header_metadata.c:756-1117 | the same through a file, with the predicted total |
| `AvidModel.SelectInOrder` | mxf/mxf_avid.c:304-358 | the sets of a part are those whose key belongs to it, in the order of the header |
| `AvidModel.DirectoryIs` | mxf/mxf_avid.c:235-262 | the bytes of a directory: key, a length that counts the bytes up to its end, the number of entries, their size of 25, and the entries |
| `AvidModel.RootIs` | mxf/mxf_avid.c:272-293 | the bytes of a root set: key, length 96, and item by item its UID, the directory's place, version 8 and the two UIDs |
| `AvidModel.WrittenOnce` | mxf/mxf_avid.c:304-358 | over both passes every set is written exactly once exactly if every key belongs to one part |
| `AvidModel.PartsAreDisjoint` | mxf/mxf_avid.c:304-358 | so it is with one class of meta-dictionary and no definitions among the special sets |
| `AvidModel.PartsOfModel` | mxf/mxf_avid.c:304-358 | for the classes of a data model every key belongs to one part exactly when neither special set descends from MetaDefinition, and what else descends from MetaDictionary does |
| `AvidModel.AllWritten` | mxf/mxf_avid.c:304-358 | then the output holds the header's sets and no others |
| `AvidModel.OffsetInRoot` | mxf/mxf_avid.c:272-293 | the directory offset is 8 bytes of the root set, and nothing around them depends on it |
| `AvidModel.RootSize` | mxf/mxf_avid.c:272-293 | the root set's declared length is right and does not depend on what it holds |
| `AvidHeader.WriteObjectDirectory` | mxf/mxf_avid.c:235-262 | in the file stand the key, a length that counts the bytes up to the end, the number of entries recorded, their size, and for each entry its UID, place and flags in 25 bytes |
| `AvidHeader.WriteSets` | mxf/mxf_avid.c:304-358 | a pass writes its sets in order and records for each where the bytes so far end |
| `AvidHeader.RewriteRoot` | mxf/mxf_avid.c:588-594 | rewriting the root set changes the 8 bytes of its directory offset and no other byte of the file |
| `AvidHeader.DirectoryIsRight` | mxf/mxf_avid.c:551-603 | in the bytes of a header stand the root set, which names the directory's place and the two special sets' UIDs, and the directory, whose entries are where their sets' keys stand |
| `AvidHeader.OrderOfParts` | mxf/mxf_avid.c:304-358 | the order of the file: the MetaDictionary set, the definitions, the Preface set and the others, each part in the order of the header |
| `AvidHeader.WriteHeader` | mxf/mxf_avid.c:551-603 | succeeds exactly if the special sets are there once and every set can be written; then the sets of each part stand in the header's order, all of them if every key belongs to one part; the root set holds the directory's place and the UIDs of the MetaDictionary and Preface sets; the directory has one entry more than there are sets, its length reaches the end, and each entry has its set's UID and the place where that set's key stands |
| `SetsIterator.StartMattersExactly` | mxf/mxf_header_metadata.c:1445-1494 | a search from any place finds what a search from the start finds exactly when the UID does not occur on both sides of the place |
| `SetsIterator.StartDoesNotMatter` | mxf/mxf_header_metadata.c:1445-1494 | so it is for every place if UIDs are unique |
| `SetsIterator.StartMatters` | mxf/mxf_header_metadata.c:1445-1494 | the smallest case where it is not |
| `SetsIterator.ListIterator.Next` | mxf/mxf_list.c:343-358 | the iterator moves on, or behind the last element |
| `SetsIterator.DereferenceFrom` | mxf/mxf_header_metadata.c:1445-1494 | finds a set exactly if there is one, the same as a plain search exactly when the UID is not on both sides of the iterator, leaves the iterator on it, and otherwise as it was |
| `CloneModel.UniqueTree` | mxf/mxf_header_metadata.c:670-745 | a set unfolds along its strong references to one tree at most |
| `CloneModel.CompleteUnfolds` | mxf/mxf_header_metadata.c:670-745 | in an acyclic source each of a number of sets that are known with all their items, and whose strong references lead to sets among them, has a tree |
| `CloneModel.UnfoldsExactly` | mxf/mxf_header_metadata.c:670-745 | and only such sets have one |
| `CloneModel.SourceUnfolds` | mxf/mxf_header_metadata.c:670-745 | and the source unfolds to that tree |
| `CloneSet.Header.CreateSet` | mxf/mxf_header_metadata.c:410-430 | a new set under a fresh UID that its instance UID item holds |
| `CloneModel.ClonesJoin` | mxf/mxf_header_metadata.c:670-745 | clones made before and after are clones together, as they refer to new sets only |
| `CloneSet.Header.CloneTree` | mxf/mxf_header_metadata.c:670-745 | cloning terminates, succeeds exactly if the source unfolds to a tree, and then the new sets alone unfold to the same tree and are as many as it has |
| `CloneSet.Header.CloneItem` | mxf/mxf_header_metadata.c:693-738 | each item is cloned by its type, or left out, or makes the clone fail |
| `CloneSet.Header.CloneSet` | mxf/mxf_header_metadata.c:670-745 | cloning succeeds exactly if the set is one of sets known with all their items whose strong references stay among them; every new set has its own instance UID and behind it, in order, clones of exactly those source items that are no weak references and neither InstanceUID nor GenerationUID: the same key and value, or for each strong reference one to a new set that is a clone of the set referred to; old sets are unchanged |
| `CloneSet.Header.CloneRefs` | mxf/mxf_header_metadata.c:713-727 | an array of references is filled in one by one while the sets are cloned |
| `Definitions.AgreeExactly` | mxf/mxf_data_model.c:568-579 | lookups from below and from above agree, for a set and all above it, exactly if nothing is redefined |
| `Definitions.NearestIs` | mxf/mxf_data_model.c:568-579 | a lookup finds the first definition with the key in the nearest set that has one, and none if no set has one |
| `DataModel.Model.FindItemDefInSetDef` | mxf/mxf_data_model.c:568-579 | the first definition with the key in the nearest set along the parents, or none if there is none |
| `DataModel.SubclassIsAncestor` | mxf/mxf_data_model.c:602-611 | the walk along the parents finds exactly the sets of the chain, if linked parents are the registered ones |
| `DataModel.Model.IsSubclassOf` | mxf/mxf_data_model.c:602-611 | whether a set is in another's chain of parents |
| `DataModel.Model.IsSubclassOfKey` | mxf/mxf_data_model.c:589-600 | the same by key; a set that is not defined descends from itself only |
| `Definitions.PartsThere` | mxf/mxf_data_model.c:232-287 | every cloned type is the source's, and the element type, the interpreted type or the members' types it names are there |
| `DataModel.Model.CloneItemType` | mxf/mxf_data_model.c:232-287 | a type is cloned with all it is made of: every new type is the source's, and the element type, the type interpreted or each member's type is there too; what was there stays; it cannot fail if the source has all of them |
| `DataModel.Model.CloneItemDefs` | mxf/mxf_data_model.c:633-640 | the items added are the source's, and neither an item before nor a set above has their key; afterwards a lookup finds what it found before and, behind that, the items cloned; items that were there keep their places |
| `DataModel.Model.CloneSetDef` | mxf/mxf_data_model.c:613-644 | into any model, a set definition is cloned with the parents, items and types that are not there: new sets have the source's parents; new items are the source's with keys that neither an item before nor a set above has; every item of the source's sets down from the first that was there is found; the types that new types name are there; what was there keeps its place; cloning cannot fail if the source has all types |
| `DataModel.CloneIntoNew` | mxf/mxf_data_model.c:613-644 | into a model without any of its parents a set definition keeps its chain of parents, and lookups find the farthest definition |
| `DataModel.SameLookups` | mxf/mxf_data_model.c:613-644 | if nothing is redefined lookups in the clone find what they find in the source |
| `DataModel.RedefinitionIsLost` | mxf/mxf_data_model.c:633-639 | if a child redefines an item the clone finds the parent's |
| `DataModel.SameSubclasses` | mxf/mxf_data_model.c:602-644 | subclass questions get the same answers in the clone |
| `DataModel.Model.Finalise` | mxf/mxf_data_model.c:305-486 | each definition is linked to the parent it names and given, in order, exactly the items that name it, exactly if all that is named is registered; with acyclic parents every set then has its chain |
| `DataModel.LinkedIsRooted` | mxf/mxf_data_model.c:305-330 | linked definitions with acyclic parents have their chains of parents |
| `DataModel.RootedIsRanked` | mxf/mxf_data_model.c:305-330 | and only those do |
| `Definitions.OneTagEach` | mxf/mxf_data_model.c:511-531 | all pairs are compatible exactly if one key has one local tag and one tag other than 0 has one key |
| `DataModel.Model.Check` | mxf/mxf_data_model.c:488-542 | passes exactly if one key has one local tag, one tag other than 0 has one key, and every type is known |
| `WeakReferences.MetadataItem.GrowArray` | mxf/mxf_header_metadata.c:2053-2106 | an array item gets zeroed elements behind the old ones, or fails unchanged |
| `WeakReferences.FirstDefinition` | mxf/mxf_avid_metadictionary.c:120-137 | the target is the first definition with the identification |
| `WeakReferences.MetaDictionary.AddRecordMember` | mxf/mxf_avid_metadictionary.c:617-636 | a member is appended and recorded, and every reference recorded before still holds its target |
| `WeakReferences.MetaDictionary.CreateClassDef` | mxf/mxf_avid_metadictionary.c:434-455 | a class definition and its recorded reference to the parent |
| `WeakReferences.MetaDictionary.CreateTypeDef` | mxf/mxf_avid_metadictionary.c:484-500 | a type definition |
| `WeakReferences.MetaDictionary.AddTypeRef` | mxf/mxf_avid_metadictionary.c:638-654 | a type definition's recorded reference to another type |
| `WeakReferences.FillSlot` | mxf/mxf_avid_metadictionary.c:110-118 | one slot is filled in; every other byte of the item stays |
| `WeakReferences.MetaDictionary.Finalise` | mxf/mxf_avid_metadictionary.c:367-417 | succeeds exactly if every target is defined; then every recorded slot, scalar or member, holds the UID of the first definition of its target, and no other byte has changed |

## Left out

- Operating-system failures of reads, writes, opens and seeks, allocation failures, logging, Windows branches and file-name templates: a disk file is a byte sequence with a position, page files are a map from index to bytes.
- Sizes and positions are unbounded integers; widths are written out where the code casts or multiplies in 32 or 16 bits.
- CacheFile.CacheFile.Write: asks that the write starts at or before the presented file's end, that the number of pages does not wrap, that no slot is blank over a file that is not empty and that the read-ahead does not evict its own page. The last three are covered by the exact conditions above; for a write further on only the page it is in is (`CacheModel.BlankWriteExact`, `CacheModel.HeldWriteExact`), and not how reads see the pages skipped.
- CacheFile.CacheFile.WriteInside: follows the write loop to the end of the first page; its later pages are not followed.
- CacheFile.Open: the code rounds with a mask, which is rounding up if the system page size is a power of two, as it is taken to be.
- CacheRun.Run: the reads and writes are those of `CacheFile.CacheFile.Read` and `CacheFile.CacheFile.Write` with what they ask for; an assert that stops an operation ends the run.
- MemoryFile.MemoryFile.Write: the bytes of a gap are whatever the chunk memory held; only their number is stated.
- MemoryFile.MemoryFile.Read: `mxf_mem_file_open_read`, which wraps memory of the caller's that may not be written, is not modelled.
- PageFile.Open: in modify mode it asks that no page files are left over beyond the ones counted, since such a file would be opened with its old bytes when the file grows to it.
- PageFile.PageFile.OpenFile: `mxf_page_file_forward_truncate` and the pages it removes are not modelled; stdio's rule that a seek must lie between a read and a write on one stream is not modelled.
- IndexTable.ReadIndexEntry: slots that an index entry has no room for are left out of the model's entry; the code leaves their memory uninitialised. The callbacks append, without the asserts that count list hops.
- IndexProofs.ReadsBackExactly: asks that the array lengths stay below 2^32, where the readers' 32-bit product wraps.
- HeaderMetadata.ReadKnownSet: an instance UID item shorter than 16 bytes, past which the code reads, is refused; read filters are not modelled.
- HeaderMetadata.ReadHeaderSets: starts behind the primer pack, whose source is not part of this model; tags map to item keys.
- AvidHeader.WriteHeader: starts at the root set, behind primer pack and fill to the KLV alignment grid; what stands in the file is stated for files below 2^64 bytes and fills below 2^32.
- CloneSet.Header.CloneSet: takes strong references not to run in circles, along which the code recurses; UUIDs are numbers from a counter, as the generator is assumed to give fresh ones; item values are references or plain data rather than bytes; sets are kept in a map, so their order in the list is not modelled; the definitions it clones first are given, and are modelled by themselves in `DataModel.dfy`; no set has two items with one key; the tags that cloning registers in the primer pack are not modelled.
- DataModel.Model.CloneSetDef: parents and types are taken to be acyclic, as the code recurses along them; names, the limit of 15 members of a compound type and the range of type ids are not modelled.
- WeakReferences.MetaDictionary.Finalise: the sets that hold the items, and the data tables that drive the building, are not modelled.
- The set validator, single-value accessors, essence keys, partitions, primer pack, random index pack, UMID generation, time stamps and the application-metadata reader: mostly table-driven or single-value code.
