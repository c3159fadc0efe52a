# kvstore page store, modelled in Dafny

This project models the storage core of the kvstore repository: `page.go`. That file holds:

- the 4096-byte slotted page, with its slot codec, record writer, record lookup and space check;
- the codecs for the page image and the metadata page;
- the `PageManager`, which creates pages and places and finds records by scanning pages 1 .. LastPageId in ascending order.

A page is a 16-byte header and a 4080-byte data region. The header holds PageId (uint64), Count (uint32), FreeSpace (uint16) and DataStart (uint16). In the data region, 6-byte slots grow upwards from offset 0 and records grow downwards from offset 4080. A slot holds a record's offset, its length and a flag, where 0 means active. A record is the key length, the value length, the key bytes and the value bytes, with both lengths little-endian uint16.

Modules:

- `Bytes`: bounded integer types, and little-endian encoding with its inverse.
- `Errors`: the error kinds of the core, `Option`, `Result` and `Status`.
- `PageFormat`: the page as a value (`PageState`). It holds:
  - the slot and record layout;
  - the invariant `WellFormed`;
  - `Entries`, the abstract content: the entries of the slots in slot order;
  - `FindFirst`, the lookup;
  - `ApplyWrite`, `WriteRecord` on values.
- `Pages`: class `Page` over the 4080-byte `array<byte>` the Go code mutates. `GetSlot`, `SetSlot`, `WriteRecord`, `ReadRecord` and `HasSpace` are proved against `PageFormat`.
- `Codec`: the image `writePageToDisk` builds and `LoadPage` parses, and the metadata image `SaveMetaDataPage` writes and `LoadMetaPage` reads.
- `Storage`: a stand-in for the repository's `Disk`. It is a store of 4096-byte images indexed by page number (`Store`), with sets of page numbers whose reads or writes fail. Class `Disk` reads and writes it.
- `Manager`: class `PageManager` (the metadata counters and the disk). Its methods are proved against value-level specifications: `ScanSpace` for `findPageWithSpace`, `ScanKey` for `FindRecord` and `InsertSpec` for `InsertRecord`. The lemmas state what those specifications guarantee.

The code and the layout comment in `page.go` disagree in two places. The model follows the code:

- The worked example in the comment (page.go:77-86) gives DataStart 4062 and FreeSpace 4050 after two writes. The code gives 4060 and 4048 (`PageFormat.TwoWrites`).
- The invariant `FreeSpace = DataStart - 6 * Count` (page.go:92) does not hold on a page fresh from `CreatePage`. That page has DataStart 0 and FreeSpace 4080, and `WriteRecord` sets DataStart when it writes the first record. `WellFormed` states the invariant for pages with at least one record, and "FreeSpace is 4080" for pages without one.

There is no duplicate-key check. Within one page a key written twice reads back as its first value, because ReadRecord scans slots oldest first (`PageFormat.WriteThenRead`). Across pages that does not hold. InsertRecord puts a record on the lowest page with room, and FindRecord returns the value from the lowest page that holds the key. So a newer value placed on a lower page hides an older value on a higher one. For example, after ten inserts of other 1-byte keys with 390-byte values into a new database, page 1 has FreeSpace 70. A 100-byte value for key k then goes to a new page 2, and a 1-byte value for k then goes to page 1, where FindRecord finds it first. `Manager.InsertFoundThenFind` states the rule and `Manager.NewerValueShadowsOlder` the consequence. When no page has room and the record goes to a new page, the older value wins: the new page comes after every page that holds data, so FindRecord still returns the value it returned before (`Manager.InsertNewThenFind`).

## Model

| member | source | states |
|---|---|---|
| Pages.Page.GetSlot | page.go:118-125 | the slot returned encodes back to exactly the six bytes at 6 * index |
| PageFormat.SlotRoundTrip | page.go:118-132 | reading back a slot written at an index gives that slot; no byte outside its six bytes changes, and every other slot reads as before |
| Pages.Page.SetSlot | page.go:127-132 | the buffer becomes the old buffer with the slot's encoding at 6 * index, and GetSlot then returns the slot |
| PageFormat.ApplyWrite | page.go:138-154 | a write succeeds exactly when the key and the value are at most 400 bytes each and FreeSpace >= record size + 6; otherwise it fails with KeyTooLarge, ValueTooLarge or NotEnoughSpace, checked in that order |
| Pages.Page.WriteRecord | page.go:138-186 | a rejected write leaves the page exactly as it was; an accepted one leaves the page ApplyWrite describes; the page stays well-formed either way |
| PageFormat.WriteLayout | page.go:156-185 | after a write the record bytes sit at [top - size, top), where top is 4080 on an empty page and DataStart otherwise; slot Count points at them; Count, DataStart and FreeSpace step; no other byte changes |
| PageFormat.WritePreservesWellFormed | page.go:92 | a successful write keeps the page invariant, including FreeSpace == DataStart - 6 * Count afterwards |
| PageFormat.AppendKeepsRecords | page.go:161-183 | a change confined between the slot array and the lowest record keeps every existing slot and entry |
| PageFormat.WriteAppendsEntry | page.go:138-186 | the entries of the page after a write are the old entries followed by the new (key, value, active) entry |
| PageFormat.EmptyPage | page.go:240-245 | the page CreatePage builds is well-formed and holds no entries |
| PageFormat.TwoWrites | page.go:138-186 | writing ("a", "hello") then ("b", "world") into a new page gives records at 4070 and 4060, DataStart 4060, FreeSpace 4048, and both entries in write order |
| Pages.Page.ReadRecord | page.go:188-216 | the value found is that of the first active slot, in slot order, whose key equals the key; no value and false when there is none |
| Pages.ScanSlots | page.go:191-215 | the loop stops at the first active slot whose key matches and returns its value; when it finds no match, no earlier slot matched |
| PageFormat.EntriesFindAt | page.go:191-212 | when slot i is the first match, the lookup over the entries returns slot i's value |
| PageFormat.EntriesFindNone | page.go:213-215 | when no slot matches, the lookup over the entries finds nothing |
| PageFormat.WriteThenRead | page.go:138-216 | after a successful write, ReadRecord finds the written value, unless an older active entry with that key exists, in which case the older one wins |
| PageFormat.FindFirstAppend | page.go:191-212 | appending an entry changes the lookup only when no earlier entry matched and the new one does |
| Pages.HasSpaceGap | page.go:138-220 | every write WriteRecord accepts had HasSpace true; with record size <= FreeSpace < record size + 6, HasSpace is true and WriteRecord still refuses a record of legal sizes with NotEnoughSpace |
| Codec.EncodePage | page.go:338-348 | the page image is 4096 bytes |
| Codec.DecodeEncodePage | page.go:284-312 | LoadPage's parse of the writePageToDisk image gives back PageId, Count, FreeSpace, DataStart and the data region |
| Codec.EncodeDecodePage | page.go:284-348 | every 4096-byte image is the encoding of what LoadPage parses from it |
| Codec.DecodeEncodeMeta | page.go:253-282 | LoadMetaPage's parse of the SaveMetaDataPage image gives back NextPageId, PageCount and LastPageId |
| Codec.EncodeDecodeMeta | page.go:253-282 | a page-0 image is reproduced by saving what was loaded from it exactly when its bytes from 24 on are all zero |
| Storage.ReadAfterWrite | storage.go:27-45 | a successful write is seen by the next read of the same page and by no other page; a failed write changes nothing |
| Manager.AllocationOrder | page.go:226-249 | from a new manager, the k-th CreatePage hands out id k, and LastPageId then equals PageCount |
| Manager.PagePersists | page.go:284-354 | a page written by writePageToDisk loads back as the same page, and every other page loads as before |
| Manager.MetaPersists | page.go:253-282 | saving the metadata and loading it again restores all three counters |
| Manager.ScanSpaceFirst | page.go:356-369 | the page findPageWithSpace picks is the lowest page number in 1 .. LastPageId that loads and has FreeSpace >= record size; none is picked exactly when no page qualifies |
| Manager.ScanKeyAt | page.go:371-385 | FindRecord returns the value from page n when n is the lowest page that loads and whose ReadRecord finds the key |
| Manager.ScanKeyNone | page.go:371-385 | FindRecord reports KeyNotFound exactly when no page in 1 .. LastPageId finds the key |
| Manager.EmptyStoreFindsNothing | page.go:371-385 | on a store with no data pages, FindRecord reports KeyNotFound |
| Manager.InsertIntoFound | page.go:314-336 | when some page has room, the first such page n (1 <= n <= LastPageId) takes the record and the metadata is unchanged; the call succeeds exactly when key and value are at most 400 bytes, page n has FreeSpace >= record size + 6 and page n takes writes, and otherwise fails with KeyTooLarge, ValueTooLarge, NotEnoughSpace or WriteFailed in that order, leaving the store as it was; page n then loads with the new entry appended (or unchanged), and every other page reads as before |
| Manager.InsertIntoNew | page.go:314-336 | when no page has room, the metadata advances; if page NextPageId refuses writes the call fails with WriteFailed and the store is unchanged; otherwise the call succeeds exactly when key and value are at most 400 bytes (else KeyTooLarge or ValueTooLarge), the new page loads holding just the new entry (or no entry, when refused), page 0 decodes to the advanced counters, and every other data page loads as before |
| Manager.InsertSlotReserveGap | page.go:314-336 | when the first page with room for the record bytes lacks the 6-byte slot reserve, InsertRecord fails with NotEnoughSpace, allocates no page and changes nothing |
| Manager.InsertOversizedKeyAllocates | page.go:314-333 | an oversized key is only refused after placement: with no page having room, a new page is still allocated and written out empty before KeyTooLarge |
| Manager.InsertKeepsConsistent | page.go:314-336 | whatever InsertRecord returns, NextPageId stays past every data page on the store |
| Manager.InsertThenFind | page.go:314-385 | after a successful InsertRecord, FindRecord finds the key; when no page held it before, FindRecord returns the value just inserted |
| Manager.InsertFoundThenFind | page.go:314-385 | after a successful insert into an existing page n, FindRecord returns what the lowest page up to n held for the key before, and the new value when no such page held it, whatever the pages above n hold |
| Manager.NewerValueShadowsOlder | page.go:314-385 | a key whose older value sits only above the page that takes the new record reads back as the newer value |
| Manager.InsertNewThenFind | page.go:314-385 | after a successful insert into a new page on a consistent store, FindRecord still returns the older value of a key that some page already held |
| Manager.WrittenPageLookup | page.go:330-335 | the page written back finds the key: the older entry if it had one, else the new value |
| Manager.PageManager.constructor | page.go:226-236 | a new manager starts with NextPageId 1, PageCount 0, LastPageId 1, and is valid exactly when its store holds well-formed data pages |
| Manager.PageManager.CreatePage | page.go:238-252 | returns an empty page numbered NextPageId and steps the metadata; nothing is written |
| Manager.PageManager.LoadMetaPage | page.go:253-269 | on a successful read the counters become those decoded from bytes 0-23 of page 0; on a failed read the error is returned and the counters are unchanged |
| Manager.PageManager.SaveMetaDataPage | page.go:271-282 | writes the metadata image to page 0 and returns the write's error |
| Manager.PageManager.LoadPage | page.go:284-312 | a new page parsed from the image of the page number, or ReadFailed when the read fails |
| Manager.PageManager.WritePageToDisk | page.go:338-354 | writes the page's image at its own page number and returns the write's error |
| Manager.PageManager.FindPageWithSpace | page.go:356-369 | returns the page ScanSpace picks, loaded afresh, or NoPageWithSpace when there is none |
| Manager.PageManager.FindRecord | page.go:371-385 | returns exactly ScanKey over pages 1 .. LastPageId |
| Manager.PageManager.InsertRecord | page.go:314-336 | the status, metadata and store it leaves are those of InsertSpec, and the store stays well-formed |

## Left out

- Disk I/O (storage.go) is replaced by the `Storage.Store` stand-in. Partial reads and writes, end-of-file handling and file-system errors are reduced to per-page read and write faults.
- Storage.Store: a page's faults are fixed, so two writes of the same page within one call either both succeed or both fail. In the new-page branch of InsertRecord, the empty-page write (page.go:322) and the final write of the same page (page.go:335) therefore share one outcome. The Go outcome "empty page written, metadata saved, then the final write fails" is not produced by the model.
- In the repository, reading a page inside the file that was never written returns zero bytes. The stand-in instead fails such reads, like reads past the end of the file. For data pages nothing is lost: a zero page has Count 0 and FreeSpace 0, so both scans skip it. For page 0 it differs: if page 1 is written and the ignored SaveMetaDataPage (page.go:327) fails, Go's LoadMetaPage reads a zero page 0 and sets the counters to (0, 0, 0), after which FindRecord scans nothing and the next CreatePage hands out id 0. The stand-in reports ReadFailed and keeps (1, 0, 1).
- The byte offset `int(pageId * 4096)` (page.go:286, page.go:351) is negative in Go for page ids from 2^51 to 2^52 - 1, so the read or write fails with a negative-offset error. For page ids of 2^52 and above it wraps modulo 2^64. The stand-in addresses images by page number, for every page id, and models neither case.
- Manager.PageManager.FindPageWithSpace, Manager.PageManager.FindRecord and Manager.PageManager.InsertRecord require LastPageId < 2^64 - 1. At that value the loop condition `pageId <= LastPageId` (page.go:358, page.go:373) is always true. The loop then ends only by returning a match, for example at once when page 1 has room. When nothing matches, `pageId++` wraps to 0 and the scan goes on through page 0, the metadata image parsed as a data page, without end. The requires excludes both kinds of run, including those that end.
- Pages with corrupted headers or slots are out of scope. Where the Go code would read out of bounds or panic, the model requires a well-formed page (`WellFormed`) or a well-formed store (`StoreWellFormed`).
- The in-memory page cache field `Pages` of `PageManager` is never read by the core and is not modelled. database.go and main.go are not part of this model.
- Error values keep their kind (`Errors.Error`) but not their message strings.
- Pages.Page.ReadRecord runs its loop (`Pages.ScanSlots`) over a snapshot of the buffer. The buffer does not change during the loop, so nothing is lost.
- The error SaveMetaDataPage returns inside InsertRecord (page.go:327) is ignored, as in Go. `Manager.InsertSpec` continues with the store as the failed write left it.
- Manager.InsertThenFind requires page NextPageId to be readable once written and `1 <= NextPageId <= LastPageId + 1`. Without those assumptions a successful insert into a new page need not be found again.
- Manager.InsertKeepsConsistent requires NextPageId < 2^64 - 1, because CreatePage's increment wraps in Go.
- Manager.AllocationOrder covers fewer than 2^64 - 1 allocations, for the same reason.
