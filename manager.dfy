/** The PageManager of the page store: metadata counters in memory, pages
    on the block store, and the ascending scans over pages 1 .. LastPageId
    that place and look up records. */
module Manager {
  import opened Bytes
  import opened Errors
  import opened PageFormat
  import opened Pages
  import opened Codec
  import opened Storage

  /** The metadata NewPageManager starts with. */
  const InitialMeta: DatabaseMeta := DatabaseMeta(1, 0, 1)

  /** The metadata after CreatePage: the new page takes NextPageId, which
      becomes LastPageId; NextPageId and PageCount step with uint64
      wrap-around. */
  function Allocate(m: DatabaseMeta): DatabaseMeta
  {
    DatabaseMeta(Inc64(m.nextPageId), Inc64(m.pageCount), m.nextPageId)
  }

  /** k successive CreatePage calls. */
  function AllocateN(m: DatabaseMeta, k: nat): DatabaseMeta
  {
    if k == 0 then m else Allocate(AllocateN(m, k - 1))
  }

  /** From a new manager, the k-th CreatePage hands out id k, so pages are
      numbered 1, 2, 3, ... in creation order and, once one exists,
      LastPageId equals PageCount. */
  lemma {:induction false} AllocationOrder(k: nat)
    requires k < MaxU64
    ensures AllocateN(InitialMeta, k) == DatabaseMeta(k + 1, k, if k == 0 then 1 else k)
  {
    if k > 0 {
      AllocationOrder(k - 1);
    }
  }

  /** The page LoadPage builds for page number n, or None when the read fails. */
  function LoadState(s: Store, n: nat): Option<PageState>
  {
    match ReadAt(s, n)
    case Ok(img) => if |img| == PageSize then Some(DecodePage(img)) else None
    case Err(_) => None
  }

  /** Every image on the store is 4096 bytes, and every data page (any page
      number but 0, the metadata page) decodes to a well-formed page whose
      PageId is its own page number. */
  ghost predicate StoreWellFormed(s: Store)
  {
    (forall n :: n in s.images ==> |s.images[n]| == PageSize) &&
    (forall n :: n in s.images && n != 0 ==>
       |s.images[n]| == PageSize && WellFormed(DecodePage(s.images[n])) && DecodePage(s.images[n]).pageId == n)
  }

  lemma LoadWellFormed(s: Store, n: nat)
    requires StoreWellFormed(s) && n != 0 && LoadState(s, n).Some?
    ensures WellFormed(LoadState(s, n).value) && LoadState(s, n).value.pageId == n
  {
  }

  /** Page n loads and has FreeSpace >= recordSize (Page.HasSpace). */
  predicate HasRoom(s: Store, n: nat, recordSize: int)
  {
    LoadState(s, n).Some? && LoadState(s, n).value.freeSpace >= recordSize
  }

  /** findPageWithSpace's loop from page `from` on: the first page up to
      `last` with room. */
  function ScanSpace(s: Store, recordSize: int, from: nat, last: nat): Option<nat>
    decreases last + 1 - from
  {
    if from > last then None
    else if HasRoom(s, from, recordSize) then Some(from)
    else ScanSpace(s, recordSize, from + 1, last)
  }

  /** ScanSpace finds the smallest page number in from .. last with room,
      and None exactly when there is none. */
  lemma {:induction false} ScanSpaceFirst(s: Store, recordSize: int, from: nat, last: nat)
    ensures var r := ScanSpace(s, recordSize, from, last);
            (r.Some? ==> from <= r.value <= last && HasRoom(s, r.value, recordSize)) &&
            forall n :: from <= n <= last && (r.None? || n < r.value) ==> !HasRoom(s, n, recordSize)
    decreases last + 1 - from
  {
    if from <= last && !HasRoom(s, from, recordSize) {
      ScanSpaceFirst(s, recordSize, from + 1, last);
    }
  }

  /** What ReadRecord finds on page n: None when the page does not load.
      (On a well-formed store every page that loads is well-formed; the
      last branch only makes the function total.) */
  ghost function PageLookup(s: Store, n: nat, key: seq<byte>): Option<seq<byte>>
  {
    match LoadState(s, n)
    case None => None
    case Some(p) => if WellFormed(p) then FindFirst(PageEntries(p), key) else None
  }

  /** The first Some that f yields on from, from + 1, ..., last: the shape
      of both scans of the manager. */
  function FirstSome<T>(f: nat -> Option<T>, from: nat, last: nat): Option<T>
    decreases last + 1 - from
  {
    if from > last then None
    else if f(from).Some? then f(from)
    else FirstSome(f, from + 1, last)
  }

  /** FirstSome yields f(n) when n is the first point in from .. last where
      f yields something. */
  lemma {:induction false} FirstSomeAt<T>(f: nat -> Option<T>, from: nat, last: nat, n: nat)
    requires from <= n <= last && f(n).Some?
    requires forall j :: from <= j < n ==> f(j).None?
    ensures FirstSome(f, from, last) == f(n)
    decreases n - from
  {
    if from < n {
      FirstSomeAt(f, from + 1, last, n);
    }
  }

  /** FirstSome yields nothing exactly when f yields nothing on from .. last. */
  lemma {:induction false} FirstSomeNone<T>(f: nat -> Option<T>, from: nat, last: nat)
    ensures FirstSome(f, from, last).None? <==> forall j :: from <= j <= last ==> f(j).None?
    decreases last + 1 - from
  {
    if from <= last {
      FirstSomeNone(f, from + 1, last);
    }
  }

  /** ReadRecord on every page, as one function of the page number. */
  ghost function Lookups(s: Store, key: seq<byte>): nat -> Option<seq<byte>>
  {
    (j: nat) => PageLookup(s, j, key)
  }

  /** FindRecord's loop from page `from` on: the value from the first page up
      to `last` that holds the key. */
  ghost function ScanKey(s: Store, key: seq<byte>, from: nat, last: nat): Result<seq<byte>>
  {
    match FirstSome(Lookups(s, key), from, last)
    case Some(v) => Ok(v)
    case None => Err(KeyNotFound)
  }

  /** ScanKey returns the value on page n when n is the smallest page number
      in from .. last that holds the key. */
  lemma ScanKeyAt(s: Store, key: seq<byte>, from: nat, last: nat, n: nat)
    requires from <= n <= last
    requires PageLookup(s, n, key).Some?
    requires forall j :: from <= j < n ==> PageLookup(s, j, key).None?
    ensures ScanKey(s, key, from, last) == Ok(PageLookup(s, n, key).value)
  {
    FirstSomeAt(Lookups(s, key), from, last, n);
  }

  /** ScanKey reports KeyNotFound exactly when no page in from .. last holds
      the key. */
  lemma ScanKeyNone(s: Store, key: seq<byte>, from: nat, last: nat)
    ensures ScanKey(s, key, from, last).Err? <==> forall j :: from <= j <= last ==> PageLookup(s, j, key).None?
    ensures ScanKey(s, key, from, last).Err? ==> ScanKey(s, key, from, last).error == KeyNotFound
  {
    FirstSomeNone(Lookups(s, key), from, last);
    if ScanKey(s, key, from, last).Err? {
      forall j | from <= j <= last ensures PageLookup(s, j, key).None? {
        assert Lookups(s, key)(j) == PageLookup(s, j, key);
      }
    }
  }

  /** A store without data pages finds nothing: FindRecord on a new
      database reports KeyNotFound. */
  lemma EmptyStoreFindsNothing(s: Store, key: seq<byte>, last: nat)
    requires forall n :: n in s.images ==> n == 0
    ensures ScanKey(s, key, 1, last) == Err(KeyNotFound)
  {
    ScanKeyNone(s, key, 1, last);
  }

  /** An image written to page n by writePageToDisk loads back as the same
      page, and every other page loads as before. */
  lemma PagePersists(s: Store, st: PageState, k: nat)
    requires |st.data| == DataSize && st.pageId !in s.writeFaults
    ensures st.pageId !in s.readFaults ==> LoadState(WriteAt(s, st.pageId, EncodePage(st)), st.pageId) == Some(st)
    ensures k != st.pageId ==> LoadState(WriteAt(s, st.pageId, EncodePage(st)), k) == LoadState(s, k)
  {
    ReadAfterWrite(s, st.pageId, EncodePage(st), k);
    ReadAfterWrite(s, st.pageId, EncodePage(st), st.pageId);
    DecodeEncodePage(st);
  }

  /** SaveMetaDataPage then LoadMetaPage restores the three counters when
      page 0 can be written and read. */
  lemma MetaPersists(s: Store, m: DatabaseMeta)
    requires 0 !in s.writeFaults && 0 !in s.readFaults
    ensures var r := ReadAt(WriteAt(s, 0, EncodeMeta(m)), 0);
            r == Ok(EncodeMeta(m)) && DecodeMeta(r.value) == m
  {
    ReadAfterWrite(s, 0, EncodeMeta(m), 0);
    DecodeEncodeMeta(m);
  }

  /** Writing a well-formed page at its own page number, or anything at page
      0, keeps the store well-formed. */
  lemma WriteKeepsWellFormed(s: Store, st: PageState)
    requires StoreWellFormed(s) && WellFormed(st)
    ensures StoreWellFormed(WriteAt(s, st.pageId, EncodePage(st)))
  {
    DecodeEncodePage(st);
  }

  lemma WriteMetaKeepsWellFormed(s: Store, m: DatabaseMeta)
    requires StoreWellFormed(s)
    ensures StoreWellFormed(WriteAt(s, 0, EncodeMeta(m)))
  {
  }

  /** What an InsertRecord call returns and leaves behind. */
  datatype Outcome = Outcome(status: Status, meta: DatabaseMeta, store: Store)

  /** The second half of InsertRecord on the chosen page: WriteRecord, then,
      if it succeeded, writePageToDisk. */
  ghost function WriteBack(m: DatabaseMeta, s: Store, p: PageState, key: seq<byte>, value: seq<byte>): Outcome
    requires WellFormed(p)
  {
    match ApplyWrite(p, key, value)
    case Err(e) => Outcome(Failure(e), m, s)
    case Ok(q) => Outcome(WriteStatus(s, q.pageId), m, WriteAt(s, q.pageId, EncodePage(q)))
  }

  /** InsertRecord on values: the first page with room, else a new page that
      is written out empty (a failure here ends the call) before the
      metadata is saved (a failure here is ignored). */
  ghost function InsertSpec(m: DatabaseMeta, s: Store, key: seq<byte>, value: seq<byte>): Outcome
    requires StoreWellFormed(s)
  {
    var recordSize := RecordSize(key, value);
    match ScanSpace(s, recordSize, 1, m.lastPageId)
    case Some(n) =>
      ScanSpaceFirst(s, recordSize, 1, m.lastPageId);
      LoadWellFormed(s, n);
      WriteBack(m, s, LoadState(s, n).value, key, value)
    case None =>
      var p := EmptyPage(m.nextPageId);
      var m1 := Allocate(m);
      if WriteStatus(s, p.pageId).Failure? then Outcome(Failure(WriteFailed), m1, s)
      else
        var s1 := WriteAt(s, p.pageId, EncodePage(p));
        var s2 := WriteAt(s1, 0, EncodeMeta(m1));
        WriteBack(m1, s2, p, key, value)
  }

  /** InsertSpec when some page has room, unfolded. */
  lemma InsertFoundUnfold(m: DatabaseMeta, s: Store, key: seq<byte>, value: seq<byte>, n: nat)
    requires StoreWellFormed(s) && ScanSpace(s, RecordSize(key, value), 1, m.lastPageId) == Some(n)
    ensures n != 0 && LoadState(s, n).Some? && WellFormed(LoadState(s, n).value)
    ensures InsertSpec(m, s, key, value) == WriteBack(m, s, LoadState(s, n).value, key, value)
  {
    ScanSpaceFirst(s, RecordSize(key, value), 1, m.lastPageId);
    LoadWellFormed(s, n);
  }

  /** When some page has room, InsertRecord writes into the first such page
      n and allocates nothing. WriteRecord's checks on page n, then the
      write of page n, decide the status; on any failure the store is as it
      was. Page n then loads with the new entry appended on success, and
      unchanged otherwise, and every other page reads as before. */
  lemma InsertIntoFound(m: DatabaseMeta, s: Store, key: seq<byte>, value: seq<byte>, n: nat, j: nat)
    requires StoreWellFormed(s) && ScanSpace(s, RecordSize(key, value), 1, m.lastPageId) == Some(n)
    ensures 1 <= n <= m.lastPageId && LoadState(s, n).Some? && WellFormed(LoadState(s, n).value) &&
            LoadState(s, n).value.freeSpace >= RecordSize(key, value)
    ensures var o := InsertSpec(m, s, key, value);
            var free := LoadState(s, n).value.freeSpace;
            o.meta == m &&
            (o.status == Success <==>
               |key| <= MaxKeyBytes && |value| <= MaxValueBytes && RecordSize(key, value) + SlotSize <= free &&
               n !in s.writeFaults) &&
            (o.status != Success ==>
               o.store == s &&
               o.status == Failure(if |key| > MaxKeyBytes then KeyTooLarge
                                   else if |value| > MaxValueBytes then ValueTooLarge
                                   else if RecordSize(key, value) + SlotSize > free then NotEnoughSpace
                                   else WriteFailed))
    ensures var o := InsertSpec(m, s, key, value);
            var p := LoadState(s, n).value;
            LoadState(o.store, n).Some? && WellFormed(LoadState(o.store, n).value) &&
            PageEntries(LoadState(o.store, n).value) ==
              PageEntries(p) + (if o.status == Success then [Entry(key, value, 0)] else []) &&
            (j != n ==> ReadAt(o.store, j) == ReadAt(s, j))
  {
    ScanSpaceFirst(s, RecordSize(key, value), 1, m.lastPageId);
    LoadWellFormed(s, n);
    var p := LoadState(s, n).value;
    var o := InsertSpec(m, s, key, value);
    assert o == WriteBack(m, s, p, key, value) by {
      InsertFoundUnfold(m, s, key, value, n);
    }
    FoundPageWritten(m, s, p, key, value, j, o);
  }

  /** WriteBack on page p as it loads from its own (nonzero) page number:
      the outcome InsertIntoFound describes. */
  lemma FoundPageWritten(m: DatabaseMeta, s: Store, p: PageState, key: seq<byte>, value: seq<byte>, j: nat, o: Outcome)
    requires WellFormed(p) && p.pageId != 0 && LoadState(s, p.pageId) == Some(p)
    requires o == WriteBack(m, s, p, key, value)
    ensures o.meta == m &&
            (o.status == Success <==> ApplyWrite(p, key, value).Ok? && p.pageId !in s.writeFaults) &&
            (o.status != Success ==>
               o.store == s &&
               o.status == Failure(if ApplyWrite(p, key, value).Err? then ApplyWrite(p, key, value).error else WriteFailed))
    ensures LoadState(o.store, p.pageId).Some? && WellFormed(LoadState(o.store, p.pageId).value) &&
            PageEntries(LoadState(o.store, p.pageId).value) ==
              PageEntries(p) + (if o.status == Success then [Entry(key, value, 0)] else []) &&
            (j != p.pageId ==> ReadAt(o.store, j) == ReadAt(s, j))
  {
    if p.pageId !in s.writeFaults {
      WriteBackStatus(m, s, p, key, value);
      WriteBackLoads(m, s, p, key, value, j);
    } else {
      assert o.store == s;
      assert PageEntries(p) + [] == PageEntries(p);
    }
  }

  /** InsertSpec when no page has room, unfolded. */
  lemma InsertNewUnfold(m: DatabaseMeta, s: Store, key: seq<byte>, value: seq<byte>)
    requires StoreWellFormed(s) && ScanSpace(s, RecordSize(key, value), 1, m.lastPageId).None?
    ensures var p := EmptyPage(m.nextPageId);
            InsertSpec(m, s, key, value) ==
              if WriteStatus(s, p.pageId).Failure? then Outcome(Failure(WriteFailed), Allocate(m), s)
              else WriteBack(Allocate(m), WriteAt(WriteAt(s, p.pageId, EncodePage(p)), 0, EncodeMeta(Allocate(m))), p, key, value)
  {
  }

  /** When no page has room, InsertRecord allocates page NextPageId. If that
      page cannot be written, the call fails with WriteFailed and leaves the
      store as it was. Otherwise only the size checks can refuse the record;
      the new page then loads holding just the new entry (or nothing, when
      the record was refused), page 0 holds the advanced counters, and every
      other data page loads as before. */
  lemma InsertIntoNew(m: DatabaseMeta, s: Store, key: seq<byte>, value: seq<byte>, j: nat)
    requires StoreWellFormed(s) && ScanSpace(s, RecordSize(key, value), 1, m.lastPageId).None?
    ensures var o := InsertSpec(m, s, key, value);
            o.meta == Allocate(m) &&
            (m.nextPageId in s.writeFaults ==> o.status == Failure(WriteFailed) && o.store == s)
    ensures var o := InsertSpec(m, s, key, value);
            m.nextPageId !in s.writeFaults ==>
              (o.status == Success <==> |key| <= MaxKeyBytes && |value| <= MaxValueBytes) &&
              (o.status != Success ==> o.status == Failure(if |key| > MaxKeyBytes then KeyTooLarge else ValueTooLarge))
    ensures var o := InsertSpec(m, s, key, value);
            m.nextPageId !in s.writeFaults && m.nextPageId != 0 ==>
              (m.nextPageId !in s.readFaults ==>
                 LoadState(o.store, m.nextPageId).Some? && WellFormed(LoadState(o.store, m.nextPageId).value) &&
                 PageEntries(LoadState(o.store, m.nextPageId).value) ==
                   (if o.status == Success then [Entry(key, value, 0)] else [])) &&
              (0 !in s.writeFaults && 0 !in s.readFaults ==>
                 ReadAt(o.store, 0).Ok? && DecodeMeta(ReadAt(o.store, 0).value) == Allocate(m)) &&
              (j != 0 && j != m.nextPageId ==> LoadState(o.store, j) == LoadState(s, j))
  {
    var p := EmptyPage(m.nextPageId);
    var s2 := WriteAt(WriteAt(s, p.pageId, EncodePage(p)), 0, EncodeMeta(Allocate(m)));
    var o := InsertSpec(m, s, key, value);
    if m.nextPageId in s.writeFaults {
      assert o == Outcome(Failure(WriteFailed), Allocate(m), s) by {
        InsertNewUnfold(m, s, key, value);
      }
    } else {
      assert o == WriteBack(Allocate(m), s2, p, key, value) by {
        InsertNewUnfold(m, s, key, value);
      }
      NewPageWrittenStatus(m, s, key, value);
      if m.nextPageId != 0 {
        NewPageWritten(m, s, p, s2, key, value, j, o);
      }
    }
  }

  /** The status of writing the record into the new page: only the size
      checks can refuse it. */
  lemma NewPageWrittenStatus(m: DatabaseMeta, s: Store, key: seq<byte>, value: seq<byte>)
    requires m.nextPageId !in s.writeFaults
    ensures var p := EmptyPage(m.nextPageId);
            var s2 := WriteAt(WriteAt(s, p.pageId, EncodePage(p)), 0, EncodeMeta(Allocate(m)));
            var o := WriteBack(Allocate(m), s2, p, key, value);
            (o.status == Success <==> |key| <= MaxKeyBytes && |value| <= MaxValueBytes) &&
            (o.status != Success ==> o.status == Failure(if |key| > MaxKeyBytes then KeyTooLarge else ValueTooLarge))
  {
    var p := EmptyPage(m.nextPageId);
    WriteBackStatus(Allocate(m), WriteAt(WriteAt(s, p.pageId, EncodePage(p)), 0, EncodeMeta(Allocate(m))), p, key, value);
  }

  /** InsertIntoNew once page NextPageId (not 0) has taken the empty page
      and page 0 the metadata: what the store holds after the record is
      written into the new page. */
  lemma NewPageWritten(m: DatabaseMeta, s: Store, p: PageState, s2: Store, key: seq<byte>, value: seq<byte>, j: nat, o: Outcome)
    requires m.nextPageId !in s.writeFaults && m.nextPageId != 0
    requires p == EmptyPage(m.nextPageId) && s2 == WriteAt(WriteAt(s, p.pageId, EncodePage(p)), 0, EncodeMeta(Allocate(m)))
    requires o == WriteBack(Allocate(m), s2, p, key, value)
    ensures (m.nextPageId !in s.readFaults ==>
               LoadState(o.store, m.nextPageId).Some? && WellFormed(LoadState(o.store, m.nextPageId).value) &&
               PageEntries(LoadState(o.store, m.nextPageId).value) ==
                 (if o.status == Success then [Entry(key, value, 0)] else [])) &&
            (0 !in s.writeFaults && 0 !in s.readFaults ==>
               ReadAt(o.store, 0).Ok? && DecodeMeta(ReadAt(o.store, 0).value) == Allocate(m)) &&
            (j != 0 && j != m.nextPageId ==> LoadState(o.store, j) == LoadState(s, j))
  {
    NewPageMetaStored(m, s, j);
    DecodeEncodeMeta(Allocate(m));
    WriteBackStatus(Allocate(m), s2, p, key, value);
    WriteBackLoads(Allocate(m), s2, p, key, value, j);
  }

  /** After CreatePage's page and then the metadata are written to a store
      where page NextPageId (not 0) takes writes: the new page loads empty
      when readable, page 0 holds the metadata when it can be written and
      read, and every other page reads as before. */
  lemma NewPageMetaStored(m: DatabaseMeta, s: Store, j: nat)
    requires m.nextPageId != 0 && m.nextPageId !in s.writeFaults
    ensures var p := EmptyPage(m.nextPageId);
            var s2 := WriteAt(WriteAt(s, p.pageId, EncodePage(p)), 0, EncodeMeta(Allocate(m)));
            s2.writeFaults == s.writeFaults && s2.readFaults == s.readFaults &&
            (m.nextPageId !in s.readFaults ==> LoadState(s2, p.pageId) == Some(p)) &&
            (0 !in s.writeFaults && 0 !in s.readFaults ==> ReadAt(s2, 0) == Ok(EncodeMeta(Allocate(m)))) &&
            (j != 0 && j != p.pageId ==> ReadAt(s2, j) == ReadAt(s, j))
  {
    var p := EmptyPage(m.nextPageId);
    var s1 := WriteAt(s, p.pageId, EncodePage(p));
    PagePersists(s, p, 0);
    ReadAfterWrite(s, p.pageId, EncodePage(p), j);
    ReadAfterWrite(s1, 0, EncodeMeta(Allocate(m)), p.pageId);
    ReadAfterWrite(s1, 0, EncodeMeta(Allocate(m)), 0);
    ReadAfterWrite(s1, 0, EncodeMeta(Allocate(m)), j);
  }

  /** WriteBack's status is that of WriteRecord when page p.pageId takes
      writes. */
  lemma WriteBackStatus(m: DatabaseMeta, s: Store, p: PageState, key: seq<byte>, value: seq<byte>)
    requires WellFormed(p) && p.pageId !in s.writeFaults
    ensures var o := WriteBack(m, s, p, key, value);
            (o.status == Success <==> ApplyWrite(p, key, value).Ok?) &&
            (o.status != Success ==> o.status == Failure(ApplyWrite(p, key, value).error))
  {
    if ApplyWrite(p, key, value).Ok? {
      assert ApplyWrite(p, key, value).value.pageId == p.pageId;
    }
  }

  /** WriteBack on a page p that loads from its own (nonzero) page number:
      page p.pageId then loads with the new entry appended when the write
      was accepted, and as p otherwise; page 0 and every other page read as
      before. */
  lemma WriteBackLoads(m: DatabaseMeta, s: Store, p: PageState, key: seq<byte>, value: seq<byte>, j: nat)
    requires WellFormed(p) && p.pageId != 0 && p.pageId !in s.writeFaults
    ensures var o := WriteBack(m, s, p, key, value);
            (LoadState(s, p.pageId) == Some(p) ==>
               LoadState(o.store, p.pageId).Some? && WellFormed(LoadState(o.store, p.pageId).value) &&
               PageEntries(LoadState(o.store, p.pageId).value) ==
                 PageEntries(p) + (if ApplyWrite(p, key, value).Ok? then [Entry(key, value, 0)] else [])) &&
            ReadAt(o.store, 0) == ReadAt(s, 0) &&
            (j != p.pageId ==> ReadAt(o.store, j) == ReadAt(s, j))
  {
    var r := ApplyWrite(p, key, value);
    if r.Ok? {
      var q := r.value;
      assert q.pageId == p.pageId && WellFormed(q) && PageEntries(q) == PageEntries(p) + [Entry(key, value, 0)] by {
        WritePreservesWellFormed(p, key, value);
        WriteAppendsEntry(p, key, value);
      }
      assert WriteBack(m, s, p, key, value).store == WriteAt(s, q.pageId, EncodePage(q));
      PageWrittenOver(s, q, j);
    } else {
      assert WriteBack(m, s, p, key, value).store == s;
      assert PageEntries(p) + [] == PageEntries(p);
    }
  }

  /** Writing page q to a store that takes writes at q.pageId (not 0): q
      loads back when the page is readable, and page 0 and every other page
      read as before. */
  lemma PageWrittenOver(s: Store, q: PageState, j: nat)
    requires |q.data| == DataSize && q.pageId != 0 && q.pageId !in s.writeFaults
    ensures var s' := WriteAt(s, q.pageId, EncodePage(q));
            (q.pageId !in s.readFaults ==> LoadState(s', q.pageId) == Some(q)) &&
            ReadAt(s', 0) == ReadAt(s, 0) && (j != q.pageId ==> ReadAt(s', j) == ReadAt(s, j))
  {
    PagePersists(s, q, q.pageId);
    ReadAfterWrite(s, q.pageId, EncodePage(q), 0);
    ReadAfterWrite(s, q.pageId, EncodePage(q), j);
  }

  /** Because HasSpace leaves out the 6-byte slot reserve that WriteRecord
      demands, a first page with recordSize <= FreeSpace < recordSize + 6 is
      chosen and then refused: InsertRecord fails with NotEnoughSpace,
      allocates no page and changes nothing. */
  lemma InsertSlotReserveGap(m: DatabaseMeta, s: Store, key: seq<byte>, value: seq<byte>)
    requires StoreWellFormed(s) && |key| <= MaxKeyBytes && |value| <= MaxValueBytes
    requires var found := ScanSpace(s, RecordSize(key, value), 1, m.lastPageId);
             found.Some? && LoadState(s, found.value).Some? &&
             LoadState(s, found.value).value.freeSpace < RecordSize(key, value) + SlotSize
    ensures InsertSpec(m, s, key, value) == Outcome(Failure(NotEnoughSpace), m, s)
  {
    InsertFoundUnfold(m, s, key, value, ScanSpace(s, RecordSize(key, value), 1, m.lastPageId).value);
  }

  /** An oversized key is refused only after placement: when no page has
      room for it, a new page is still created and written out empty, and
      the metadata advances, before WriteRecord reports KeyTooLarge. */
  lemma InsertOversizedKeyAllocates(m: DatabaseMeta, s: Store, key: seq<byte>, value: seq<byte>)
    requires StoreWellFormed(s) && |key| > MaxKeyBytes
    requires ScanSpace(s, RecordSize(key, value), 1, m.lastPageId).None?
    requires m.nextPageId !in s.writeFaults && m.nextPageId !in s.readFaults && m.nextPageId != 0
    ensures var o := InsertSpec(m, s, key, value);
            o.status == Failure(KeyTooLarge) && o.meta == Allocate(m) &&
            LoadState(o.store, m.nextPageId) == Some(EmptyPage(m.nextPageId))
  {
    var p := EmptyPage(m.nextPageId);
    var s1 := WriteAt(s, p.pageId, EncodePage(p));
    InsertNewUnfold(m, s, key, value);
    PagePersists(s, p, 0);
    ReadAfterWrite(s1, 0, EncodeMeta(Allocate(m)), p.pageId);
  }

  /** Metadata that agrees with the store: NextPageId is at least 1, past
      every data page, and at most LastPageId + 1. */
  predicate Consistent(m: DatabaseMeta, s: Store)
  {
    1 <= m.nextPageId <= m.lastPageId + 1 &&
    forall n :: n in s.images && n != 0 ==> n < m.nextPageId
  }

  /** A new manager over a store without data pages is consistent. */
  lemma InitialConsistent(s: Store)
    requires forall n :: n in s.images ==> n == 0
    ensures Consistent(InitialMeta, s)
  {
  }

  /** InsertRecord keeps the metadata consistent with the store, whatever it
      returns, as long as NextPageId does not wrap. */
  lemma InsertKeepsConsistent(m: DatabaseMeta, s: Store, key: seq<byte>, value: seq<byte>)
    requires StoreWellFormed(s) && Consistent(m, s) && m.nextPageId < MaxU64
    ensures var o := InsertSpec(m, s, key, value); Consistent(o.meta, o.store)
  {
    var found := ScanSpace(s, RecordSize(key, value), 1, m.lastPageId);
    if found.Some? {
      InsertFoundUnfold(m, s, key, value, found.value);
      WriteBackConsistent(m, s, LoadState(s, found.value).value, key, value);
    } else {
      InsertNewUnfold(m, s, key, value);
      var p := EmptyPage(m.nextPageId);
      var m1 := Allocate(m);
      var s2 := WriteAt(WriteAt(s, p.pageId, EncodePage(p)), 0, EncodeMeta(m1));
      assert Consistent(m1, s2);
      WriteBackConsistent(m1, s2, p, key, value);
    }
  }

  /** Writing a page that already exists back to its own page number keeps
      the metadata consistent. */
  lemma WriteBackConsistent(m: DatabaseMeta, s: Store, p: PageState, key: seq<byte>, value: seq<byte>)
    requires WellFormed(p) && Consistent(m, s) && (p.pageId in s.images || p.pageId == m.nextPageId - 1)
    ensures var o := WriteBack(m, s, p, key, value); Consistent(o.meta, o.store)
  {
    if ApplyWrite(p, key, value).Ok? {
      WriteLayout(p, key, value);
    }
  }

  /** After a successful InsertRecord, FindRecord finds the key; when no
      page held it before, FindRecord returns the value just inserted. */
  lemma InsertThenFind(m: DatabaseMeta, s: Store, key: seq<byte>, value: seq<byte>)
    requires StoreWellFormed(s) && 1 <= m.nextPageId <= m.lastPageId + 1 && m.nextPageId !in s.readFaults
    requires InsertSpec(m, s, key, value).status == Success
    ensures var o := InsertSpec(m, s, key, value);
            ScanKey(o.store, key, 1, o.meta.lastPageId).Ok? &&
            (ScanKey(s, key, 1, m.lastPageId).Err? ==> ScanKey(o.store, key, 1, o.meta.lastPageId) == Ok(value))
  {
    var found := ScanSpace(s, RecordSize(key, value), 1, m.lastPageId);
    if found.Some? {
      InsertFoundUnfold(m, s, key, value, found.value);
      InsertThenFindOld(m, s, key, value, found.value);
    } else {
      InsertNewUnfold(m, s, key, value);
      InsertThenFindNew(m, s, key, value);
    }
  }

  /** InsertThenFind when the record goes into the existing page n that the
      scan for room chose. */
  lemma InsertThenFindOld(m: DatabaseMeta, s: Store, key: seq<byte>, value: seq<byte>, n: nat)
    requires StoreWellFormed(s) && ScanSpace(s, RecordSize(key, value), 1, m.lastPageId) == Some(n)
    requires LoadState(s, n).Some? && WellFormed(LoadState(s, n).value)
    requires WriteBack(m, s, LoadState(s, n).value, key, value).status == Success
    ensures var o := WriteBack(m, s, LoadState(s, n).value, key, value);
            ScanKey(o.store, key, 1, m.lastPageId).Ok? &&
            (ScanKey(s, key, 1, m.lastPageId).Err? ==> ScanKey(o.store, key, 1, m.lastPageId) == Ok(value))
  {
    ScanSpaceFirst(s, RecordSize(key, value), 1, m.lastPageId);
    LoadWellFormed(s, n);
    var p := LoadState(s, n).value;
    assert ScanKey(s, key, 1, m.lastPageId).Err? ==> forall j :: 1 <= j <= n ==> PageLookup(s, j, key).None? by {
      ScanKeyNone(s, key, 1, m.lastPageId);
    }
    FindAfterWrite(s, p, key, value, m.lastPageId);
  }

  /** InsertThenFind when no page had room and the record goes into the
      page CreatePage just wrote out. */
  lemma InsertThenFindNew(m: DatabaseMeta, s: Store, key: seq<byte>, value: seq<byte>)
    requires 1 <= m.nextPageId <= m.lastPageId + 1 && m.nextPageId !in s.readFaults && m.nextPageId !in s.writeFaults
    ensures var p := EmptyPage(m.nextPageId);
            var s2 := WriteAt(WriteAt(s, p.pageId, EncodePage(p)), 0, EncodeMeta(Allocate(m)));
            var o := WriteBack(Allocate(m), s2, p, key, value);
            o.status == Success ==>
              ScanKey(o.store, key, 1, m.nextPageId).Ok? &&
              (ScanKey(s, key, 1, m.lastPageId).Err? ==> ScanKey(o.store, key, 1, m.nextPageId) == Ok(value))
  {
    var p := EmptyPage(m.nextPageId);
    var s2 := WriteAt(WriteAt(s, p.pageId, EncodePage(p)), 0, EncodeMeta(Allocate(m)));
    var o := WriteBack(Allocate(m), s2, p, key, value);
    if o.status == Success {
      assert ApplyWrite(p, key, value).Ok? && p.pageId !in s2.writeFaults &&
             o.store == WriteAt(s2, p.pageId, EncodePage(ApplyWrite(p, key, value).value));
      NewPageStored(m, s, key);
      assert ScanKey(s, key, 1, m.lastPageId).Err? ==> forall j :: 1 <= j <= p.pageId ==> PageLookup(s2, j, key).None? by {
        if ScanKey(s, key, 1, m.lastPageId).Err? {
          ScanKeyNone(s, key, 1, m.lastPageId);
          forall j | 1 <= j <= p.pageId ensures PageLookup(s2, j, key).None? {
            if j != p.pageId {
              assert PageLookup(s2, j, key) == PageLookup(s, j, key);
            }
          }
        }
      }
      FindAfterWrite(s2, p, key, value, m.nextPageId);
    }
  }

  /** The store after CreatePage's page and the metadata are written: the
      new page loads empty, and no other data page changes. */
  lemma NewPageStored(m: DatabaseMeta, s: Store, key: seq<byte>)
    requires m.nextPageId != 0 && m.nextPageId !in s.readFaults && m.nextPageId !in s.writeFaults
    ensures var p := EmptyPage(m.nextPageId);
            var s2 := WriteAt(WriteAt(s, p.pageId, EncodePage(p)), 0, EncodeMeta(Allocate(m)));
            LoadState(s2, p.pageId) == Some(p) && PageLookup(s2, p.pageId, key).None? &&
            s2.writeFaults == s.writeFaults &&
            forall j :: j != 0 && j != p.pageId ==> PageLookup(s2, j, key) == PageLookup(s, j, key)
  {
    var p := EmptyPage(m.nextPageId);
    var s1 := WriteAt(s, p.pageId, EncodePage(p));
    PagePersists(s, p, 0);
    ReadAfterWrite(s1, 0, EncodeMeta(Allocate(m)), p.pageId);
    forall j | j != 0 && j != p.pageId ensures PageLookup(WriteAt(s1, 0, EncodeMeta(Allocate(m))), j, key) == PageLookup(s, j, key) {
      LookupUnchanged(s, p, j, key);
      ReadAfterWrite(s1, 0, EncodeMeta(Allocate(m)), j);
    }
  }

  /** Writing the record into page n = p.pageId of s, where p is what page n
      loads as, and persisting it: page n now finds the key, and when no page
      below or at n found it before, the scan up to `last` returns the new
      value. */
  lemma FindAfterWrite(s: Store, p: PageState, key: seq<byte>, value: seq<byte>, last: nat)
    requires WellFormed(p) && 1 <= p.pageId <= last && LoadState(s, p.pageId) == Some(p)
    requires ApplyWrite(p, key, value).Ok? && p.pageId !in s.writeFaults
    ensures var s' := WriteAt(s, p.pageId, EncodePage(ApplyWrite(p, key, value).value));
            ScanKey(s', key, 1, last).Ok? &&
            ((forall j :: 1 <= j <= p.pageId ==> PageLookup(s, j, key).None?) ==> ScanKey(s', key, 1, last) == Ok(value))
  {
    var q := ApplyWrite(p, key, value).value;
    assert q.pageId == p.pageId && |q.data| == DataSize by {
      WritePreservesWellFormed(p, key, value);
    }
    WrittenPageLookup(s, p, key, value);
    ScanAfterPageWrite(s, q, key, value, last);
  }

  /** The scan after page q is written to its own page number: when page q
      then finds the key, so does the scan up to `last`; when it finds
      `value` and no page up to q.pageId found the key before, the scan
      returns `value`. */
  lemma ScanAfterPageWrite(s: Store, q: PageState, key: seq<byte>, value: seq<byte>, last: nat)
    requires |q.data| == DataSize && 1 <= q.pageId <= last && q.pageId !in s.writeFaults
    requires PageLookup(WriteAt(s, q.pageId, EncodePage(q)), q.pageId, key).Some?
    requires (forall j :: 1 <= j <= q.pageId ==> PageLookup(s, j, key).None?) ==>
               PageLookup(WriteAt(s, q.pageId, EncodePage(q)), q.pageId, key) == Some(value)
    ensures var s' := WriteAt(s, q.pageId, EncodePage(q));
            ScanKey(s', key, 1, last).Ok? &&
            ((forall j :: 1 <= j <= q.pageId ==> PageLookup(s, j, key).None?) ==> ScanKey(s', key, 1, last) == Ok(value))
  {
    var n := q.pageId;
    var s' := WriteAt(s, n, EncodePage(q));
    ScanKeyNone(s', key, 1, last);
    if forall j :: 1 <= j <= n ==> PageLookup(s, j, key).None? {
      forall j | 1 <= j < n ensures PageLookup(s', j, key).None? {
        LookupUnchanged(s, q, j, key);
      }
      ScanKeyAt(s', key, 1, last, n);
    }
  }

  /** FirstSome after f changes at n alone, where it now yields its old
      result if it had one and v otherwise: the first result up to n still
      wins, else v, whatever f yields above n. */
  lemma {:induction false} FirstSomeUpdate<T>(f: nat -> Option<T>, g: nat -> Option<T>, from: nat, n: nat, last: nat, v: T)
    requires from <= n <= last
    requires forall j :: j != n ==> g(j) == f(j)
    requires g(n) == if f(n).Some? then f(n) else Some(v)
    ensures FirstSome(g, from, last) == if FirstSome(f, from, n).Some? then FirstSome(f, from, n) else Some(v)
    decreases n - from
  {
    if from < n && f(from).None? {
      FirstSomeUpdate(f, g, from + 1, n, last, v);
    } else if from == n {
      assert FirstSome(f, n + 1, n) == None;
    }
  }

  /** InsertRecord into an existing page n, as FindRecord then sees it: the
      lowest page up to n that held the key before still decides the
      result; when none did, the new value is found, whatever the pages
      above n hold for the key. */
  lemma InsertFoundThenFind(m: DatabaseMeta, s: Store, key: seq<byte>, value: seq<byte>, n: nat)
    requires StoreWellFormed(s) && ScanSpace(s, RecordSize(key, value), 1, m.lastPageId) == Some(n)
    requires InsertSpec(m, s, key, value).status == Success
    ensures var o := InsertSpec(m, s, key, value);
            ScanKey(o.store, key, 1, o.meta.lastPageId) ==
              if ScanKey(s, key, 1, n).Ok? then ScanKey(s, key, 1, n) else Ok(value)
  {
    InsertIntoFound(m, s, key, value, n, 0);
    var p := LoadState(s, n).value;
    var o := InsertSpec(m, s, key, value);
    assert o == WriteBack(m, s, p, key, value) by {
      InsertFoundUnfold(m, s, key, value, n);
    }
    var q := ApplyWrite(p, key, value).value;
    assert q.pageId == n && |q.data| == DataSize by {
      WritePreservesWellFormed(p, key, value);
    }
    var s' := WriteAt(s, n, EncodePage(q));
    assert o.store == s' && o.meta == m;
    WrittenPageLookup(s, p, key, value);
    forall j | j != n ensures Lookups(s', key)(j) == Lookups(s, key)(j) {
      LookupUnchanged(s, q, j, key);
    }
    FirstSomeUpdate(Lookups(s, key), Lookups(s', key), 1, n, m.lastPageId, value);
  }

  /** A key inserted twice need not read back as its older value: when the
      older value sits on a page above the page that takes the new record,
      and no page up to that one holds the key, FindRecord returns the
      newer value. */
  lemma NewerValueShadowsOlder(m: DatabaseMeta, s: Store, key: seq<byte>, value: seq<byte>, n: nat, older: seq<byte>)
    requires StoreWellFormed(s) && ScanSpace(s, RecordSize(key, value), 1, m.lastPageId) == Some(n)
    requires InsertSpec(m, s, key, value).status == Success
    requires ScanKey(s, key, 1, m.lastPageId) == Ok(older) && ScanKey(s, key, 1, n).Err?
    ensures var o := InsertSpec(m, s, key, value);
            ScanKey(o.store, key, 1, o.meta.lastPageId) == Ok(value)
  {
    InsertFoundThenFind(m, s, key, value, n);
  }

  /** FirstSome over from .. lf when f yields nothing above mid: the result
      is decided on from .. mid, and any g that agrees with f there, scanned
      up to lg >= mid, gives the same result whenever that result is Some. */
  lemma {:induction false} FirstSomePrefix<T>(f: nat -> Option<T>, g: nat -> Option<T>, from: nat, mid: nat, lf: nat, lg: nat)
    requires mid <= lf && mid <= lg
    requires forall j :: from <= j <= mid ==> g(j) == f(j)
    requires forall j :: mid < j <= lf ==> f(j).None?
    ensures FirstSome(f, from, lf) == FirstSome(f, from, mid)
    ensures FirstSome(f, from, mid).Some? ==> FirstSome(g, from, lg) == FirstSome(f, from, mid)
    decreases mid + 1 - from
  {
    if from > mid {
      FirstSomeNone(f, from, lf);
    } else if f(from).None? {
      FirstSomePrefix(f, g, from + 1, mid, lf, lg);
    }
  }

  /** InsertRecord into a new page, as FindRecord then sees it: a key that
      some page already held keeps its older value, because the new page
      comes after every page that holds data. */
  lemma InsertNewThenFind(m: DatabaseMeta, s: Store, key: seq<byte>, value: seq<byte>, older: seq<byte>)
    requires StoreWellFormed(s) && Consistent(m, s) && ScanSpace(s, RecordSize(key, value), 1, m.lastPageId).None?
    requires m.nextPageId !in s.readFaults
    requires InsertSpec(m, s, key, value).status == Success
    requires ScanKey(s, key, 1, m.lastPageId) == Ok(older)
    ensures var o := InsertSpec(m, s, key, value);
            ScanKey(o.store, key, 1, o.meta.lastPageId) == Ok(older)
  {
    var p := EmptyPage(m.nextPageId);
    var s2 := WriteAt(WriteAt(s, p.pageId, EncodePage(p)), 0, EncodeMeta(Allocate(m)));
    var o := InsertSpec(m, s, key, value);
    assert m.nextPageId !in s.writeFaults && o == WriteBack(Allocate(m), s2, p, key, value) by {
      InsertNewUnfold(m, s, key, value);
    }
    assert ApplyWrite(p, key, value).Ok?;
    var q := ApplyWrite(p, key, value).value;
    assert q.pageId == p.pageId && |q.data| == DataSize by {
      WritePreservesWellFormed(p, key, value);
    }
    assert o.store == WriteAt(s2, p.pageId, EncodePage(q)) && o.meta.lastPageId == m.nextPageId;
    NewPageKeepsLookups(m, s, q, key);
    ScanKeyPrefix(s, o.store, key, m.nextPageId - 1, m.lastPageId, m.nextPageId);
  }

  /** After the new page, the metadata and then page q (numbered
      NextPageId) are written, every page below NextPageId finds what it
      found before. */
  lemma NewPageKeepsLookups(m: DatabaseMeta, s: Store, q: PageState, key: seq<byte>)
    requires q.pageId == m.nextPageId && |q.data| == DataSize
    requires m.nextPageId != 0 && m.nextPageId !in s.readFaults && m.nextPageId !in s.writeFaults
    ensures var p := EmptyPage(m.nextPageId);
            var s2 := WriteAt(WriteAt(s, p.pageId, EncodePage(p)), 0, EncodeMeta(Allocate(m)));
            forall j :: 1 <= j < m.nextPageId ==> PageLookup(WriteAt(s2, q.pageId, EncodePage(q)), j, key) == PageLookup(s, j, key)
  {
    var p := EmptyPage(m.nextPageId);
    var s2 := WriteAt(WriteAt(s, p.pageId, EncodePage(p)), 0, EncodeMeta(Allocate(m)));
    NewPageStored(m, s, key);
    forall j | 1 <= j < m.nextPageId ensures PageLookup(WriteAt(s2, q.pageId, EncodePage(q)), j, key) == PageLookup(s, j, key) {
      LookupUnchanged(s2, q, j, key);
    }
  }

  /** FindRecord on a store t that agrees with s on pages 1 .. mid, where s
      holds no data above mid: whatever s finds, t finds too. */
  lemma ScanKeyPrefix(s: Store, t: Store, key: seq<byte>, mid: nat, last: nat, lt: nat)
    requires mid <= last && mid <= lt
    requires forall j :: 1 <= j <= mid ==> PageLookup(t, j, key) == PageLookup(s, j, key)
    requires forall j :: mid < j <= last ==> j !in s.images
    ensures ScanKey(s, key, 1, last).Ok? ==> ScanKey(t, key, 1, lt) == ScanKey(s, key, 1, last)
  {
    forall j | 1 <= j <= mid ensures Lookups(t, key)(j) == Lookups(s, key)(j) {
    }
    forall j | mid < j <= last ensures Lookups(s, key)(j).None? {
    }
    FirstSomePrefix(Lookups(s, key), Lookups(t, key), 1, mid, last, lt);
  }

  /** The page just written finds the key: the older entry if it had one,
      else the new value. */
  lemma WrittenPageLookup(s: Store, p: PageState, key: seq<byte>, value: seq<byte>)
    requires WellFormed(p) && LoadState(s, p.pageId) == Some(p)
    requires ApplyWrite(p, key, value).Ok? && p.pageId !in s.writeFaults
    ensures var s' := WriteAt(s, p.pageId, EncodePage(ApplyWrite(p, key, value).value));
            PageLookup(s', p.pageId, key) ==
              if PageLookup(s, p.pageId, key).Some? then PageLookup(s, p.pageId, key) else Some(value)
  {
    var q := ApplyWrite(p, key, value).value;
    WriteThenRead(p, key, value);
    assert q.pageId == p.pageId;
    PagePersists(s, q, p.pageId);
  }

  /** Writing page q leaves every other page's lookup as it was. */
  lemma LookupUnchanged(s: Store, q: PageState, j: nat, key: seq<byte>)
    requires |q.data| == DataSize && q.pageId !in s.writeFaults && j != q.pageId
    ensures PageLookup(WriteAt(s, q.pageId, EncodePage(q)), j, key) == PageLookup(s, j, key)
  {
    PagePersists(s, q, j);
  }

  class PageManager {
    var meta: DatabaseMeta
    const disk: Disk

    /** The block store holds well-formed data pages. */
    ghost predicate Valid()
      reads this, disk
    {
      StoreWellFormed(disk.store)
    }

    /** NewPageManager. */
    constructor (d: Disk)
      ensures meta == InitialMeta && disk == d
      ensures Valid() <==> StoreWellFormed(d.store)
    {
      meta := InitialMeta;
      disk := d;
    }

    /** CreatePage: an empty in-memory page numbered NextPageId; the
        metadata steps, nothing is written. */
    method CreatePage() returns (page: Page)
      modifies this
      ensures fresh(page) && fresh(page.ptr) && page.Valid()
      ensures page.State() == EmptyPage(old(meta.nextPageId))
      ensures meta == Allocate(old(meta))
    {
      page := new Page.Empty(meta.nextPageId);
      meta := meta.(lastPageId := meta.nextPageId);
      meta := meta.(nextPageId := Inc64(meta.lastPageId));
      meta := meta.(pageCount := Inc64(meta.pageCount));
    }

    /** LoadMetaPage: the counters from page 0, or the read error with the
        counters untouched. */
    method LoadMetaPage() returns (r: Status)
      requires ReadAt(disk.store, 0).Ok? ==> |ReadAt(disk.store, 0).value| == PageSize
      modifies this
      ensures match ReadAt(disk.store, 0)
              case Err(e) => r == Failure(e) && meta == old(meta)
              case Ok(img) => r == Success && meta == DecodeMeta(img)
    {
      var buf := disk.Read(0);
      if buf.Err? {
        return Failure(buf.error);
      }
      meta := DecodeMeta(buf.value);
      return Success;
    }

    /** SaveMetaDataPage: the counters to page 0. */
    method SaveMetaDataPage() returns (r: Status)
      requires Valid()
      modifies disk
      ensures Valid()
      ensures r == WriteStatus(old(disk.store), 0) && disk.store == WriteAt(old(disk.store), 0, EncodeMeta(meta))
    {
      WriteMetaKeepsWellFormed(disk.store, meta);
      r := disk.Write(0, EncodeMeta(meta));
    }

    /** LoadPage: a new in-memory page parsed from the image of page
        `pageId`, or the read error. */
    method LoadPage(pageId: u64) returns (r: Result<Page>)
      requires Valid()
      ensures r.Err? ==> r.error == ReadFailed && LoadState(disk.store, pageId).None?
      ensures r.Ok? ==> fresh(r.value) && fresh(r.value.ptr) && LoadState(disk.store, pageId) == Some(r.value.State())
    {
      var buf := disk.Read(pageId);
      if buf.Err? {
        return Err(buf.error);
      }
      var page := new Page.Decoded(DecodePage(buf.value));
      return Ok(page);
    }

    /** writePageToDisk: the page's image to its own page number. */
    method WritePageToDisk(page: Page) returns (r: Status)
      requires Valid() && page.Valid()
      modifies disk
      ensures Valid()
      ensures r == WriteStatus(old(disk.store), page.pageId)
      ensures disk.store == WriteAt(old(disk.store), page.pageId, EncodePage(page.State()))
    {
      WriteKeepsWellFormed(disk.store, page.State());
      r := disk.Write(page.pageId, EncodePage(page.State()));
    }

    /** findPageWithSpace: pages 1 .. LastPageId in ascending order, skipping
        those that fail to load; the first with FreeSpace >= recordSize. */
    method FindPageWithSpace(recordSize: int) returns (r: Result<Page>)
      requires Valid() && meta.lastPageId < MaxU64
      ensures var found := ScanSpace(disk.store, recordSize, 1, meta.lastPageId);
              (r.Ok? <==> found.Some?) && (r.Err? ==> r.error == NoPageWithSpace) &&
              (r.Ok? ==> fresh(r.value) && fresh(r.value.ptr) && r.value.Valid() &&
                         LoadState(disk.store, found.value) == Some(r.value.State()))
    {
      var pageId: u64 := 1;
      while pageId <= meta.lastPageId
        invariant 1 <= pageId <= meta.lastPageId + 1
        invariant ScanSpace(disk.store, recordSize, pageId, meta.lastPageId) ==
                  ScanSpace(disk.store, recordSize, 1, meta.lastPageId)
        decreases meta.lastPageId + 1 - pageId
      {
        var loaded := LoadPage(pageId);
        if loaded.Ok? && loaded.value.HasSpace(recordSize) {
          LoadWellFormed(disk.store, pageId);
          return loaded;
        }
        pageId := pageId + 1;
      }
      return Err(NoPageWithSpace);
    }

    /** FindRecord: pages 1 .. LastPageId in ascending order, skipping those
        that fail to load; the value from the first whose ReadRecord finds
        the key. */
    method FindRecord(key: seq<byte>) returns (r: Result<seq<byte>>)
      requires Valid() && meta.lastPageId < MaxU64
      ensures r == ScanKey(disk.store, key, 1, meta.lastPageId)
    {
      var pageId: u64 := 1;
      while pageId <= meta.lastPageId
        invariant 1 <= pageId <= meta.lastPageId + 1
        invariant ScanKey(disk.store, key, pageId, meta.lastPageId) == ScanKey(disk.store, key, 1, meta.lastPageId)
        decreases meta.lastPageId + 1 - pageId
      {
        var loaded := LoadPage(pageId);
        if loaded.Ok? {
          LoadWellFormed(disk.store, pageId);
          var value, found := loaded.value.ReadRecord(key);
          if found {
            return Ok(value);
          }
        }
        pageId := pageId + 1;
      }
      return Err(KeyNotFound);
    }

    /** InsertRecord: into the first page with room for the record bytes, or
        into a new page written out first; the metadata save's error is
        dropped. */
    method InsertRecord(key: seq<byte>, value: seq<byte>) returns (r: Status)
      requires Valid() && meta.lastPageId < MaxU64
      modifies this, disk
      ensures Valid()
      ensures Outcome(r, meta, disk.store) == InsertSpec(old(meta), old(disk.store), key, value)
    {
      ghost var m0, s0 := meta, disk.store;
      var recordSize := RecordSize(key, value);
      ghost var room := ScanSpace(s0, recordSize, 1, m0.lastPageId);
      var found := FindPageWithSpace(recordSize);
      var page: Page;
      if found.Err? {
        InsertNewUnfold(m0, s0, key, value);
        page := CreatePage();
        r := WritePageToDisk(page);
        if r.Failure? {
          return r;
        }
        var _ := SaveMetaDataPage();
      } else {
        InsertFoundUnfold(m0, s0, key, value, room.value);
        page := found.value;
      }
      r := WriteBackPage(page, key, value);
    }

    /** The tail of InsertRecord: WriteRecord on the chosen page, then
        writePageToDisk if that succeeded. */
    method WriteBackPage(page: Page, key: seq<byte>, value: seq<byte>) returns (r: Status)
      requires Valid() && page.Valid()
      modifies disk, page, page.ptr
      ensures Valid()
      ensures Outcome(r, meta, disk.store) == WriteBack(meta, old(disk.store), old(page.State()), key, value)
    {
      r := page.WriteRecord(key, value);
      if r.Failure? {
        return r;
      }
      r := WritePageToDisk(page);
    }
  }
}
