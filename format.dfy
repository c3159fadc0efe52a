/** The slotted-page layout of one 4096-byte page, as pure values.

    A page is a 16-byte header (PageId, Count, FreeSpace, DataStart) and a
    4080-byte data region. The data region holds an array of 6-byte slots
    growing upward from offset 0 and variable-length records
    `keyLen | valueLen | key | value` packed downward from offset 4080. */
module PageFormat {
  import opened Bytes
  import opened Errors

  const PageSize: nat := 4096
  const HeaderSize: nat := 16
  const DataSize: nat := PageSize - HeaderSize
  const SlotSize: nat := 6
  const KeySize: nat := 2
  const ValueSize: nat := 2
  const MaxKeyBytes: nat := 400
  const MaxValueBytes: nat := 400

  /** One slot-array entry: where a record starts, how long it is, and
      whether it is active (flag 0) or logically deleted. */
  datatype Slot = Slot(offset: u16, len: u16, flag: u16)

  /** What one slot and the record it points to say, decoded. */
  datatype Entry = Entry(key: seq<byte>, value: seq<byte>, flag: u16)

  /** The fields of a Go `Page` value: header counters and the data region. */
  datatype PageState = PageState(pageId: u64, count: u32, freeSpace: u16, dataStart: u16, data: seq<byte>)

  /** `data` with the bytes at [pos, pos + |bytes|) replaced by `bytes`. */
  function Splice(data: seq<byte>, pos: nat, bytes: seq<byte>): (r: seq<byte>)
    requires pos + |bytes| <= |data|
    ensures |r| == |data|
  {
    data[..pos] + bytes + data[pos + |bytes|..]
  }

  /** Splice, byte by byte: the window holds `bytes`, the rest is `data`. */
  lemma SpliceIndex(data: seq<byte>, pos: nat, bytes: seq<byte>)
    requires pos + |bytes| <= |data|
    ensures forall j :: pos <= j < pos + |bytes| ==> Splice(data, pos, bytes)[j] == bytes[j - pos]
    ensures forall j :: 0 <= j < |data| && !(pos <= j < pos + |bytes|) ==> Splice(data, pos, bytes)[j] == data[j]
  {
  }

  /** Two adjacent splices are one splice of the concatenation. */
  lemma SpliceAdjacent(data: seq<byte>, pos: nat, a: seq<byte>, b: seq<byte>)
    requires pos + |a| + |b| <= |data|
    ensures Splice(Splice(data, pos, a), pos + |a|, b) == Splice(data, pos, a + b)
  {
    var l := Splice(Splice(data, pos, a), pos + |a|, b);
    var r := Splice(data, pos, a + b);
    SpliceIndex(data, pos, a);
    SpliceIndex(Splice(data, pos, a), pos + |a|, b);
    SpliceIndex(data, pos, a + b);
    assert |l| == |r|;
    forall j | 0 <= j < |l| ensures l[j] == r[j] {
      if pos <= j < pos + |a| {
        assert (a + b)[j - pos] == a[j - pos];
      } else if pos + |a| <= j < pos + |a| + |b| {
        assert (a + b)[j - pos] == b[j - pos - |a|];
      }
    }
  }

  /** The 16-bit little-endian number stored at data[pos], data[pos + 1]. */
  function U16At(data: seq<byte>, pos: nat): u16
    requires pos + 2 <= |data|
  {
    FromLE(data[pos..pos + 2])
  }

  // ---------------------------------------------------------------------
  // Slots (page.go GetSlot / SetSlot)
  // ---------------------------------------------------------------------

  function EncodeSlot(s: Slot): (r: seq<byte>)
    ensures |r| == SlotSize
  {
    LE(s.offset, 2) + LE(s.len, 2) + LE(s.flag, 2)
  }

  /** Slot `index`, decoded from its six bytes at 6 * index. */
  function SlotAt(data: seq<byte>, index: nat): Slot
    requires SlotSize * index + SlotSize <= |data|
  {
    var p := SlotSize * index;
    Slot(U16At(data, p), U16At(data, p + 2), U16At(data, p + 4))
  }

  /** `data` with slot `index` overwritten by the encoding of `s`. */
  function PutSlot(data: seq<byte>, index: nat, s: Slot): (r: seq<byte>)
    requires SlotSize * index + SlotSize <= |data|
    ensures |r| == |data|
  {
    Splice(data, SlotSize * index, EncodeSlot(s))
  }

  /** Decoding six bytes and encoding the slot again gives the six bytes. */
  lemma EncodeSlotAt(data: seq<byte>, index: nat)
    requires SlotSize * index + SlotSize <= |data|
    ensures EncodeSlot(SlotAt(data, index)) == data[SlotSize * index..SlotSize * index + SlotSize]
  {
    var p := SlotSize * index;
    LEOfFromLE(data[p..p + 2]);
    LEOfFromLE(data[p + 2..p + 4]);
    LEOfFromLE(data[p + 4..p + 6]);
    assert data[p..p + 6] == data[p..p + 2] + data[p + 2..p + 4] + data[p + 4..p + 6];
  }

  /** Writing a slot and reading it back gives the slot; only its six bytes
      change, so every other slot reads back as before. */
  lemma {:induction false} SlotRoundTrip(data: seq<byte>, index: nat, s: Slot)
    requires SlotSize * index + SlotSize <= |data|
    ensures SlotAt(PutSlot(data, index, s), index) == s
    ensures forall j :: 0 <= j < |data| && !(SlotSize * index <= j < SlotSize * index + SlotSize) ==>
              PutSlot(data, index, s)[j] == data[j]
    ensures forall other: nat :: other != index && SlotSize * other + SlotSize <= |data| ==>
              SlotAt(PutSlot(data, index, s), other) == SlotAt(data, other)
  {
    var p := SlotSize * index;
    var d := PutSlot(data, index, s);
    SpliceIndex(data, p, EncodeSlot(s));
    assert d[p..p + 2] == LE(s.offset, 2);
    assert d[p + 2..p + 4] == LE(s.len, 2);
    assert d[p + 4..p + 6] == LE(s.flag, 2);
    FromLEOfLE(s.offset, 2);
    FromLEOfLE(s.len, 2);
    FromLEOfLE(s.flag, 2);
    forall other: nat | other != index && SlotSize * other + SlotSize <= |data|
      ensures SlotAt(d, other) == SlotAt(data, other)
    {
      var q := SlotSize * other;
      assert d[q..q + 2] == data[q..q + 2];
      assert d[q + 2..q + 4] == data[q + 2..q + 4];
      assert d[q + 4..q + 6] == data[q + 4..q + 6];
    }
  }

  // ---------------------------------------------------------------------
  // Records and the well-formedness invariant
  // ---------------------------------------------------------------------

  function RecordSize(key: seq<byte>, value: seq<byte>): nat
  {
    KeySize + ValueSize + |key| + |value|
  }

  /** `keyLen | valueLen | key | value`, lengths little-endian. */
  function EncodeRecord(key: seq<byte>, value: seq<byte>): (r: seq<byte>)
    requires |key| <= MaxKeyBytes && |value| <= MaxValueBytes
    ensures |r| == RecordSize(key, value)
  {
    LE(|key|, 2) + LE(|value|, 2) + key + value
  }

  /** Slot `i` lies inside the data region and points at a record, also
      inside the data region, whose two length fields add up to the slot's
      length. This is what keeps ReadRecord's slicing in range. */
  ghost predicate RecordInPage(data: seq<byte>, i: nat)
  {
    SlotSize * i + SlotSize <= |data| &&
    var s := SlotAt(data, i);
    4 <= s.len && s.offset + s.len <= |data| &&
    4 + U16At(data, s.offset) + U16At(data, s.offset + 2) == s.len
  }

  /** The page invariant: the slot array [0, 6 * Count) and the record bytes
      [DataStart, 4080) do not overlap, FreeSpace is the gap between them,
      and every slot points at a record at or above DataStart. A page
      without records has the whole data region free. */
  ghost predicate WellFormed(st: PageState)
  {
    |st.data| == DataSize &&
    (st.count == 0 ==> st.freeSpace == DataSize) &&
    (st.count > 0 ==> st.dataStart <= DataSize && st.freeSpace == st.dataStart - SlotSize * st.count) &&
    forall i :: 0 <= i < st.count ==> RecordInPage(st.data, i) && st.dataStart <= SlotAt(st.data, i).offset
  }

  /** The key, value and flag that slot i and its record hold. */
  ghost function EntryAt(data: seq<byte>, i: nat): Entry
    requires RecordInPage(data, i)
  {
    var s := SlotAt(data, i);
    var kl := U16At(data, s.offset);
    var vl := U16At(data, s.offset + 2);
    Entry(data[s.offset + 4..s.offset + 4 + kl], data[s.offset + 4 + kl..s.offset + 4 + kl + vl], s.flag)
  }

  /** The entries of slots 0 .. n-1, in slot order. */
  ghost function Entries(data: seq<byte>, n: nat): (es: seq<Entry>)
    requires forall i :: 0 <= i < n ==> RecordInPage(data, i)
    ensures |es| == n
  {
    if n == 0 then [] else Entries(data, n - 1) + [EntryAt(data, n - 1)]
  }

  /** The abstract content of a well-formed page: its entries in slot order. */
  ghost function PageEntries(st: PageState): seq<Entry>
    requires WellFormed(st)
  {
    Entries(st.data, st.count)
  }

  lemma {:induction false} EntriesIndex(data: seq<byte>, n: nat, i: nat)
    requires forall j :: 0 <= j < n ==> RecordInPage(data, j)
    requires i < n
    ensures Entries(data, n)[i] == EntryAt(data, i)
  {
    if i < n - 1 {
      EntriesIndex(data, n - 1, i);
    }
  }

  /** Slot i and its record, spelled out: in range, and decoding to EntryAt. */
  lemma SlotEntry(data: seq<byte>, i: nat)
    requires RecordInPage(data, i)
    ensures var s := SlotAt(data, i);
            s.offset + 4 <= |data| &&
            var kl := U16At(data, s.offset);
            var vl := U16At(data, s.offset + 2);
            s.offset + 4 + kl + vl <= |data| &&
            EntryAt(data, i) == Entry(data[s.offset + 4..s.offset + 4 + kl],
                                      data[s.offset + 4 + kl..s.offset + 4 + kl + vl], s.flag)
  {
  }

  /** The five length and offset fields and the key and value bytes of
      slot i decide that slot and its entry. */
  lemma EntryAtFrame(data: seq<byte>, data': seq<byte>, i: nat, off: nat, kl: nat, vl: nat)
    requires RecordInPage(data, i) && |data'| == |data|
    requires var p := SlotSize * i;
             data'[p..p + 2] == data[p..p + 2] && data'[p + 2..p + 4] == data[p + 2..p + 4] &&
             data'[p + 4..p + 6] == data[p + 4..p + 6]
    requires off == SlotAt(data, i).offset && kl == U16At(data, off) && vl == U16At(data, off + 2)
    requires data'[off..off + 2] == data[off..off + 2] && data'[off + 2..off + 4] == data[off + 2..off + 4]
    requires data'[off + 4..off + 4 + kl] == data[off + 4..off + 4 + kl]
    requires data'[off + 4 + kl..off + 4 + kl + vl] == data[off + 4 + kl..off + 4 + kl + vl]
    ensures RecordInPage(data', i) && SlotAt(data', i) == SlotAt(data, i)
    ensures EntryAt(data', i) == EntryAt(data, i)
  {
    assert SlotAt(data', i) == SlotAt(data, i);
    assert U16At(data', off) == kl && U16At(data', off + 2) == vl;
    var flag := SlotAt(data, i).flag;
    assert EntryAt(data, i) == Entry(data[off + 4..off + 4 + kl], data[off + 4 + kl..off + 4 + kl + vl], flag);
    assert EntryAt(data', i) == Entry(data'[off + 4..off + 4 + kl], data'[off + 4 + kl..off + 4 + kl + vl], flag);
  }

  /** Bytes outside [lo, hi) decide the entries of every slot below n whose
      record lies at or above hi, when the slot array ends at or below lo. */
  lemma RecordsFrame(data: seq<byte>, data': seq<byte>, n: nat, lo: nat, hi: nat)
    requires forall i :: 0 <= i < n ==> RecordInPage(data, i) && hi <= SlotAt(data, i).offset
    requires SlotSize * n <= lo <= hi <= |data|
    requires |data'| == |data|
    requires forall j :: 0 <= j < |data| && !(lo <= j < hi) ==> data'[j] == data[j]
    ensures forall i :: 0 <= i < n ==> RecordInPage(data', i) && SlotAt(data', i) == SlotAt(data, i)
    ensures forall i :: 0 <= i < n ==> RecordInPage(data', i) && EntryAt(data', i) == EntryAt(data, i)
  {
    assert data'[..lo] == data[..lo];
    assert data'[hi..] == data[hi..];
    forall i | 0 <= i < n
      ensures RecordInPage(data', i) && SlotAt(data', i) == SlotAt(data, i) && EntryAt(data', i) == EntryAt(data, i)
    {
      SlotFrame(data, data', i, lo, hi);
    }
  }

  /** RecordsFrame for one slot i, with the unchanged bytes given as the
      prefix below lo and the suffix from hi. */
  lemma SlotFrame(data: seq<byte>, data': seq<byte>, i: nat, lo: nat, hi: nat)
    requires RecordInPage(data, i) && hi <= SlotAt(data, i).offset
    requires SlotSize * i + SlotSize <= lo <= hi <= |data| == |data'|
    requires data'[..lo] == data[..lo] && data'[hi..] == data[hi..]
    ensures RecordInPage(data', i) && SlotAt(data', i) == SlotAt(data, i) && EntryAt(data', i) == EntryAt(data, i)
  {
    var p := SlotSize * i;
    SliceBelow(data, data', p, p + 2, lo);
    SliceBelow(data, data', p + 2, p + 4, lo);
    SliceBelow(data, data', p + 4, p + 6, lo);
    var off: nat := SlotAt(data, i).offset;
    var kl: nat := U16At(data, off);
    var vl: nat := U16At(data, off + 2);
    SliceAbove(data, data', off, off + 2, hi);
    SliceAbove(data, data', off + 2, off + 4, hi);
    SliceAbove(data, data', off + 4, off + 4 + kl, hi);
    SliceAbove(data, data', off + 4 + kl, off + 4 + kl + vl, hi);
    EntryAtFrame(data, data', i, off, kl, vl);
  }

  /** A slice below lo of two strings with the same prefix up to lo. */
  lemma SliceBelow(data: seq<byte>, data': seq<byte>, a: nat, b: nat, lo: nat)
    requires a <= b <= lo <= |data| == |data'| && data'[..lo] == data[..lo]
    ensures data'[a..b] == data[a..b]
  {
    forall k | a <= k < b ensures data'[k] == data[k] {
      assert data'[k] == data'[..lo][k] && data[k] == data[..lo][k];
    }
    assert data'[a..b] == data[a..b];
  }

  /** A slice from hi on of two strings with the same suffix from hi. */
  lemma SliceAbove(data: seq<byte>, data': seq<byte>, a: nat, b: nat, hi: nat)
    requires hi <= a <= b <= |data| == |data'| && data'[hi..] == data[hi..]
    ensures data'[a..b] == data[a..b]
  {
    forall k | a <= k < b ensures data'[k] == data[k] {
      assert data'[k] == data'[hi..][k - hi] && data[k] == data[hi..][k - hi];
    }
    assert data'[a..b] == data[a..b];
  }

  /** Two byte strings whose first n records agree have the same first n entries. */
  lemma {:induction false} EntriesAgree(data: seq<byte>, data': seq<byte>, n: nat)
    requires forall i :: 0 <= i < n ==> RecordInPage(data, i)
    requires forall i :: 0 <= i < n ==> RecordInPage(data', i) && EntryAt(data', i) == EntryAt(data, i)
    ensures Entries(data', n) == Entries(data, n)
  {
    if n > 0 {
      EntriesAgree(data, data', n - 1);
    }
  }

  // ---------------------------------------------------------------------
  // Lookup (page.go ReadRecord): the oldest active entry with the key
  // ---------------------------------------------------------------------

  predicate Matches(e: Entry, key: seq<byte>)
  {
    e.flag == 0 && e.key == key
  }

  /** The value of the first active entry, in slot order, whose key is `key`. */
  function FindFirst(es: seq<Entry>, key: seq<byte>): Option<seq<byte>>
  {
    if es == [] then None
    else if Matches(es[0], key) then Some(es[0].value)
    else FindFirst(es[1..], key)
  }

  /** If entry i is the first match, the lookup yields its value. */
  lemma {:induction false} FindFirstAt(es: seq<Entry>, key: seq<byte>, i: nat)
    requires i < |es| && Matches(es[i], key)
    requires forall j :: 0 <= j < i ==> !Matches(es[j], key)
    ensures FindFirst(es, key) == Some(es[i].value)
  {
    if i > 0 {
      FindFirstAt(es[1..], key, i - 1);
    }
  }

  /** If no entry matches, the lookup finds nothing. */
  lemma {:induction false} FindFirstNone(es: seq<Entry>, key: seq<byte>)
    requires forall j :: 0 <= j < |es| ==> !Matches(es[j], key)
    ensures FindFirst(es, key) == None
  {
    if es != [] {
      FindFirstNone(es[1..], key);
    }
  }

  /** The lookup over the first n slots, in terms of the slots: the first
      matching slot decides it. */
  lemma EntriesFindAt(data: seq<byte>, n: nat, key: seq<byte>, i: nat)
    requires forall j :: 0 <= j < n ==> RecordInPage(data, j)
    requires i < n && Matches(EntryAt(data, i), key)
    requires forall j :: 0 <= j < i ==> !Matches(EntryAt(data, j), key)
    ensures FindFirst(Entries(data, n), key) == Some(EntryAt(data, i).value)
  {
    var es := Entries(data, n);
    forall j | 0 <= j <= i ensures es[j] == EntryAt(data, j) {
      EntriesIndex(data, n, j);
    }
    FindFirstAt(es, key, i);
  }

  /** The lookup over the first n slots finds nothing when no slot matches. */
  lemma EntriesFindNone(data: seq<byte>, n: nat, key: seq<byte>)
    requires forall j :: 0 <= j < n ==> RecordInPage(data, j)
    requires forall j :: 0 <= j < n ==> !Matches(EntryAt(data, j), key)
    ensures FindFirst(Entries(data, n), key) == None
  {
    var es := Entries(data, n);
    forall j | 0 <= j < n ensures es[j] == EntryAt(data, j) {
      EntriesIndex(data, n, j);
    }
    FindFirstNone(es, key);
  }

  /** Appending an entry changes a lookup only when nothing earlier matched. */
  lemma {:induction false} FindFirstAppend(es: seq<Entry>, e: Entry, key: seq<byte>)
    ensures FindFirst(es + [e], key) ==
              if FindFirst(es, key).Some? then FindFirst(es, key)
              else if Matches(e, key) then Some(e.value)
              else None
  {
    if es != [] {
      assert (es + [e])[1..] == es[1..] + [e];
      FindFirstAppend(es[1..], e, key);
    }
  }

  // ---------------------------------------------------------------------
  // Insertion (page.go WriteRecord)
  // ---------------------------------------------------------------------

  /** The page Go's CreatePage builds: no records, the whole data region
      free, DataStart 0, a zeroed buffer. */
  function EmptyPage(id: u64): (st: PageState)
    ensures WellFormed(st) && PageEntries(st) == []
  {
    PageState(id, 0, DataSize, 0, seq(DataSize, _ => 0))
  }

  /** Where the next record ends: the top of the data region for the first
      record, DataStart afterwards. */
  function RecordTop(st: PageState): nat
  {
    if st.count == 0 then DataSize else st.dataStart
  }

  /** WriteRecord on a page value: the checks first, in the source's order,
      then the record bytes below RecordTop, then the slot at index Count,
      then the three counters. */
  function ApplyWrite(st: PageState, key: seq<byte>, value: seq<byte>): (r: Result<PageState>)
    requires WellFormed(st)
    ensures r.Ok? <==> |key| <= MaxKeyBytes && |value| <= MaxValueBytes &&
                       RecordSize(key, value) + SlotSize <= st.freeSpace
    ensures r.Err? ==> r.error == (if |key| > MaxKeyBytes then KeyTooLarge
                                   else if |value| > MaxValueBytes then ValueTooLarge
                                   else NotEnoughSpace)
  {
    if |key| > MaxKeyBytes then Err(KeyTooLarge)
    else if |value| > MaxValueBytes then Err(ValueTooLarge)
    else if st.freeSpace < RecordSize(key, value) + SlotSize then Err(NotEnoughSpace)
    else
      var size := RecordSize(key, value);
      var start := RecordTop(st) - size;
      var data := PutSlot(Splice(st.data, start, EncodeRecord(key, value)), st.count, Slot(start, size, 0));
      Ok(PageState(st.pageId, st.count + 1, st.freeSpace - (size + SlotSize), start, data))
  }

  /** A splice right after an earlier one extends it. */
  lemma SpliceChain(d0: seq<byte>, d1: seq<byte>, d2: seq<byte>, pos: nat, a: seq<byte>, b: seq<byte>)
    requires pos + |a| + |b| <= |d0|
    requires d1 == Splice(d0, pos, a) && d2 == Splice(d1, pos + |a|, b)
    ensures d2 == Splice(d0, pos, a + b)
  {
    SpliceAdjacent(d0, pos, a, b);
  }

  /** A write that passes the checks fits below RecordTop, above the
      grown slot array. */
  lemma WriteFits(st: PageState, key: seq<byte>, value: seq<byte>)
    requires WellFormed(st) && ApplyWrite(st, key, value).Ok?
    ensures RecordTop(st) <= DataSize
    ensures RecordSize(key, value) + SlotSize * st.count + SlotSize <= RecordTop(st)
  {
  }

  /** A successful write, field by field. */
  lemma ApplyWriteOk(st: PageState, key: seq<byte>, value: seq<byte>)
    requires WellFormed(st) && ApplyWrite(st, key, value).Ok?
    ensures var size := RecordSize(key, value);
            var start := RecordTop(st) - size;
            ApplyWrite(st, key, value).value ==
              PageState(st.pageId, st.count + 1, st.freeSpace - (size + SlotSize), start,
                        PutSlot(Splice(st.data, start, EncodeRecord(key, value)), st.count, Slot(start, size, 0)))
  {
  }

  /** Byte-level effect of a successful write: the record sits right below
      RecordTop, the new slot at index Count points at it, the counters step,
      and no byte outside the new slot and the new record changes. */
  lemma WriteLayout(st: PageState, key: seq<byte>, value: seq<byte>)
    requires WellFormed(st) && ApplyWrite(st, key, value).Ok?
    ensures var r := ApplyWrite(st, key, value).value;
            var top := RecordTop(st);
            var size := RecordSize(key, value);
            var n := st.count;
            size <= top && SlotSize * n + SlotSize <= top - size &&
            r.pageId == st.pageId && r.count == n + 1 && r.dataStart == top - size &&
            r.freeSpace == st.freeSpace - (size + SlotSize) &&
            r.data[top - size..top] == EncodeRecord(key, value) &&
            SlotAt(r.data, n) == Slot(top - size, size, 0) &&
            forall j :: (0 <= j < DataSize && !(SlotSize * n <= j < SlotSize * n + SlotSize) &&
                         !(top - size <= j < top)) ==> r.data[j] == st.data[j]
  {
    var top := RecordTop(st);
    var size := RecordSize(key, value);
    var n := st.count;
    var d1 := Splice(st.data, top - size, EncodeRecord(key, value));
    var d2 := PutSlot(d1, n, Slot(top - size, size, 0));
    SpliceIndex(st.data, top - size, EncodeRecord(key, value));
    SlotRoundTrip(d1, n, Slot(top - size, size, 0));
    assert d2[top - size..top] == d1[top - size..top];
  }

  /** A successful write keeps the page invariant; in particular
      FreeSpace == DataStart - 6 * Count afterwards. */
  lemma WritePreservesWellFormed(st: PageState, key: seq<byte>, value: seq<byte>)
    requires WellFormed(st) && ApplyWrite(st, key, value).Ok?
    ensures var r := ApplyWrite(st, key, value).value;
            WellFormed(r) && r.freeSpace == r.dataStart - SlotSize * r.count
  {
    var r := ApplyWrite(st, key, value).value;
    WriteLayout(st, key, value);
    NewRecordInPage(st, key, value);
    AppendKeepsRecords(st, r);
    AppendWellFormed(st, r);
  }

  /** A page that changes no byte outside [6 * Count, RecordTop) keeps
      every existing slot and record. */
  lemma AppendKeepsRecords(st: PageState, r: PageState)
    requires WellFormed(st)
    requires |r.data| == DataSize
    requires forall j :: (0 <= j < DataSize && !(SlotSize * st.count <= j < RecordTop(st))) ==> r.data[j] == st.data[j]
    ensures forall i :: 0 <= i < st.count ==> RecordInPage(r.data, i) && SlotAt(r.data, i) == SlotAt(st.data, i)
    ensures forall i :: 0 <= i < st.count ==> RecordInPage(r.data, i) && EntryAt(r.data, i) == EntryAt(st.data, i)
  {
    var n := st.count;
    if n > 0 {
      RecordsFrame(st.data, r.data, n, SlotSize * n, RecordTop(st));
    }
  }

  /** A page that keeps the old slots, adds one in-range record at DataStart
      and one slot at index Count, and accounts for both in FreeSpace, is
      well-formed again. */
  lemma AppendWellFormed(st: PageState, r: PageState)
    requires WellFormed(st)
    requires |r.data| == DataSize && r.count == st.count + 1
    requires SlotSize * r.count <= r.dataStart <= RecordTop(st)
    requires r.freeSpace == r.dataStart - SlotSize * r.count
    requires forall i :: 0 <= i < st.count ==> RecordInPage(r.data, i) && SlotAt(r.data, i) == SlotAt(st.data, i)
    requires RecordInPage(r.data, st.count) && SlotAt(r.data, st.count).offset == r.dataStart
    ensures WellFormed(r)
  {
    forall i | 0 <= i < r.count
      ensures RecordInPage(r.data, i) && r.dataStart <= SlotAt(r.data, i).offset
    {
      if i < st.count {
        assert SlotAt(r.data, i) == SlotAt(st.data, i);
      }
    }
  }

  /** The slot a successful write appends decodes to the written key and value. */
  lemma NewRecordInPage(st: PageState, key: seq<byte>, value: seq<byte>)
    requires WellFormed(st) && ApplyWrite(st, key, value).Ok?
    ensures var r := ApplyWrite(st, key, value).value;
            RecordInPage(r.data, st.count) && EntryAt(r.data, st.count) == Entry(key, value, 0) &&
            SlotAt(r.data, st.count).offset == r.dataStart
  {
    var r := ApplyWrite(st, key, value).value;
    WriteLayout(st, key, value);
    SlotDecodes(r.data, st.count, r.dataStart, key, value);
  }

  /** A slot pointing at an encoded record decodes to that record's entry. */
  lemma SlotDecodes(d: seq<byte>, n: nat, start: u16, key: seq<byte>, value: seq<byte>)
    requires |key| <= MaxKeyBytes && |value| <= MaxValueBytes
    requires SlotSize * n + SlotSize <= |d| && start + RecordSize(key, value) <= |d|
    requires SlotAt(d, n) == Slot(start, RecordSize(key, value), 0)
    requires d[start..start + RecordSize(key, value)] == EncodeRecord(key, value)
    ensures RecordInPage(d, n) && EntryAt(d, n) == Entry(key, value, 0)
  {
    RecordFields(d, start, key, value);
  }

  /** The fields of an encoded record, read back from the bytes that hold it. */
  lemma RecordFields(d: seq<byte>, start: nat, key: seq<byte>, value: seq<byte>)
    requires |key| <= MaxKeyBytes && |value| <= MaxValueBytes
    requires start + RecordSize(key, value) <= |d|
    requires d[start..start + RecordSize(key, value)] == EncodeRecord(key, value)
    ensures U16At(d, start) == |key| && U16At(d, start + 2) == |value|
    ensures d[start + 4..start + 4 + |key|] == key
    ensures d[start + 4 + |key|..start + RecordSize(key, value)] == value
  {
    var size := RecordSize(key, value);
    var rec := EncodeRecord(key, value);
    SliceOfSlice(d, start, start + size, 0, 2);
    SliceOfSlice(d, start, start + size, 2, 4);
    SliceOfSlice(d, start, start + size, 4, 4 + |key|);
    SliceOfSlice(d, start, start + size, 4 + |key|, size);
    assert rec[0..2] == LE(|key|, 2);
    assert rec[2..4] == LE(|value|, 2);
    assert rec[4..4 + |key|] == key;
    assert rec[4 + |key|..size] == value;
    FromLEOfLE(|key|, 2);
    FromLEOfLE(|value|, 2);
  }

  lemma SliceOfSlice(d: seq<byte>, a: nat, b: nat, c: nat, e: nat)
    requires a <= b <= |d| && c <= e <= b - a
    ensures d[a..b][c..e] == d[a + c..a + e]
  {
    forall i | 0 <= i < e - c ensures d[a..b][c..e][i] == d[a + c..a + e][i] {
    }
  }

  /** A successful write appends exactly one active entry to the page. */
  lemma WriteAppendsEntry(st: PageState, key: seq<byte>, value: seq<byte>)
    requires WellFormed(st) && ApplyWrite(st, key, value).Ok?
    ensures var r := ApplyWrite(st, key, value).value;
            WellFormed(r) && PageEntries(r) == PageEntries(st) + [Entry(key, value, 0)]
  {
    var r := ApplyWrite(st, key, value).value;
    WritePreservesWellFormed(st, key, value);
    WriteLayout(st, key, value);
    NewRecordInPage(st, key, value);
    AppendKeepsRecords(st, r);
    AppendEntries(st, r, Entry(key, value, 0));
  }

  /** Entries of a page that kept its old records and gained one more. */
  lemma AppendEntries(st: PageState, r: PageState, e: Entry)
    requires WellFormed(st) && WellFormed(r) && r.count == st.count + 1
    requires forall i :: 0 <= i < st.count ==> RecordInPage(r.data, i) && EntryAt(r.data, i) == EntryAt(st.data, i)
    requires EntryAt(r.data, st.count) == e
    ensures PageEntries(r) == PageEntries(st) + [e]
  {
    var n := st.count;
    EntriesAgree(st.data, r.data, n);
    var es := Entries(r.data, n + 1);
    assert es == Entries(r.data, n) + [EntryAt(r.data, n)];
  }

  /** After a successful write, looking the key up finds the written value,
      unless an older active entry with that key exists, which then wins. */
  lemma WriteThenRead(st: PageState, key: seq<byte>, value: seq<byte>)
    requires WellFormed(st) && ApplyWrite(st, key, value).Ok?
    ensures var r := ApplyWrite(st, key, value).value;
            WellFormed(r) &&
            FindFirst(PageEntries(r), key) ==
              if FindFirst(PageEntries(st), key).Some? then FindFirst(PageEntries(st), key) else Some(value)
  {
    WriteAppendsEntry(st, key, value);
    FindFirstAppend(PageEntries(st), Entry(key, value, 0), key);
  }

  /** HasSpace (page.go:218-220) does not reserve room for the new slot,
      but WriteRecord does (page.go:152): a page can pass the first check
      and still reject the record. */
  lemma SpaceCheckGap(st: PageState, key: seq<byte>, value: seq<byte>)
    requires WellFormed(st)
    ensures ApplyWrite(st, key, value).Ok? ==> RecordSize(key, value) <= st.freeSpace
    ensures |key| <= MaxKeyBytes && |value| <= MaxValueBytes &&
            RecordSize(key, value) <= st.freeSpace < RecordSize(key, value) + SlotSize ==>
              ApplyWrite(st, key, value) == Err(NotEnoughSpace)
  {
  }

  /** Two writes into a new page, ("a", "hello") then ("b", "world"): the
      10-byte records land at 4070 and 4060, leaving DataStart 4060 and
      FreeSpace 4048, and the page lists both entries in write order. */
  lemma TwoWrites(id: u64)
    ensures var a, hello := [97], [104, 101, 108, 108, 111];
            var b, world := [98], [119, 111, 114, 108, 100];
            var r1 := ApplyWrite(EmptyPage(id), a, hello);
            r1.Ok? && WellFormed(r1.value) &&
            var r2 := ApplyWrite(r1.value, b, world);
            r2.Ok? && WellFormed(r2.value) &&
            r2.value.count == 2 && r2.value.dataStart == 4060 && r2.value.freeSpace == 4048 &&
            SlotAt(r2.value.data, 0) == Slot(4070, 10, 0) && SlotAt(r2.value.data, 1) == Slot(4060, 10, 0) &&
            PageEntries(r2.value) == [Entry(a, hello, 0), Entry(b, world, 0)]
  {
    FirstOfTwoWrites(id);
    SecondOfTwoWrites(ApplyWrite(EmptyPage(id), [97], [104, 101, 108, 108, 111]).value);
  }

  /** The first write of TwoWrites. */
  lemma FirstOfTwoWrites(id: u64)
    ensures var r1 := ApplyWrite(EmptyPage(id), [97], [104, 101, 108, 108, 111]);
            r1.Ok? && WellFormed(r1.value) && r1.value.count == 1 && r1.value.dataStart == 4070 &&
            r1.value.freeSpace == 4064 && SlotAt(r1.value.data, 0) == Slot(4070, 10, 0) &&
            PageEntries(r1.value) == [Entry([97], [104, 101, 108, 108, 111], 0)]
  {
    var st := EmptyPage(id);
    WriteLayout(st, [97], [104, 101, 108, 108, 111]);
    WriteAppendsEntry(st, [97], [104, 101, 108, 108, 111]);
  }

  /** The second write of TwoWrites, on the page the first one left. */
  lemma SecondOfTwoWrites(r1: PageState)
    requires WellFormed(r1) && r1.count == 1 && r1.dataStart == 4070 && r1.freeSpace == 4064
    requires SlotAt(r1.data, 0) == Slot(4070, 10, 0)
    requires PageEntries(r1) == [Entry([97], [104, 101, 108, 108, 111], 0)]
    ensures var r2 := ApplyWrite(r1, [98], [119, 111, 114, 108, 100]);
            r2.Ok? && WellFormed(r2.value) &&
            r2.value.count == 2 && r2.value.dataStart == 4060 && r2.value.freeSpace == 4048 &&
            SlotAt(r2.value.data, 0) == Slot(4070, 10, 0) && SlotAt(r2.value.data, 1) == Slot(4060, 10, 0) &&
            PageEntries(r2.value) == [Entry([97], [104, 101, 108, 108, 111], 0), Entry([98], [119, 111, 114, 108, 100], 0)]
  {
    var b, world := [98], [119, 111, 114, 108, 100];
    var r2 := ApplyWrite(r1, b, world).value;
    assert SlotAt(r2.data, 0) == SlotAt(r1.data, 0) by {
      WriteLayout(r1, b, world);
      AppendKeepsRecords(r1, r2);
    }
    WriteLayout(r1, b, world);
    WriteAppendsEntry(r1, b, world);
  }
}
