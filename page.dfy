/** The in-memory Go `Page`: header counters updated in place and a
    4080-byte buffer (`Ptr`) overwritten byte by byte. */
module Pages {
  import opened Bytes
  import opened Errors
  import opened PageFormat

  class Page {
    var pageId: u64
    var count: u32
    var freeSpace: u16
    var dataStart: u16
    const ptr: array<byte>

    /** The page as a value: header fields and buffer contents. */
    function State(): PageState
      reads this, ptr
    {
      PageState(pageId, count, freeSpace, dataStart, ptr[..])
    }

    ghost predicate Valid()
      reads this, ptr
    {
      WellFormed(State())
    }

    /** The page CreatePage builds (page.go:240-245). */
    constructor Empty(id: u64)
      ensures State() == EmptyPage(id) && Valid()
      ensures fresh(ptr)
    {
      pageId, count, freeSpace, dataStart := id, 0, DataSize as u16, 0;
      ptr := new byte[DataSize](_ => 0);
    }

    /** The page LoadPage builds from decoded header fields and the data
        region copied verbatim (page.go:300-308). */
    constructor Decoded(st: PageState)
      requires |st.data| == DataSize
      ensures State() == st
      ensures fresh(ptr)
    {
      pageId, count, freeSpace, dataStart := st.pageId, st.count, st.freeSpace, st.dataStart;
      ptr := new byte[DataSize](i requires 0 <= i < DataSize => st.data[i]);
    }

    /** Slot `index`: the six bytes at 6 * index read as three
        little-endian 16-bit fields. */
    function GetSlot(index: nat): (s: Slot)
      reads this, ptr
      requires SlotSize * index + SlotSize <= ptr.Length
      ensures EncodeSlot(s) == ptr[SlotSize * index..SlotSize * index + SlotSize]
    {
      EncodeSlotAt(ptr[..], index);
      SlotAt(ptr[..], index)
    }

    /** binary.LittleEndian.PutUint16 into the buffer. */
    method PutUint16(pos: nat, x: u16)
      requires pos + 2 <= ptr.Length
      modifies ptr
      ensures ptr[..] == Splice(old(ptr[..]), pos, LE(x, 2))
    {
      LE2(x);
      ptr[pos] := x % 256;
      ptr[pos + 1] := x / 256;
    }

    /** Go's copy(Ptr[pos:pos+len(bytes)], bytes). */
    method CopyBytes(pos: nat, bytes: seq<byte>)
      requires pos + |bytes| <= ptr.Length
      modifies ptr
      ensures ptr[..] == Splice(old(ptr[..]), pos, bytes)
    {
      for k := 0 to |bytes|
        invariant forall j :: 0 <= j < k ==> ptr[pos + j] == bytes[j]
        invariant forall j :: 0 <= j < ptr.Length && !(pos <= j < pos + k) ==> ptr[j] == old(ptr[j])
      {
        ptr[pos + k] := bytes[k];
      }
      SpliceIndex(old(ptr[..]), pos, bytes);
      assert forall j :: pos <= j < pos + |bytes| ==> ptr[j] == bytes[j - pos] by {
        forall j | pos <= j < pos + |bytes| ensures ptr[j] == bytes[j - pos] {
          assert ptr[pos + (j - pos)] == bytes[j - pos];
        }
      }
    }

    /** Overwrites slot `index` in place; GetSlot then returns `s`, and no
        byte outside the slot's six changes. */
    method SetSlot(index: nat, s: Slot)
      requires SlotSize * index + SlotSize <= ptr.Length
      modifies ptr
      ensures ptr[..] == PutSlot(old(ptr[..]), index, s)
      ensures GetSlot(index) == s
    {
      ghost var before := ptr[..];
      var p := SlotSize * index;
      PutUint16(p, s.offset);
      PutUint16(p + 2, s.len);
      PutUint16(p + 4, s.flag);
      SpliceAdjacent(before, p, LE(s.offset, 2), LE(s.len, 2));
      SpliceAdjacent(before, p, LE(s.offset, 2) + LE(s.len, 2), LE(s.flag, 2));
      SlotRoundTrip(before, index, s);
    }

    /** page.go WriteRecord: rejects an oversized key or value, or a record
        that together with its slot does not fit, before touching anything;
        otherwise packs the record directly below the lowest record and
        appends its slot. */
    method WriteRecord(key: seq<byte>, value: seq<byte>) returns (r: Status)
      requires Valid()
      modifies this, ptr
      ensures Valid()
      ensures var w := ApplyWrite(old(State()), key, value);
              if w.Ok? then r == Success && State() == w.value
              else r == Failure(w.error) && State() == old(State())
    {
      if |key| > MaxKeyBytes {
        return Failure(KeyTooLarge);
      }
      if |value| > MaxValueBytes {
        return Failure(ValueTooLarge);
      }
      var recordSize := KeySize + ValueSize + |key| + |value|;
      if freeSpace < recordSize + SlotSize {
        return Failure(NotEnoughSpace);
      }
      ghost var st := State();
      ghost var w := ApplyWrite(st, key, value).value;
      assert WellFormed(w) by {
        WritePreservesWellFormed(st, key, value);
      }
      WriteFits(st, key, value);
      ApplyWriteOk(st, key, value);
      Append(key, value, recordSize);
      assert State() == w;
      return Success;
    }

    /** The mutating half of WriteRecord, once the checks have passed: the
        record below RecordTop, its slot at index Count, then the header. */
    method Append(key: seq<byte>, value: seq<byte>, recordSize: u16)
      requires |key| <= MaxKeyBytes && |value| <= MaxValueBytes
      requires recordSize as int == RecordSize(key, value)
      requires RecordTop(State()) <= DataSize == ptr.Length
      requires recordSize as int + SlotSize * count + SlotSize <= RecordTop(State())
      requires recordSize as int + SlotSize <= freeSpace as int
      modifies this, ptr
      ensures var start := RecordTop(old(State())) - recordSize as int;
              pageId == old(pageId) && count as int == old(count) as int + 1 &&
              freeSpace as int == old(freeSpace) as int - (recordSize as int + SlotSize) && dataStart as int == start &&
              ptr[..] == PutSlot(Splice(old(ptr[..]), start, EncodeRecord(key, value)), old(count) as nat, Slot(start, recordSize, 0))
    {
      ghost var start := RecordTop(State()) - recordSize as int;
      ghost var d0 := ptr[..];
      if count == 0 {
        dataStart := DataSize as u16;
      }
      var newDataStart := dataStart - recordSize;
      assert newDataStart as int == start;
      PutRecord(newDataStart, key, value);
      ghost var d1 := ptr[..];
      assert d1 == Splice(d0, start, EncodeRecord(key, value));
      SetSlot(count, Slot(newDataStart, recordSize, 0));
      ghost var d2 := ptr[..];
      assert d2 == PutSlot(d1, count as nat, Slot(start, recordSize, 0));
      dataStart := newDataStart;
      count := count + 1;
      freeSpace := freeSpace - (recordSize + SlotSize);
      assert ptr[..] == d2;
      assert d2 == PutSlot(Splice(d0, start, EncodeRecord(key, value)), old(count) as nat, Slot(start, recordSize, 0));
    }

    /** The record-writing half of WriteRecord: the two length fields, then
        the key bytes, then the value bytes, from `start` upwards. */
    method PutRecord(start: nat, key: seq<byte>, value: seq<byte>)
      requires |key| <= MaxKeyBytes && |value| <= MaxValueBytes
      requires start + RecordSize(key, value) <= ptr.Length
      modifies ptr
      ensures ptr[..] == Splice(old(ptr[..]), start, EncodeRecord(key, value))
    {
      ghost var d0 := ptr[..];
      ghost var k, v := LE(|key|, 2), LE(|value|, 2);
      PutUint16(start, |key|);
      ghost var d1 := ptr[..];
      PutUint16(start + 2, |value|);
      SpliceChain(d0, d1, ptr[..], start, k, v);
      ghost var d2 := ptr[..];
      CopyBytes(start + 4, key);
      SpliceChain(d0, d2, ptr[..], start, k + v, key);
      ghost var d3 := ptr[..];
      CopyBytes(start + 4 + |key|, value);
      SpliceChain(d0, d3, ptr[..], start, k + v + key, value);
    }

    /** page.go HasSpace: room for the record bytes alone (no slot reserve). */
    predicate HasSpace(recordSize: int)
      reads this
    {
      freeSpace >= recordSize
    }

    /** page.go ReadRecord: the value of the first active slot, in slot
        order, whose key equals `key`. */
    method ReadRecord(key: seq<byte>) returns (value: seq<byte>, found: bool)
      requires Valid()
      ensures found == FindFirst(PageEntries(State()), key).Some?
      ensures value == if found then FindFirst(PageEntries(State()), key).value else []
    {
      ghost var at;
      value, found, at := ScanSlots(ptr[..], count, key);
      if found {
        EntriesFindAt(ptr[..], count, key, at);
      } else {
        EntriesFindNone(ptr[..], count, key);
      }
    }
  }

  /** The loop of page.go ReadRecord over a snapshot of the buffer: scans
      slots 0 .. count-1 in order, skips deleted ones, decodes each record's
      two length fields and compares its key bytes with `key`. It stops at
      the first active slot `at` whose key matches and returns its value;
      when it finds none it returns no value. */
  method ScanSlots(data: seq<byte>, count: nat, key: seq<byte>) returns (value: seq<byte>, found: bool, ghost at: nat)
    requires forall i :: 0 <= i < count ==> RecordInPage(data, i)
    ensures found ==> at < count && Matches(EntryAt(data, at), key) && value == EntryAt(data, at).value
    ensures forall j :: 0 <= j < (if found then at else count) ==> !Matches(EntryAt(data, j), key)
    ensures !found ==> value == []
  {
    for i := 0 to count
      invariant forall j :: 0 <= j < i ==> !Matches(EntryAt(data, j), key)
    {
      SlotEntry(data, i);
      var slot := SlotAt(data, i);
      if slot.flag == 0 {
        var pos: nat := slot.offset;
        var keySize := U16At(data, pos);
        var valueSize := U16At(data, pos + 2);
        var recordKey := data[pos + 4..pos + 4 + keySize];
        var recordValue := data[pos + 4 + keySize..pos + 4 + keySize + valueSize];
        if recordKey == key {
          return recordValue, true, i;
        }
      }
    }
    return [], false, 0;
  }

  /** HasSpace is necessary for a write but not sufficient: every write
      WriteRecord accepts finds HasSpace true, and a page with
      recordSize <= FreeSpace < recordSize + 6 passes HasSpace yet refuses
      a record of legal sizes with NotEnoughSpace. */
  lemma HasSpaceGap(p: Page, key: seq<byte>, value: seq<byte>)
    requires p.Valid()
    ensures ApplyWrite(p.State(), key, value).Ok? ==> p.HasSpace(RecordSize(key, value))
    ensures |key| <= MaxKeyBytes && |value| <= MaxValueBytes &&
            p.HasSpace(RecordSize(key, value)) && !p.HasSpace(RecordSize(key, value) + SlotSize) ==>
              ApplyWrite(p.State(), key, value) == Err(NotEnoughSpace)
  {
    SpaceCheckGap(p.State(), key, value);
  }
}
