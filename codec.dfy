/** The two 4096-byte disk images of the page store: a data page (a 16-byte
    little-endian header followed by the data region copied verbatim) and
    the metadata page 0 (three little-endian 64-bit counters, then zeros). */
module Codec {
  import opened Bytes
  import opened PageFormat

  /** The manager's counters: the id the next CreatePage hands out, the
      number of pages created, and the highest id handed out. */
  datatype DatabaseMeta = DatabaseMeta(nextPageId: u64, pageCount: u64, lastPageId: u64)

  /** Byte offsets of the header fields inside a page image. */
  const PageIdAt: nat := 0
  const CountAt: nat := 8
  const FreeSpaceAt: nat := 12
  const DataStartAt: nat := 14

  /** Number of bytes of page 0 the metadata occupies. */
  const MetaSize: nat := 24

  /** The buffer writePageToDisk fills: PageId, Count, FreeSpace and
      DataStart little-endian at offsets 0, 8, 12 and 14, then the data
      region. */
  function EncodePage(st: PageState): (buf: seq<byte>)
    requires |st.data| == DataSize
    ensures |buf| == PageSize
  {
    LE(st.pageId, 8) + LE(st.count, 4) + LE(st.freeSpace, 2) + LE(st.dataStart, 2) + st.data
  }

  /** LoadPage's parse of a 4096-byte image. */
  function DecodePage(buf: seq<byte>): (st: PageState)
    requires |buf| == PageSize
    ensures |st.data| == DataSize
  {
    assert Pow256(2) == 0x1_0000 && Pow256(4) == 0x1_0000_0000 && Pow256(8) == 0x1_0000_0000_0000_0000;
    PageState(FromLE(buf[PageIdAt..CountAt]), FromLE(buf[CountAt..FreeSpaceAt]),
              FromLE(buf[FreeSpaceAt..DataStartAt]), FromLE(buf[DataStartAt..HeaderSize]),
              buf[HeaderSize..])
  }

  /** Loading the image writePageToDisk produced gives back every header
      field and the data region. */
  lemma DecodeEncodePage(st: PageState)
    requires |st.data| == DataSize
    ensures DecodePage(EncodePage(st)) == st
  {
    var buf := EncodePage(st);
    assert buf[PageIdAt..CountAt] == LE(st.pageId, 8);
    assert buf[CountAt..FreeSpaceAt] == LE(st.count, 4);
    assert buf[FreeSpaceAt..DataStartAt] == LE(st.freeSpace, 2);
    assert buf[DataStartAt..HeaderSize] == LE(st.dataStart, 2);
    assert buf[HeaderSize..] == st.data;
    assert Pow256(2) == 0x1_0000 && Pow256(4) == 0x1_0000_0000 && Pow256(8) == 0x1_0000_0000_0000_0000;
    FromLEOfLE(st.pageId, 8);
    FromLEOfLE(st.count, 4);
    FromLEOfLE(st.freeSpace, 2);
    FromLEOfLE(st.dataStart, 2);
  }

  /** Every 4096-byte image is the encoding of what LoadPage parses from it,
      so the header format loses nothing. */
  lemma EncodeDecodePage(buf: seq<byte>)
    requires |buf| == PageSize
    ensures EncodePage(DecodePage(buf)) == buf
  {
    LEOfFromLE(buf[PageIdAt..CountAt]);
    LEOfFromLE(buf[CountAt..FreeSpaceAt]);
    LEOfFromLE(buf[FreeSpaceAt..DataStartAt]);
    LEOfFromLE(buf[DataStartAt..HeaderSize]);
    assert buf == buf[PageIdAt..CountAt] + buf[CountAt..FreeSpaceAt] + buf[FreeSpaceAt..DataStartAt] +
                  buf[DataStartAt..HeaderSize] + buf[HeaderSize..];
  }

  /** The buffer SaveMetaDataPage writes to page 0: NextPageId, PageCount and
      LastPageId little-endian at offsets 0, 8 and 16, zeros after. */
  function EncodeMeta(m: DatabaseMeta): (buf: seq<byte>)
    ensures |buf| == PageSize
  {
    LE(m.nextPageId, 8) + LE(m.pageCount, 8) + LE(m.lastPageId, 8) + seq(PageSize - MetaSize, _ => 0)
  }

  /** LoadMetaPage's parse of page 0: only bytes 0-23 are looked at. */
  function DecodeMeta(buf: seq<byte>): (m: DatabaseMeta)
    requires |buf| == PageSize
  {
    assert Pow256(8) == 0x1_0000_0000_0000_0000;
    DatabaseMeta(FromLE(buf[0..8]), FromLE(buf[8..16]), FromLE(buf[16..MetaSize]))
  }

  /** Saving then loading the metadata restores all three counters. */
  lemma DecodeEncodeMeta(m: DatabaseMeta)
    ensures DecodeMeta(EncodeMeta(m)) == m
  {
    var buf := EncodeMeta(m);
    assert buf[0..8] == LE(m.nextPageId, 8);
    assert buf[8..16] == LE(m.pageCount, 8);
    assert buf[16..MetaSize] == LE(m.lastPageId, 8);
    assert Pow256(8) == 0x1_0000_0000_0000_0000;
    FromLEOfLE(m.nextPageId, 8);
    FromLEOfLE(m.pageCount, 8);
    FromLEOfLE(m.lastPageId, 8);
  }

  /** A page-0 image is reproduced by saving what was loaded from it exactly
      when everything after byte 23 is zero. */
  lemma EncodeDecodeMeta(buf: seq<byte>)
    requires |buf| == PageSize
    ensures EncodeMeta(DecodeMeta(buf)) == buf <==> forall j :: MetaSize <= j < PageSize ==> buf[j] == 0
  {
    var zeros := seq(PageSize - MetaSize, _ => 0);
    MetaPrefix(buf);
    assert buf == buf[..MetaSize] + buf[MetaSize..];
    if forall j :: MetaSize <= j < PageSize ==> buf[j] == 0 {
      assert buf[MetaSize..] == zeros;
    }
    if EncodeMeta(DecodeMeta(buf)) == buf {
      forall j | MetaSize <= j < PageSize ensures buf[j] == 0 {
        assert buf[j] == zeros[j - MetaSize];
      }
    }
  }

  /** Re-encoding the decoded counters reproduces bytes 0-23 and zeros the rest. */
  lemma MetaPrefix(buf: seq<byte>)
    requires |buf| == PageSize
    ensures EncodeMeta(DecodeMeta(buf)) == buf[..MetaSize] + seq(PageSize - MetaSize, _ => 0)
  {
    var m := DecodeMeta(buf);
    assert LE(m.nextPageId, 8) == buf[0..8] by {
      LEOfFromLE(buf[0..8]);
    }
    assert LE(m.pageCount, 8) == buf[8..16] by {
      LEOfFromLE(buf[8..16]);
    }
    assert LE(m.lastPageId, 8) == buf[16..MetaSize] by {
      LEOfFromLE(buf[16..MetaSize]);
    }
    assert buf[..MetaSize] == buf[0..8] + buf[8..16] + buf[16..MetaSize];
  }
}
