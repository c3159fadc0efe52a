/** A stand-in for the file-backed Disk: page number n names the 4096 bytes
    at file offset n * 4096. An image that was never written cannot be read,
    and a fixed set of page numbers fails on read or on write, so that every
    error path of the manager has a cause. */
module Storage {
  import opened Bytes
  import opened Errors

  /** The block store as a value: the image held at each page number, and
      the page numbers whose reads or writes fail. */
  datatype Store = Store(images: map<nat, seq<byte>>, readFaults: set<nat>, writeFaults: set<nat>)

  /** Disk.Read of page n. */
  function ReadAt(s: Store, n: nat): Result<seq<byte>>
  {
    if n in s.images && n !in s.readFaults then Ok(s.images[n]) else Err(ReadFailed)
  }

  /** The error Disk.Write of page n returns. */
  function WriteStatus(s: Store, n: nat): Status
  {
    if n in s.writeFaults then Failure(WriteFailed) else Success
  }

  /** The store after Disk.Write of `img` to page n: a failed write leaves
      it as it was. */
  function WriteAt(s: Store, n: nat, img: seq<byte>): Store
  {
    if n in s.writeFaults then s else s.(images := s.images[n := img])
  }

  /** A write is seen by the next read of the same page, and by no other
      page; the fault sets never change. */
  lemma ReadAfterWrite(s: Store, n: nat, img: seq<byte>, k: nat)
    ensures WriteAt(s, n, img).readFaults == s.readFaults && WriteAt(s, n, img).writeFaults == s.writeFaults
    ensures k != n ==> ReadAt(WriteAt(s, n, img), k) == ReadAt(s, k)
    ensures WriteStatus(s, n) == Success && n !in s.readFaults ==> ReadAt(WriteAt(s, n, img), n) == Ok(img)
    ensures WriteStatus(s, n).Failure? ==> WriteAt(s, n, img) == s
  {
  }

  class Disk {
    var store: Store

    constructor (s: Store)
      ensures store == s
    {
      store := s;
    }

    /** Disk.Read(n * 4096, 4096). */
    method Read(n: nat) returns (r: Result<seq<byte>>)
      ensures r == ReadAt(store, n)
    {
      if n in store.images && n !in store.readFaults {
        return Ok(store.images[n]);
      }
      return Err(ReadFailed);
    }

    /** Disk.Write(n * 4096, img). */
    method Write(n: nat, img: seq<byte>) returns (r: Status)
      modifies this
      ensures r == WriteStatus(old(store), n) && store == WriteAt(old(store), n, img)
    {
      if n in store.writeFaults {
        return Failure(WriteFailed);
      }
      store := store.(images := store.images[n := img]);
      return Success;
    }
  }
}
