/**
 Reads and writes of named partitions over one flat disk.  Sizes and addresses are computed as the
 source computes them, in unsigned 64-bit arithmetic; the theorem is that for offsets not beyond the
 end of the partition the disk behaves as independent byte arrays, one for each table entry.
 */
module PartitionIO {
  import opened Common
  import opened Ucs2
  import opened Gpt

  datatype IoResult = Ok | NoSuchPartition | RangeOutsidePartition | IoError

  /** What goes wrong outside this code in one request. */
  datatype Fault = Works | TableUnread | DeviceFails

  datatype Layout = Layout(entries: seq<GptEntry>, blockSize: nat)

  const TWO64: nat := 0x1_0000_0000_0000_0000
  const TWO63: int := 0x8000_0000_0000_0000

  /** Wrap-around of unsigned 64-bit arithmetic. */
  function U64(x: int): (r: nat)
    ensures r < TWO64
    ensures 0 <= x < TWO64 ==> r == x
  {
    x % TWO64
  }

  /** Where one request goes on the disk, or that it is refused. */
  datatype Request = Refused | Transfer(addr: nat, count: nat)

  function ImgSize(e: GptEntry, blockSize: nat): nat { U64(U64(e.lastLba - e.firstLba) * blockSize) }

  /** A negative offset counts from the end; None when it reaches before the start. */
  function Position(size: nat, offset: int): Option<nat> {
    if offset < 0 then
      if -offset > size then None else Some(U64(size + offset))
    else Some(U64(offset))
  }

  function ReadRequest(e: GptEntry, blockSize: nat, offset: int, numBytes: nat): Request {
    var size := ImgSize(e, blockSize);
    match Position(size, offset)
    case None => Refused
    case Some(pos) =>
      var rest := U64(size - pos);
      Transfer(U64(e.firstLba * blockSize + pos), if numBytes > rest then rest else numBytes)
  }

  function WriteRequest(e: GptEntry, blockSize: nat, offset: int, numBytes: nat): Request {
    var size := ImgSize(e, blockSize);
    match Position(size, offset)
    case None => Refused
    case Some(pos) =>
      if numBytes > U64(size - pos) then Refused
      else Transfer(U64(e.firstLba * blockSize + pos), numBytes)
  }

  // ----- Requests on a flat disk -----

  datatype ReadOutcome = ReadOutcome(result: IoResult, data: seq<bv8>)

  datatype WriteOutcome = WriteOutcome(result: IoResult, bytes: seq<bv8>)

  /** The device refuses transfers that leave the disk. */
  predicate DeviceDoes(bytes: seq<bv8>, r: Request, fault: Fault) {
    r.Transfer? && r.addr + r.count <= |bytes| && fault.Works?
  }

  function ReadAt(bytes: seq<bv8>, r: Request, fault: Fault): ReadOutcome {
    if r.Refused? then ReadOutcome(RangeOutsidePartition, [])
    else if !DeviceDoes(bytes, r, fault) then ReadOutcome(IoError, [])
    else ReadOutcome(Ok, bytes[r.addr..r.addr + r.count])
  }

  function DiskRead(l: Layout, bytes: seq<bv8>, name: seq<bv8>, offset: int, numBytes: nat, fault: Fault)
      : ReadOutcome
    requires TableReadable(l.entries) && Askable(name)
  {
    if fault.TableUnread? || Lookup(l.entries, name).None? then ReadOutcome(NoSuchPartition, [])
    else ReadAt(bytes, ReadRequest(l.entries[Lookup(l.entries, name).value], l.blockSize, offset, numBytes), fault)
  }

  function Splice(s: seq<bv8>, at: nat, data: seq<bv8>): (t: seq<bv8>)
    requires at + |data| <= |s|
    ensures |t| == |s|
  {
    s[..at] + data + s[at + |data|..]
  }

  function WriteAt(bytes: seq<bv8>, r: Request, data: seq<bv8>, fault: Fault): WriteOutcome
    requires r.Transfer? ==> r.count == |data|
  {
    if r.Refused? then WriteOutcome(RangeOutsidePartition, bytes)
    else if !DeviceDoes(bytes, r, fault) then WriteOutcome(IoError, bytes)
    else WriteOutcome(Ok, Splice(bytes, r.addr, data))
  }

  function DiskWrite(l: Layout, bytes: seq<bv8>, name: seq<bv8>, offset: int, data: seq<bv8>, fault: Fault)
      : WriteOutcome
    requires TableReadable(l.entries) && Askable(name)
  {
    if fault.TableUnread? || Lookup(l.entries, name).None? then WriteOutcome(NoSuchPartition, bytes)
    else
      WriteAt(bytes, WriteRequest(l.entries[Lookup(l.entries, name).value], l.blockSize, offset, |data|), data, fault)
  }

  class Disk {
    const layout: Layout
    const bytes: array<bv8>

    constructor (layout: Layout, bytes: array<bv8>)
      ensures this.layout == layout && this.bytes == bytes
    {
      this.layout := layout;
      this.bytes := bytes;
    }

    /** The device below: a transfer that would leave the disk fails. */
    method ReadDisk(addr: nat, count: nat, buf: array<bv8>, fault: Fault) returns (err: bool)
      requires count <= buf.Length && buf != bytes
      modifies buf
      ensures var r := ReadAt(bytes[..], Transfer(addr, count), fault);
              err == !r.result.Ok? && buf[..] == if err then old(buf[..]) else r.data + old(buf[..])[count..]
    {
      if !fault.Works? || addr + count > bytes.Length {
        return true;
      }
      forall k | 0 <= k < count { buf[k] := bytes[addr + k]; }
      return false;
    }

    /** Reads up to `numBytes` into `buf`; fewer when the partition ends first.  The caller's count, which
        holds `numReadBefore`, is set only once a device access is due. */
    method ReadFromPartition(name: seq<bv8>, buf: array<bv8>, offsetFromPartition: int, numBytes: nat, fault: Fault,
        numReadBefore: nat)
        returns (result: IoResult, numRead: nat)
      requires TableReadable(layout.entries) && Askable(name)
      requires numBytes <= buf.Length && buf != bytes
      modifies buf
      ensures var r := DiskRead(layout, bytes[..], name, offsetFromPartition, numBytes, fault);
              result == r.result && |r.data| <= numBytes
              && numRead == (if r.result.Ok? || r.result.IoError? then |r.data| else numReadBefore)
              && buf[..] == r.data + old(buf[..])[|r.data|..]
    {
      var found := PartitionEntryByName(layout.entries, name, fault.TableUnread?);
      if found.None? {
        return NoSuchPartition, numReadBefore;
      }
      var entry := found.value;
      var partitionSize := ImgSize(entry, layout.blockSize);
      var offset := U64(offsetFromPartition);
      if offsetFromPartition < 0 {
        if -offsetFromPartition > partitionSize {
          return RangeOutsidePartition, numReadBefore;
        }
        offset := U64(partitionSize - (-offsetFromPartition));
      }
      assert Position(partitionSize, offsetFromPartition) == Some(offset);
      if numBytes > U64(partitionSize - offset) {
        numRead := U64(partitionSize - offset);
      } else {
        numRead := numBytes;
      }
      var address := U64(entry.firstLba * layout.blockSize + offset);
      assert ReadRequest(entry, layout.blockSize, offsetFromPartition, numBytes) == Transfer(address, numRead);
      var err := ReadDisk(address, numRead, buf, fault);
      if err {
        return IoError, 0;
      }
      return Ok, numRead;
    }

    method WriteDisk(addr: nat, data: seq<bv8>, fault: Fault) returns (err: bool)
      modifies bytes
      ensures err == !DeviceDoes(old(bytes[..]), Transfer(addr, |data|), fault)
      ensures bytes[..] == if err then old(bytes[..]) else Splice(old(bytes[..]), addr, data)
    {
      if !fault.Works? || addr + |data| > bytes.Length {
        return true;
      }
      forall k | 0 <= k < |data| { bytes[addr + k] := data[k]; }
      return false;
    }

    /** Writes all of `data`, or nothing and reports an error. */
    method WriteToPartition(name: seq<bv8>, data: seq<bv8>, offsetFromPartition: int, fault: Fault)
        returns (result: IoResult)
      requires TableReadable(layout.entries) && Askable(name)
      modifies bytes
      ensures var w := DiskWrite(layout, old(bytes[..]), name, offsetFromPartition, data, fault);
              result == w.result && bytes[..] == w.bytes
    {
      var found := PartitionEntryByName(layout.entries, name, fault.TableUnread?);
      if found.None? {
        return NoSuchPartition;
      }
      var entry := found.value;
      var partitionSize := ImgSize(entry, layout.blockSize);
      var offset := U64(offsetFromPartition);
      if offsetFromPartition < 0 {
        if -offsetFromPartition > partitionSize {
          return RangeOutsidePartition;
        }
        offset := U64(partitionSize - (-offsetFromPartition));
      }
      if |data| > U64(partitionSize - offset) {
        return RangeOutsidePartition;
      }
      var address := U64(entry.firstLba * layout.blockSize + offset);
      assert WriteRequest(entry, layout.blockSize, offsetFromPartition, |data|) == Transfer(address, |data|);
      var err := WriteDisk(address, data, fault);
      if err {
        return IoError;
      }
      return Ok;
    }
  }
}
