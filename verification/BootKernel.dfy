/**
 Loading the kernel of a boot partition: two reads and the checks between them.
 */
module BootKernel {
  import opened Common
  import opened Gpt
  import opened PartitionIO
  import opened Volumes
  import opened AbRecord

  /** Size of the boot image header. */
  const HEADER_SIZE: nat := 1632

  /** "ANDROID!" */
  const BOOT_MAGIC: seq<bv8> := [0x41, 0x4E, 0x44, 0x52, 0x4F, 0x49, 0x44, 0x21]

  type Header = s: seq<bv8> | |s| == HEADER_SIZE witness seq(HEADER_SIZE, _ => 0)

  /** The number bytes spell with the lowest first, as a little-endian host reads them. */
  function LittleEndianNumber(s: seq<bv8>): (n: nat)
    ensures |s| == 1 ==> n < 0x100
    ensures |s| == 2 ==> n < 0x1_0000
    ensures |s| == 3 ==> n < 0x100_0000
    ensures |s| == 4 ==> n < 0x1_0000_0000
  {
    if s == [] then 0 else s[0] as nat + 0x100 * LittleEndianNumber(s[1..])
  }

  lemma NumberStep(s: seq<bv8>, k: nat, value: bv8 -> nat)
    requires k < |s| && value(s[k]) == s[k] as nat
    ensures LittleEndianNumber(s[k..]) == value(s[k]) + 0x100 * LittleEndianNumber(s[k + 1..])
  {
    assert s[k..][1..] == s[k + 1..];
  }

  lemma FourSteps(s: seq<bv8>, value: bv8 -> nat)
    requires |s| == 4 && forall k | 0 <= k < 4 :: value(s[k]) == s[k] as nat
    ensures LittleEndianNumber(s)
         == value(s[0]) + 0x100 * value(s[1]) + 0x1_0000 * value(s[2]) + 0x100_0000 * value(s[3])
  {
    NumberStep(s, 0, value);
    NumberStep(s, 1, value);
    NumberStep(s, 2, value);
    NumberStep(s, 3, value);
    assert s[0..] == s && s[4..] == [];
  }

  lemma FourByteNumber(s: seq<bv8>)
    requires |s| == 4
    ensures LittleEndianNumber(s)
         == s[0] as nat + 0x100 * s[1] as nat + 0x1_0000 * s[2] as nat + 0x100_0000 * s[3] as nat
  {
    FourSteps(s, b => b as nat);
  }

  /** An unsigned 32-bit field. */
  function Word(h: Header, at: nat): (n: nat)
    requires at + 4 <= HEADER_SIZE
    ensures n < 0x1_0000_0000
  {
    LittleEndianNumber(h[at..at + 4])
  }

  function KernelSize(h: Header): nat { Word(h, 8) }

  function PageSize(h: Header): nat { Word(h, 36) }

  datatype BootResult =
    | BootOk
    | OutOfMemory
    | BootIoError
    | PartitionInvalidFormat
    | LoadKernelError
    | ParameterLoadError
    | StartKernelError

  /** What the firmware answers during one boot attempt. */
  datatype Firmware = Firmware(headerAllocated: bool, headerFault: Fault, tableUnread: bool, kernelAllocated: bool,
                               kernelFault: Fault, loads: bool, parametersLoad: bool, starts: bool)

  /** The checks between the two reads; the second subtraction is unsigned. */
  predicate HeaderOk(h: Header, size: nat) {
    h[..8] == BOOT_MAGIC && KernelSize(h) <= size && PageSize(h) <= U64(size - HEADER_SIZE)
  }

  /** How an attempt ends, and what the second read put in the kernel buffer if it got that far. */
  datatype BootOutcome = BootOutcome(result: BootResult, kernel: Option<seq<bv8>>)

  function FirmwareVerdict(fw: Firmware): BootResult {
    if !fw.loads then LoadKernelError
    else if !fw.parametersLoad then ParameterLoadError
    else if !fw.starts then StartKernelError
    else BootOk
  }

  /** The attempt after the header is in memory and the table entry found. */
  function BootFrom(l: Layout, bytes: seq<bv8>, name: seq<bv8>, h: Header, size: nat, fw: Firmware): BootOutcome
    requires TableReadable(l.entries) && Askable(name)
  {
    if !HeaderOk(h, size) then BootOutcome(PartitionInvalidFormat, None)
    else if !fw.kernelAllocated then BootOutcome(OutOfMemory, None)
    else
      var r := DiskRead(l, bytes, name, PageSize(h), KernelSize(h), fw.kernelFault);
      if r.result != Ok then BootOutcome(BootIoError, None)
      else BootOutcome(FirmwareVerdict(fw), Some(r.data))
  }

  /** One attempt; `head` is what the header buffer happens to contain before it is read into. */
  function Boot(l: Layout, bytes: seq<bv8>, name: seq<bv8>, head: Header, fw: Firmware): BootOutcome
    requires TableReadable(l.entries) && Askable(name)
  {
    if !fw.headerAllocated then BootOutcome(OutOfMemory, None)
    else
      var r := DiskRead(l, bytes, name, 0, HEADER_SIZE, fw.headerFault);
      if r.result != Ok || fw.tableUnread || Lookup(l.entries, name).None? || |r.data| > HEADER_SIZE then
        BootOutcome(BootIoError, None)
      else
        BootFrom(l, bytes, name, r.data + head[|r.data|..],
                 ImgSize(l.entries[Lookup(l.entries, name).value], l.blockSize), fw)
  }

  method LoadFrom(disk: Disk, name: seq<bv8>, h: Header, size: nat, fw: Firmware)
      returns (result: BootResult, kernel: Option<array<bv8>>, kernelRead: nat)
    requires TableReadable(disk.layout.entries) && Askable(name)
    ensures kernel.Some? ==> fresh(kernel.value) && kernelRead <= kernel.value.Length
    ensures BootFrom(disk.layout, disk.bytes[..], name, h, size, fw)
         == BootOutcome(result, if kernel.Some? then Some(kernel.value[..kernelRead]) else None)
  {
    if h[..8] != BOOT_MAGIC {
      return PartitionInvalidFormat, None, 0;
    }
    if KernelSize(h) > size {
      return PartitionInvalidFormat, None, 0;
    }
    if PageSize(h) > U64(size - HEADER_SIZE) {
      return PartitionInvalidFormat, None, 0;
    }
    if !fw.kernelAllocated {
      return OutOfMemory, None, 0;
    }
    var kernelBuf := new bv8[KernelSize(h)](_ => 0);
    ghost var before := kernelBuf[..];
    var io, numBytesRead := disk.ReadFromPartition(name, kernelBuf, PageSize(h), KernelSize(h), fw.kernelFault, 0);
    if io != Ok {
      return BootIoError, None, 0;
    }
    return FirmwareVerdict(fw), Some(kernelBuf), numBytesRead;
  }

  /** The boot attempt of the source. */
  method BubBootKernel(disk: Disk, name: seq<bv8>, headBuf: array<bv8>, fw: Firmware)
      returns (result: BootResult, kernel: Option<array<bv8>>, kernelRead: nat)
    requires TableReadable(disk.layout.entries) && Askable(name)
    requires headBuf.Length == HEADER_SIZE && headBuf != disk.bytes
    modifies headBuf
    ensures kernel.Some? ==> fresh(kernel.value) && kernelRead <= kernel.value.Length
    ensures Boot(disk.layout, disk.bytes[..], name, old(headBuf[..]), fw)
         == BootOutcome(result, if kernel.Some? then Some(kernel.value[..kernelRead]) else None)
  {
    kernel, kernelRead := None, 0;
    if !fw.headerAllocated {
      return OutOfMemory, None, 0;
    }
    var io, numBytesRead := disk.ReadFromPartition(name, headBuf, 0, HEADER_SIZE, fw.headerFault, 0);
    if io != Ok {
      return BootIoError, None, 0;
    }
    var found := PartitionEntryByName(disk.layout.entries, name, fw.tableUnread);
    if found.None? {
      return BootIoError, None, 0;
    }
    result, kernel, kernelRead := LoadFrom(disk, name, headBuf[..], ImgSize(found.value, disk.layout.blockSize), fw);
  }

  // ----- What an attempt reads -----

  /** When the header checks pass and the partition is as large as a header, both reads stay inside the
      partition: the first takes the whole header, the second min(kernel size, size - page size) bytes. */
  lemma ReadsStay(l: Layout, i: nat, diskSize: nat, h: Header)
    requires i < |l.entries| && EntryFits(l, i, diskSize) && diskSize < TWO63
    requires End(l, i) - Start(l, i) >= HEADER_SIZE && HeaderOk(h, End(l, i) - Start(l, i))
    ensures var size := End(l, i) - Start(l, i);
            && PageSize(h) <= size
            && ReadRequest(l.entries[i], l.blockSize, 0, HEADER_SIZE) == Transfer(Start(l, i), HEADER_SIZE)
            && ReadRequest(l.entries[i], l.blockSize, PageSize(h), KernelSize(h))
                 == Transfer(Start(l, i) + PageSize(h),
                             if KernelSize(h) < size - PageSize(h) then KernelSize(h) else size - PageSize(h))
  {
    ReadRequestStays(l, i, diskSize, 0, HEADER_SIZE);
    ReadRequestStays(l, i, diskSize, PageSize(h), KernelSize(h));
  }

  /** On any partition, once the checks pass, the kernel read keeps to the partition exactly when the
      page size is not beyond its end or the kernel is empty.  The check guarantees that only for
      partitions as large as a header: below, its subtraction wraps and lets every page size through. */
  lemma KernelReadStaysIff(l: Layout, i: nat, diskSize: nat, h: Header)
    requires i < |l.entries| && EntryFits(l, i, diskSize) && diskSize < TWO63
    requires HeaderOk(h, End(l, i) - Start(l, i))
    ensures var size := End(l, i) - Start(l, i);
            && (StaysInside(l, i, ReadRequest(l.entries[i], l.blockSize, PageSize(h), KernelSize(h)))
                <==> PageSize(h) <= size || KernelSize(h) == 0)
            && (size >= HEADER_SIZE ==> PageSize(h) <= size)
  {
    StaysInsideIff(l, i, diskSize, PageSize(h), KernelSize(h));
  }

  /** The page-size check passes every header when the partition is smaller than a header. */
  lemma SmallPartitionPasses(h: Header, size: nat)
    requires size < HEADER_SIZE && h[..8] == BOOT_MAGIC
    ensures HeaderOk(h, size) <==> KernelSize(h) <= size
  {
    WrapsBelow(size - HEADER_SIZE);
  }

  /** At most `n` bytes of `v` from `from` on. */
  function Taken(v: seq<bv8>, from: nat, n: nat): seq<bv8>
    requires from <= |v|
  {
    if n < |v| - from then v[from..from + n] else v[from..]
  }

  lemma HeaderRead(l: Layout, bytes: seq<bv8>, name: seq<bv8>, fault: Fault, i: nat)
    requires WellFormed(l, |bytes|) && Askable(name) && Lookup(l.entries, name) == Some(i)
    ensures DiskRead(l, bytes, name, 0, HEADER_SIZE, fault)
         == match fault
            case Works => ReadOutcome(Ok, Taken(Volume(l, bytes, i), 0, HEADER_SIZE))
            case TableUnread => ReadOutcome(NoSuchPartition, [])
            case DeviceFails => ReadOutcome(IoError, [])
  {
    if !fault.TableUnread? { ReadRefines(l, bytes, name, 0, HEADER_SIZE, fault, i); }
  }

  /** The header buffer after the first read: the start of the partition, and where the partition is
      smaller than a header what the buffer happened to contain before. */
  function HeaderOf(v: seq<bv8>, head: Header): Header {
    if |v| < HEADER_SIZE then v + head[|v|..] else v[..HEADER_SIZE]
  }

  /** With a partition as large as a header, an attempt depends on the buffer's old contents in nothing. */
  lemma HeaderReads(l: Layout, bytes: seq<bv8>, name: seq<bv8>, head: Header, fw: Firmware, i: nat)
    requires WellFormed(l, |bytes|) && Askable(name) && Lookup(l.entries, name) == Some(i)
    ensures Boot(l, bytes, name, head, fw)
         == if !fw.headerAllocated then BootOutcome(OutOfMemory, None)
            else if !fw.headerFault.Works? || fw.tableUnread then BootOutcome(BootIoError, None)
            else BootFrom(l, bytes, name, HeaderOf(Volume(l, bytes, i), head), |Volume(l, bytes, i)|, fw)
  {
    var v := Volume(l, bytes, i);
    assert EntryFits(l, i, |bytes|);
    SizeIsEndMinusStart(l, i, |bytes|);
    HeaderRead(l, bytes, name, fw.headerFault, i);
    var read := Taken(v, 0, HEADER_SIZE);
    assert read + head[|read|..] == HeaderOf(v, head);
  }

  lemma VolumeReadTakes(v: seq<bv8>, from: nat, n: nat, fault: Fault)
    requires from <= |v| && VolumeRead(v, from, n, fault).result == Ok
    ensures VolumeRead(v, from, n, fault).data == Taken(v, from, n)
  {}

  lemma KernelReads(l: Layout, bytes: seq<bv8>, name: seq<bv8>, h: Header, fw: Firmware, i: nat)
    requires WellFormed(l, |bytes|) && Askable(name) && Lookup(l.entries, name) == Some(i)
    requires |Volume(l, bytes, i)| >= HEADER_SIZE
    requires BootFrom(l, bytes, name, h, |Volume(l, bytes, i)|, fw).kernel.Some?
    ensures var v := Volume(l, bytes, i);
            && HeaderOk(h, |v|) && PageSize(h) <= |v|
            && BootFrom(l, bytes, name, h, |v|, fw).kernel == Some(Taken(v, PageSize(h), KernelSize(h)))
  {
    var v := Volume(l, bytes, i);
    ReadRefines(l, bytes, name, PageSize(h), KernelSize(h), fw.kernelFault, i);
    VolumeReadTakes(v, PageSize(h), KernelSize(h), fw.kernelFault);
  }

  // ----- What an attempt means, on the bytes of the partition -----

  /** The loader has the header in memory and the table entry found. */
  predicate HeaderInHand(fw: Firmware) { fw.headerAllocated && fw.headerFault.Works? && !fw.tableUnread }

  /** The header does not start with "ANDROID!", or asks for more than a partition of `size` bytes holds;
      below the size of a header the source lets every page size pass. */
  predicate BadFormat(h: Header, size: nat) {
    || h[..8] != [0x41, 0x4E, 0x44, 0x52, 0x4F, 0x49, 0x44, 0x21]
    || LittleEndianNumber(h[8..12]) > size
    || (size >= 1632 && LittleEndianNumber(h[36..40]) > size - 1632)
  }

  /** The kernel read succeeds: the device works, and the read starts inside the partition or, by
      wrapping, at least ends on the disk. */
  predicate KernelReadWorks(l: Layout, diskSize: nat, i: nat, h: Header, fw: Firmware)
    requires i < |l.entries| && EntryFits(l, i, diskSize)
  {
    && fw.kernelFault.Works?
    && (LittleEndianNumber(h[36..40]) <= End(l, i) - Start(l, i)
        || Start(l, i) + LittleEndianNumber(h[36..40]) + LittleEndianNumber(h[8..12]) <= diskSize)
  }

  lemma VolumeBound(l: Layout, bytes: seq<bv8>, i: nat)
    requires WellFormed(l, |bytes|) && i < |l.entries|
    ensures EntryFits(l, i, |bytes|) && |Volume(l, bytes, i)| == End(l, i) - Start(l, i) < TWO63
  {}

  lemma HeaderOkIff(h: Header, size: nat)
    requires size < TWO63
    ensures HeaderOk(h, size) <==> !BadFormat(h, size)
  {
    if size < HEADER_SIZE { WrapsBelow(size - HEADER_SIZE); }
  }

  lemma KernelReadResult(l: Layout, bytes: seq<bv8>, name: seq<bv8>, h: Header, fw: Firmware, i: nat)
    requires WellFormed(l, |bytes|) && Askable(name) && Lookup(l.entries, name) == Some(i)
    requires EntryFits(l, i, |bytes|)
    ensures DiskRead(l, bytes, name, PageSize(h), KernelSize(h), fw.kernelFault).result == Ok
            <==> KernelReadWorks(l, |bytes|, i, h, fw)
  {
    VolumeBound(l, bytes, i);
    if !fw.kernelFault.TableUnread? {
      if PageSize(h) <= |Volume(l, bytes, i)| {
        ReadRefines(l, bytes, name, PageSize(h), KernelSize(h), fw.kernelFault, i);
      } else {
        BeyondTheEnd(l, i, |bytes|, PageSize(h), KernelSize(h));
      }
    }
  }

  lemma ResultFrom(l: Layout, bytes: seq<bv8>, name: seq<bv8>, h: Header, fw: Firmware, i: nat)
    requires WellFormed(l, |bytes|) && Askable(name) && Lookup(l.entries, name) == Some(i)
    requires EntryFits(l, i, |bytes|)
    ensures BootFrom(l, bytes, name, h, |Volume(l, bytes, i)|, fw).result
         == if BadFormat(h, |Volume(l, bytes, i)|) then PartitionInvalidFormat
            else if !fw.kernelAllocated then OutOfMemory
            else if !KernelReadWorks(l, |bytes|, i, h, fw) then BootIoError
            else FirmwareVerdict(fw)
  {
    VolumeBound(l, bytes, i);
    HeaderOkIff(h, |Volume(l, bytes, i)|);
    KernelReadResult(l, bytes, name, h, fw, i);
  }

  /** Each result of an attempt on a partition in the table has exactly one cause.  `h` is the header
      buffer after the first read, `v` the partition. */
  lemma ResultMeans(l: Layout, bytes: seq<bv8>, name: seq<bv8>, head: Header, fw: Firmware, i: nat,
      v: seq<bv8>, h: Header, result: BootResult)
    requires WellFormed(l, |bytes|) && Askable(name) && Lookup(l.entries, name) == Some(i)
    requires EntryFits(l, i, |bytes|) && v == Volume(l, bytes, i)
    requires h == if |v| < 1632 then v + head[|v|..] else v[..1632]
    requires result == Boot(l, bytes, name, head, fw).result
    ensures var good := HeaderInHand(fw) && !BadFormat(h, |v|);
            var loaded := good && fw.kernelAllocated && KernelReadWorks(l, |bytes|, i, h, fw);
            && (result == PartitionInvalidFormat <==> HeaderInHand(fw) && BadFormat(h, |v|))
            && (result == BootOk <==> loaded && fw.loads && fw.parametersLoad && fw.starts)
            && (result == LoadKernelError <==> loaded && !fw.loads)
            && (result == ParameterLoadError <==> loaded && fw.loads && !fw.parametersLoad)
            && (result == StartKernelError <==> loaded && fw.loads && fw.parametersLoad && !fw.starts)
            && (result == OutOfMemory <==> !fw.headerAllocated || (good && !fw.kernelAllocated))
            && (result == BootIoError <==>
                || (fw.headerAllocated && (!fw.headerFault.Works? || fw.tableUnread))
                || (good && fw.kernelAllocated && !KernelReadWorks(l, |bytes|, i, h, fw)))
  {
    HeaderReads(l, bytes, name, head, fw, i);
    ResultFrom(l, bytes, name, h, fw, i);
  }

  /** An attempt on a partition that is not in the table ends in an error of memory or reading. */
  lemma NoPartition(l: Layout, bytes: seq<bv8>, name: seq<bv8>, head: Header, fw: Firmware)
    requires TableReadable(l.entries) && Askable(name) && Lookup(l.entries, name) == None
    ensures Boot(l, bytes, name, head, fw) == BootOutcome(if fw.headerAllocated then BootIoError else OutOfMemory, None)
  {}

  lemma KernelFrom(l: Layout, bytes: seq<bv8>, name: seq<bv8>, h: Header, fw: Firmware, i: nat, v: seq<bv8>)
    requires WellFormed(l, |bytes|) && Askable(name) && Lookup(l.entries, name) == Some(i)
    requires v == Volume(l, bytes, i) && |v| >= HEADER_SIZE && h == v[..HEADER_SIZE]
    requires BootFrom(l, bytes, name, h, |v|, fw).kernel.Some?
    ensures !BadFormat(h, |v|) && LittleEndianNumber(v[36..40]) <= |v|
    ensures BootFrom(l, bytes, name, h, |v|, fw).kernel
         == Some(Taken(v, LittleEndianNumber(v[36..40]), LittleEndianNumber(v[8..12])))
  {
    VolumeBound(l, bytes, i);
    KernelReads(l, bytes, name, h, fw, i);
    HeaderOkIff(h, |v|);
    assert h[8..12] == v[8..12] && h[36..40] == v[36..40];
  }

  lemma GoodFormat(v: seq<bv8>)
    requires |v| >= HEADER_SIZE && !BadFormat(v[..HEADER_SIZE], |v|)
    ensures v[..8] == [0x41, 0x4E, 0x44, 0x52, 0x4F, 0x49, 0x44, 0x21]
    ensures LittleEndianNumber(v[8..12]) <= |v| && LittleEndianNumber(v[36..40]) <= |v| - 1632
  {
    var h: Header := v[..HEADER_SIZE];
    assert h[..8] == v[..8] && h[8..12] == v[8..12] && h[36..40] == v[36..40];
  }

  /** What reaches the firmware as kernel, in terms of the partition's own bytes: from the page size of
      its header on, at most the kernel size of its header.  All of the kernel is there exactly when
      page size and kernel size together fit the partition; the source does not check that. */
  lemma KernelIsOfPartition(l: Layout, bytes: seq<bv8>, name: seq<bv8>, head: Header, fw: Firmware, i: nat,
      v: seq<bv8>, kernelSize: nat, pageSize: nat, kernel: seq<bv8>)
    requires WellFormed(l, |bytes|) && Askable(name) && Lookup(l.entries, name) == Some(i)
    requires v == Volume(l, bytes, i) && |v| >= 1632
    requires kernelSize == LittleEndianNumber(v[8..12]) && pageSize == LittleEndianNumber(v[36..40])
    requires Boot(l, bytes, name, head, fw).kernel == Some(kernel)
    ensures v[..8] == [0x41, 0x4E, 0x44, 0x52, 0x4F, 0x49, 0x44, 0x21] && kernelSize <= |v| && pageSize <= |v| - 1632
    ensures kernel == Taken(v, pageSize, kernelSize)
    ensures |kernel| == kernelSize <==> pageSize + kernelSize <= |v|
  {
    HeaderReads(l, bytes, name, head, fw, i);
    KernelFrom(l, bytes, name, v[..HEADER_SIZE], fw, i, v);
    GoodFormat(v);
  }
}
