/**
 Partition I/O refines independent byte arrays.  The abstract state is one byte array for each
 entry of the partition table; a named request acts on the array of the entry the name finds.
 */
module Volumes {
  import opened Common
  import opened Gpt
  import opened PartitionIO

  // ----- Well-formed layouts -----

  function Start(l: Layout, i: nat): nat
    requires i < |l.entries|
  {
    l.entries[i].firstLba * l.blockSize
  }

  /** The source leaves the last block of a partition unused: the table's last block is inclusive. */
  function End(l: Layout, i: nat): nat
    requires i < |l.entries|
  {
    l.entries[i].lastLba * l.blockSize
  }

  /** The entry's blocks are on the disk, and its sizes fit the arithmetic. */
  predicate EntryFits(l: Layout, i: nat, diskSize: nat)
    requires i < |l.entries|
  {
    var e := l.entries[i];
    e.firstLba <= e.lastLba < TWO64 && Start(l, i) <= End(l, i) <= diskSize
  }

  predicate Apart(l: Layout, i: nat, j: nat)
    requires i < |l.entries| && j < |l.entries|
  {
    End(l, i) <= Start(l, j) || End(l, j) <= Start(l, i)
  }

  ghost predicate WellFormed(l: Layout, diskSize: nat) {
    && TableReadable(l.entries)
    && diskSize < TWO63
    && (forall i | 0 <= i < |l.entries| :: EntryFits(l, i, diskSize))
    && (forall i, j | 0 <= i < j < |l.entries| :: Apart(l, i, j))
  }

  // ----- The abstract state and its operations -----

  function Volume(l: Layout, bytes: seq<bv8>, i: nat): seq<bv8>
    requires i < |l.entries| && EntryFits(l, i, |bytes|)
  {
    bytes[Start(l, i)..End(l, i)]
  }

  function All(l: Layout, bytes: seq<bv8>): (vs: seq<seq<bv8>>)
    requires forall i | 0 <= i < |l.entries| :: EntryFits(l, i, |bytes|)
    ensures |vs| == |l.entries|
  {
    seq(|l.entries|, i requires 0 <= i < |l.entries| => Volume(l, bytes, i))
  }

  function VolumeRead(v: seq<bv8>, offset: int, numBytes: nat, fault: Fault): ReadOutcome
    requires offset <= |v|
  {
    if offset < -|v| then ReadOutcome(RangeOutsidePartition, [])
    else if !fault.Works? then ReadOutcome(IoError, [])
    else
      var from := if offset < 0 then |v| + offset else offset;
      ReadOutcome(Ok, if numBytes < |v| - from then v[from..from + numBytes] else v[from..])
  }

  function VolumeWrite(v: seq<bv8>, offset: int, data: seq<bv8>, fault: Fault): (r: (IoResult, seq<bv8>))
    requires offset <= |v|
    ensures |r.1| == |v|
  {
    var from := if offset < 0 then |v| + offset else offset;
    if offset < -|v| || from + |data| > |v| then (RangeOutsidePartition, v)
    else if !fault.Works? then (IoError, v)
    else (Ok, v[..from] + data + v[from + |data|..])
  }

  // ----- One request -----

  lemma SizeIsEndMinusStart(l: Layout, i: nat, diskSize: nat)
    requires i < |l.entries| && EntryFits(l, i, diskSize) && diskSize < TWO63
    ensures ImgSize(l.entries[i], l.blockSize) == End(l, i) - Start(l, i)
    ensures End(l, i) - Start(l, i) == (l.entries[i].lastLba - l.entries[i].firstLba) * l.blockSize
    ensures Start(l, i) == l.entries[i].firstLba * l.blockSize
  {
    var e := l.entries[i];
    assert (e.lastLba - e.firstLba) * l.blockSize == End(l, i) - Start(l, i);
  }

  /** Where a read of a volume of `size` bytes from `Start` goes, in plain arithmetic. */
  function PlainRead(start: nat, size: nat, offset: int, numBytes: nat): Request {
    var from := if offset < 0 then size + offset else offset;
    if from < 0 || from > size then Refused
    else Transfer(start + from, if numBytes > size - from then size - from else numBytes)
  }

  lemma ReadRequestStays(l: Layout, i: nat, diskSize: nat, offset: int, numBytes: nat)
    requires i < |l.entries| && EntryFits(l, i, diskSize) && diskSize < TWO63
    requires offset <= End(l, i) - Start(l, i)
    ensures ReadRequest(l.entries[i], l.blockSize, offset, numBytes)
         == PlainRead(Start(l, i), End(l, i) - Start(l, i), offset, numBytes)
  {
    SizeIsEndMinusStart(l, i, diskSize);
  }

  lemma WriteRequestStays(l: Layout, i: nat, diskSize: nat, offset: int, numBytes: nat)
    requires i < |l.entries| && EntryFits(l, i, diskSize) && diskSize < TWO63
    requires offset <= End(l, i) - Start(l, i)
    ensures var size := End(l, i) - Start(l, i);
            var from := if offset < 0 then size + offset else offset;
            WriteRequest(l.entries[i], l.blockSize, offset, numBytes)
              == if offset < -size || from + numBytes > size then Refused
                 else Transfer(Start(l, i) + from, numBytes)
  {
    SizeIsEndMinusStart(l, i, diskSize);
  }

  ghost predicate StaysInside(l: Layout, i: nat, r: Request)
    requires i < |l.entries|
  {
    r.Refused? || r.count == 0 || (Start(l, i) <= r.addr && r.addr + r.count <= End(l, i))
  }

  lemma WrapsBelow(x: int)
    requires -TWO63 < x < 0
    ensures U64(x) == TWO64 + x > TWO63
  {
    assert (x + TWO64) % TWO64 == x % TWO64;
  }

  lemma BeyondTheEnd(l: Layout, i: nat, diskSize: nat, offset: int, numBytes: nat)
    requires i < |l.entries| && EntryFits(l, i, diskSize) && diskSize < TWO63
    requires End(l, i) - Start(l, i) < offset < TWO63 && numBytes < TWO63
    ensures ReadRequest(l.entries[i], l.blockSize, offset, numBytes) == Transfer(Start(l, i) + offset, numBytes)
    ensures WriteRequest(l.entries[i], l.blockSize, offset, numBytes) == Transfer(Start(l, i) + offset, numBytes)
  {
    var size := End(l, i) - Start(l, i);
    SizeIsEndMinusStart(l, i, diskSize);
    WrapsBelow(size - offset);
  }

  /** The documented promise, a range error or bytes of the partition only, is kept exactly when the
      offset is not beyond the end of the partition or nothing is asked for; beyond it the unsigned
      subtraction wraps and the request goes to whatever follows. */
  lemma StaysInsideIff(l: Layout, i: nat, diskSize: nat, offset: int, numBytes: nat)
    requires i < |l.entries| && EntryFits(l, i, diskSize) && diskSize < TWO63
    requires -TWO63 <= offset < TWO63 && numBytes < TWO63
    ensures StaysInside(l, i, ReadRequest(l.entries[i], l.blockSize, offset, numBytes))
            <==> offset <= End(l, i) - Start(l, i) || numBytes == 0
    ensures StaysInside(l, i, WriteRequest(l.entries[i], l.blockSize, offset, numBytes))
            <==> offset <= End(l, i) - Start(l, i) || numBytes == 0
  {
    if offset <= End(l, i) - Start(l, i) {
      ReadRequestStays(l, i, diskSize, offset, numBytes);
      WriteRequestStays(l, i, diskSize, offset, numBytes);
    } else {
      BeyondTheEnd(l, i, diskSize, offset, numBytes);
    }
  }

  /** The range errors are given as documented, for exactly the requests that leave the partition, if and
      only if the offset is not beyond the end: an empty request beyond it is not refused either. */
  lemma RangeErrorsIff(l: Layout, i: nat, diskSize: nat, offset: int, numBytes: nat)
    requires i < |l.entries| && EntryFits(l, i, diskSize) && diskSize < TWO63
    requires -TWO63 <= offset < TWO63 && numBytes < TWO63
    ensures var size := End(l, i) - Start(l, i);
            var from := if offset < 0 then size + offset else offset;
            && ((ReadRequest(l.entries[i], l.blockSize, offset, numBytes).Refused? <==> from < 0 || from > size)
                <==> offset <= size)
            && ((WriteRequest(l.entries[i], l.blockSize, offset, numBytes).Refused? <==> from < 0 || from + numBytes > size)
                <==> offset <= size)
  {
    if offset <= End(l, i) - Start(l, i) {
      ReadRequestStays(l, i, diskSize, offset, numBytes);
      WriteRequestStays(l, i, diskSize, offset, numBytes);
    } else {
      BeyondTheEnd(l, i, diskSize, offset, numBytes);
    }
  }

  lemma SliceOfSlice(s: seq<bv8>, lo: nat, hi: nat, a: nat, b: nat)
    requires lo <= hi <= |s| && a <= b <= hi - lo
    ensures s[lo..hi][a..b] == s[lo + a..lo + b]
  {
    forall k | 0 <= k < b - a ensures s[lo..hi][a..b][k] == s[lo + a..lo + b][k] {
      assert s[lo..hi][a + k] == s[lo + a + k];
    }
  }

  lemma TransferReads(bytes: seq<bv8>, lo: nat, hi: nat, offset: int, numBytes: nat, fault: Fault)
    requires lo <= hi <= |bytes| && offset <= hi - lo && !fault.TableUnread?
    ensures VolumeRead(bytes[lo..hi], offset, numBytes, fault)
         == ReadAt(bytes, PlainRead(lo, hi - lo, offset, numBytes), fault)
  {
    var from := if offset < 0 then hi - lo + offset else offset;
    if from >= 0 {
      SliceOfSlice(bytes, lo, hi, from, if numBytes < hi - lo - from then from + numBytes else hi - lo);
    }
  }

  lemma ReadRefines(l: Layout, bytes: seq<bv8>, name: seq<bv8>, offset: int, numBytes: nat, fault: Fault, i: nat)
    requires WellFormed(l, |bytes|) && Askable(name) && Lookup(l.entries, name) == Some(i)
    requires offset <= |Volume(l, bytes, i)| && !fault.TableUnread?
    ensures DiskRead(l, bytes, name, offset, numBytes, fault)
         == VolumeRead(Volume(l, bytes, i), offset, numBytes, fault)
  {
    assert EntryFits(l, i, |bytes|);
    ReadRequestStays(l, i, |bytes|, offset, numBytes);
    TransferReads(bytes, Start(l, i), End(l, i), offset, numBytes, fault);
  }

  lemma SpliceInside(s: seq<bv8>, lo: nat, hi: nat, from: nat, data: seq<bv8>)
    requires lo <= hi <= |s| && from + |data| <= hi - lo
    ensures Splice(s, lo + from, data)[lo..hi] == s[lo..hi][..from] + data + s[lo..hi][from + |data|..]
  {
    var t := Splice(s, lo + from, data)[lo..hi];
    var u := s[lo..hi][..from] + data + s[lo..hi][from + |data|..];
    assert |t| == |u|;
    forall k | 0 <= k < |t| ensures t[k] == u[k] {
      if k < from { assert t[k] == s[lo + k]; }
      else if k < from + |data| { assert t[k] == data[k - from]; }
      else { assert t[k] == s[lo + k]; }
    }
  }

  lemma SpliceElsewhere(s: seq<bv8>, at: nat, data: seq<bv8>, lo: nat, hi: nat)
    requires at + |data| <= |s| && lo <= hi <= |s|
    requires hi <= at || at + |data| <= lo
    ensures Splice(s, at, data)[lo..hi] == s[lo..hi]
  {}

  /** A write inside one entry's range changes that entry's volume and no other. */
  lemma SpliceOne(l: Layout, bytes: seq<bv8>, i: nat, from: nat, data: seq<bv8>)
    requires WellFormed(l, |bytes|) && i < |l.entries|
    requires from + |data| <= |Volume(l, bytes, i)|
    ensures Start(l, i) + from + |data| <= |bytes|
    ensures var v := Volume(l, bytes, i);
            All(l, Splice(bytes, Start(l, i) + from, data))
              == All(l, bytes)[i := v[..from] + data + v[from + |data|..]]
  {
    assert EntryFits(l, i, |bytes|);
    var bytes' := Splice(bytes, Start(l, i) + from, data);
    var v := Volume(l, bytes, i);
    SpliceInside(bytes, Start(l, i), End(l, i), from, data);
    forall j | 0 <= j < |l.entries| && j != i ensures Volume(l, bytes', j) == Volume(l, bytes, j) {
      assert EntryFits(l, j, |bytes|);
      assert if i < j then Apart(l, i, j) else Apart(l, j, i);
      SpliceElsewhere(bytes, Start(l, i) + from, data, Start(l, j), End(l, j));
    }
  }

  lemma WriteRefines(l: Layout, bytes: seq<bv8>, name: seq<bv8>, offset: int, data: seq<bv8>, fault: Fault, i: nat)
    requires WellFormed(l, |bytes|) && Askable(name) && Lookup(l.entries, name) == Some(i)
    requires offset <= |Volume(l, bytes, i)| && !fault.TableUnread?
    ensures var w := DiskWrite(l, bytes, name, offset, data, fault);
            var a := VolumeWrite(Volume(l, bytes, i), offset, data, fault);
            |w.bytes| == |bytes| && w.result == a.0 && All(l, w.bytes) == All(l, bytes)[i := a.1]
  {
    WriteRequestStays(l, i, |bytes|, offset, |data|);
    var v := Volume(l, bytes, i);
    var from := if offset < 0 then |v| + offset else offset;
    if offset >= -|v| && from + |data| <= |v| {
      SpliceOne(l, bytes, i, from, data);
    }
  }

  // ----- Changes confined to one range -----

  /** `after` is `before` with the bytes from `lo` to `hi` replaced by `m`. */
  predicate RangeBecomes(before: seq<bv8>, after: seq<bv8>, lo: nat, hi: nat, m: seq<bv8>) {
    lo <= hi <= |before| && |m| == hi - lo && after == before[..lo] + m + before[hi..]
  }

  lemma RangeHolds(before: seq<bv8>, after: seq<bv8>, lo: nat, hi: nat, m: seq<bv8>)
    requires RangeBecomes(before, after, lo, hi, m)
    ensures |after| == |before| && after[lo..hi] == m
  {}

  lemma RangeItself(s: seq<bv8>, lo: nat, hi: nat)
    requires lo <= hi <= |s|
    ensures RangeBecomes(s, s, lo, hi, s[lo..hi])
  {}

  lemma RangeAgain(first: seq<bv8>, second: seq<bv8>, third: seq<bv8>, lo: nat, hi: nat, m: seq<bv8>, m': seq<bv8>)
    requires RangeBecomes(first, second, lo, hi, m) && RangeBecomes(second, third, lo, hi, m')
    ensures RangeBecomes(first, third, lo, hi, m')
  {
    assert second[..lo] == first[..lo] && second[hi..] == first[hi..];
  }

  lemma SpliceInRange(s: seq<bv8>, lo: nat, hi: nat, from: nat, data: seq<bv8>)
    requires lo <= hi <= |s| && from + |data| <= hi - lo
    ensures RangeBecomes(s, Splice(s, lo + from, data), lo, hi, s[lo..hi][..from] + data + s[lo..hi][from + |data|..])
  {
    var v := s[lo..hi];
    assert s[..lo + from] == s[..lo] + v[..from];
    assert s[lo + from + |data|..] == v[from + |data|..] + s[hi..];
  }

  lemma TransferWrites(bytes: seq<bv8>, lo: nat, hi: nat, offset: int, data: seq<bv8>, fault: Fault)
    requires lo <= hi <= |bytes| && offset <= hi - lo
    ensures var from := if offset < 0 then hi - lo + offset else offset;
            var r := if offset < -(hi - lo) || from + |data| > hi - lo then Refused else Transfer(lo + from, |data|);
            RangeBecomes(bytes, WriteAt(bytes, r, data, fault).bytes, lo, hi,
                         VolumeWrite(bytes[lo..hi], offset, data, fault).1)
  {
    var from := if offset < 0 then hi - lo + offset else offset;
    if offset >= -(hi - lo) && from + |data| <= hi - lo && fault.Works? {
      SpliceInRange(bytes, lo, hi, from, data);
    } else {
      RangeItself(bytes, lo, hi);
    }
  }

  /** A write changes no byte of the disk outside the partition, in any table entry or in none. */
  lemma WriteConfined(l: Layout, bytes: seq<bv8>, name: seq<bv8>, offset: int, data: seq<bv8>, fault: Fault, i: nat)
    requires WellFormed(l, |bytes|) && Askable(name) && Lookup(l.entries, name) == Some(i)
    requires offset <= |Volume(l, bytes, i)| && !fault.TableUnread?
    ensures RangeBecomes(bytes, DiskWrite(l, bytes, name, offset, data, fault).bytes, Start(l, i), End(l, i),
                         VolumeWrite(Volume(l, bytes, i), offset, data, fault).1)
  {
    assert EntryFits(l, i, |bytes|);
    WriteRequestStays(l, i, |bytes|, offset, |data|);
    TransferWrites(bytes, Start(l, i), End(l, i), offset, data, fault);
  }

  /** What was written is what the same range reads back. */
  lemma ReadBack(v: seq<bv8>, offset: int, data: seq<bv8>)
    requires offset <= |v| && VolumeWrite(v, offset, data, Works).0.Ok?
    ensures VolumeRead(VolumeWrite(v, offset, data, Works).1, offset, |data|, Works) == ReadOutcome(Ok, data)
  {}

  /** On the disk: after a named write that succeeded, a named read of the same range returns the data. */
  lemma NamedReadBack(l: Layout, bytes: seq<bv8>, name: seq<bv8>, offset: int, data: seq<bv8>, i: nat)
    requires WellFormed(l, |bytes|) && Askable(name) && Lookup(l.entries, name) == Some(i)
    requires offset <= |Volume(l, bytes, i)| && DiskWrite(l, bytes, name, offset, data, Works).result == Ok
    ensures DiskRead(l, DiskWrite(l, bytes, name, offset, data, Works).bytes, name, offset, |data|, Works)
         == ReadOutcome(Ok, data)
  {
    var bytes' := DiskWrite(l, bytes, name, offset, data, Works).bytes;
    WriteRefines(l, bytes, name, offset, data, Works, i);
    assert Volume(l, bytes', i) == All(l, bytes')[i] == VolumeWrite(Volume(l, bytes, i), offset, data, Works).1;
    ReadBack(Volume(l, bytes, i), offset, data);
    ReadRefines(l, bytes', name, offset, |data|, Works, i);
  }

  /** And a read of another partition returns what it would have returned before the write. */
  lemma OtherUnchanged(l: Layout, bytes: seq<bv8>, name: seq<bv8>, offset: int, data: seq<bv8>, i: nat,
      other: seq<bv8>, at: int, numBytes: nat, fault: Fault, j: nat)
    requires WellFormed(l, |bytes|) && Askable(name) && Lookup(l.entries, name) == Some(i)
    requires Askable(other) && Lookup(l.entries, other) == Some(j) && j != i && !fault.TableUnread?
    requires offset <= |Volume(l, bytes, i)| && at <= |Volume(l, bytes, j)|
    ensures DiskRead(l, DiskWrite(l, bytes, name, offset, data, Works).bytes, other, at, numBytes, fault)
         == DiskRead(l, bytes, other, at, numBytes, fault)
  {
    var bytes' := DiskWrite(l, bytes, name, offset, data, Works).bytes;
    WriteRefines(l, bytes, name, offset, data, Works, i);
    assert Volume(l, bytes', j) == All(l, bytes')[j] == All(l, bytes)[j];
    ReadRefines(l, bytes', other, at, numBytes, fault, j);
    ReadRefines(l, bytes, other, at, numBytes, fault, j);
  }

  /** Each result of a named read on the disk has exactly one cause, and a successful one brings the bytes
      asked for as far as the partition has them. */
  lemma ReadResultMeans(l: Layout, bytes: seq<bv8>, name: seq<bv8>, offset: int, numBytes: nat, fault: Fault, i: nat)
    requires WellFormed(l, |bytes|) && Askable(name) && Lookup(l.entries, name) == Some(i)
    requires offset <= |Volume(l, bytes, i)|
    ensures var size := |Volume(l, bytes, i)|;
            var from := if offset < 0 then size + offset else offset;
            var r := DiskRead(l, bytes, name, offset, numBytes, fault);
            && (r.result == NoSuchPartition <==> fault == TableUnread)
            && (r.result == RangeOutsidePartition <==> fault != TableUnread && from < 0)
            && (r.result == IoError <==> fault == DeviceFails && from >= 0)
            && (r.result == Ok ==> |r.data| == if numBytes <= size - from then numBytes else size - from)
            && (r.result != Ok ==> r.data == [])
  {
    if fault != TableUnread { ReadRefines(l, bytes, name, offset, numBytes, fault, i); }
  }

  /** Each result of a named write on the disk has exactly one cause. */
  lemma WriteResultMeans(l: Layout, bytes: seq<bv8>, name: seq<bv8>, offset: int, data: seq<bv8>, fault: Fault, i: nat)
    requires WellFormed(l, |bytes|) && Askable(name) && Lookup(l.entries, name) == Some(i)
    requires offset <= |Volume(l, bytes, i)|
    ensures var size := |Volume(l, bytes, i)|;
            var from := if offset < 0 then size + offset else offset;
            var w := DiskWrite(l, bytes, name, offset, data, fault);
            && (w.result == NoSuchPartition <==> fault == TableUnread)
            && (w.result == RangeOutsidePartition <==> fault != TableUnread && (from < 0 || from + |data| > size))
            && (w.result == IoError <==> fault == DeviceFails && 0 <= from && from + |data| <= size)
            && (w.result != Ok ==> w.bytes == bytes)
  {
    if fault != TableUnread { WriteRefines(l, bytes, name, offset, data, fault, i); }
  }

  // ----- Any sequence of requests -----

  datatype Op =
    | Read(name: seq<bv8>, offset: int, numBytes: nat, fault: Fault)
    | Write(name: seq<bv8>, offset: int, data: seq<bv8>, fault: Fault)

  /** What a caller sees of one request; a write returns no data. */
  type Seen = ReadOutcome

  ghost predicate OpAllowed(l: Layout, vs: seq<seq<bv8>>, op: Op)
    requires TableReadable(l.entries) && |vs| == |l.entries|
  {
    Askable(op.name)
    && (Lookup(l.entries, op.name).Some? ==> op.offset <= |vs[Lookup(l.entries, op.name).value]|)
  }

  function DiskStep(l: Layout, bytes: seq<bv8>, op: Op): (seq<bv8>, Seen)
    requires TableReadable(l.entries) && Askable(op.name)
  {
    match op
    case Read(name, offset, n, fault) => (bytes, DiskRead(l, bytes, name, offset, n, fault))
    case Write(name, offset, data, fault) =>
      var w := DiskWrite(l, bytes, name, offset, data, fault);
      (w.bytes, ReadOutcome(w.result, []))
  }

  ghost function VolumeStep(l: Layout, vs: seq<seq<bv8>>, op: Op): (r: (seq<seq<bv8>>, Seen))
    requires TableReadable(l.entries) && |vs| == |l.entries| && OpAllowed(l, vs, op)
    ensures |r.0| == |vs| && forall i | 0 <= i < |vs| :: |r.0[i]| == |vs[i]|
  {
    match Lookup(l.entries, op.name)
    case None => (vs, ReadOutcome(NoSuchPartition, []))
    case Some(i) =>
      if op.fault.TableUnread? then (vs, ReadOutcome(NoSuchPartition, []))
      else match op
        case Read(_, offset, n, fault) => (vs, VolumeRead(vs[i], offset, n, fault))
        case Write(_, offset, data, fault) =>
          var w := VolumeWrite(vs[i], offset, data, fault);
          (vs[i := w.1], ReadOutcome(w.0, []))
  }

  ghost predicate OpsAllowed(l: Layout, vs: seq<seq<bv8>>, ops: seq<Op>)
    requires TableReadable(l.entries) && |vs| == |l.entries|
  {
    forall op | op in ops :: OpAllowed(l, vs, op)
  }

  function DiskRun(l: Layout, bytes: seq<bv8>, ops: seq<Op>): (seq<bv8>, seq<Seen>)
    requires TableReadable(l.entries) && forall op | op in ops :: Askable(op.name)
    decreases |ops|
  {
    if ops == [] then (bytes, [])
    else
      var (bytes', seen) := DiskStep(l, bytes, ops[0]);
      var (bytes'', rest) := DiskRun(l, bytes', ops[1..]);
      (bytes'', [seen] + rest)
  }

  lemma StillAllowed(l: Layout, vs: seq<seq<bv8>>, vs': seq<seq<bv8>>, ops: seq<Op>)
    requires TableReadable(l.entries) && |vs| == |vs'| == |l.entries| && ops != []
    requires OpsAllowed(l, vs, ops) && forall i | 0 <= i < |vs| :: |vs'[i]| == |vs[i]|
    ensures OpsAllowed(l, vs', ops[1..])
  {
    forall op | op in ops[1..] ensures OpAllowed(l, vs', op) { assert OpAllowed(l, vs, op); }
  }

  ghost function VolumeRun(l: Layout, vs: seq<seq<bv8>>, ops: seq<Op>): (seq<seq<bv8>>, seq<Seen>)
    requires TableReadable(l.entries) && |vs| == |l.entries| && OpsAllowed(l, vs, ops)
    decreases |ops|
  {
    if ops == [] then (vs, [])
    else
      var (vs', seen) := VolumeStep(l, vs, ops[0]);
      StillAllowed(l, vs, vs', ops);
      var (vs'', rest) := VolumeRun(l, vs', ops[1..]);
      (vs'', [seen] + rest)
  }

  lemma StepRefines(l: Layout, bytes: seq<bv8>, op: Op)
    requires WellFormed(l, |bytes|) && OpAllowed(l, All(l, bytes), op)
    ensures var (bytes', seen) := DiskStep(l, bytes, op);
            |bytes'| == |bytes| && (All(l, bytes'), seen) == VolumeStep(l, All(l, bytes), op)
  {
    match Lookup(l.entries, op.name)
    case None =>
    case Some(i) =>
      if !op.fault.TableUnread? {
        match op
        case Read(name, offset, n, fault) => ReadRefines(l, bytes, name, offset, n, fault, i);
        case Write(name, offset, data, fault) => WriteRefines(l, bytes, name, offset, data, fault, i);
      }
  }

  /** Any sequence of named reads and writes shows on the flat disk exactly what it shows on
      independent byte arrays. */
  lemma {:induction false} RunRefines(l: Layout, bytes: seq<bv8>, ops: seq<Op>)
    requires WellFormed(l, |bytes|) && OpsAllowed(l, All(l, bytes), ops)
    ensures var (bytes', seen) := DiskRun(l, bytes, ops);
            |bytes'| == |bytes| && (All(l, bytes'), seen) == VolumeRun(l, All(l, bytes), ops)
    decreases |ops|
  {
    if ops != [] {
      assert OpAllowed(l, All(l, bytes), ops[0]);
      var (bytes', seen) := DiskStep(l, bytes, ops[0]);
      StepRefines(l, bytes, ops[0]);
      StillAllowed(l, All(l, bytes), All(l, bytes'), ops);
      RunRefines(l, bytes', ops[1..]);
    }
  }
}
