/**
 The slot choice and slot invalidation of the boot loader, on in-memory structs and the disk.
 Each method is proved against AbFlow's function of the misc partition.
 */
module AbControl {
  import opened Common
  import opened Gpt
  import opened PartitionIO
  import opened Volumes
  import opened Crc32
  import opened AbRecord
  import opened AbFlow

  /** "misc" */
  const MISC: seq<bv8> := [0x6D, 0x69, 0x73, 0x63]

  lemma MiscAskable()
    ensures Askable(MISC)
  {
    AsciiDecodes(MISC);
  }

  // ----- The structs -----

  class SlotData {
    var priority: Priority
    var triesRemaining: Tries
    var successfulBoot: bool
    var reserved: Bytes7

    ghost function View(): Slot
      reads this
    {
      Slot(priority, triesRemaining, successfulBoot, reserved)
    }

    constructor ()
      ensures View() == ZERO_SLOT
    {
      priority, triesRemaining, successfulBoot, reserved := 0, 0, false, ZERO7;
    }

    method Load(s: Slot)
      modifies this
      ensures View() == s
    {
      priority, triesRemaining, successfulBoot, reserved :=
        s.priority, s.triesRemaining, s.successfulBoot, s.reserved;
    }

    method Clear()
      modifies this
      ensures View() == ZERO_SLOT
    {
      priority, triesRemaining, successfulBoot, reserved := 0, 0, false, ZERO7;
    }

    method Normalize() returns (changed: bool)
      modifies this
      ensures View() == Normalized(old(View()))
      ensures changed <==> View() != old(View())
    {
      if priority > 0 {
        if triesRemaining == 0 && !successfulBoot {
          Clear();
          return true;
        }
        if triesRemaining > 0 && successfulBoot {
          successfulBoot := false;
          return true;
        }
      } else if triesRemaining != 0 || successfulBoot {
        Clear();
        return true;
      }
      return false;
    }

    predicate Bootable()
      reads this
      ensures Bootable() == IsBootable(View())
    {
      successfulBoot || triesRemaining > 0
    }
  }

  class AbDataStruct {
    var magic: Bytes4
    var majorVersion: bv8
    var minorVersion: bv8
    var reserved1: Bytes2
    const slotA: SlotData
    const slotB: SlotData
    var reserved2: Bytes36
    var crc32: bv32

    ghost predicate Valid() { slotA != slotB }

    ghost function SlotsView(): Slots
      reads slotA, slotB
    {
      Slots(slotA.View(), slotB.View())
    }

    ghost function View(): AbData
      reads this, slotA, slotB
    {
      AbData(magic, majorVersion, minorVersion, reserved1, SlotsView(), reserved2, crc32)
    }

    constructor ()
      ensures Valid() && fresh(slotA) && fresh(slotB)
    {
      magic, majorVersion, minorVersion, reserved1 := [0, 0, 0, 0], 0, 0, [0, 0];
      slotA := new SlotData();
      slotB := new SlotData();
      reserved2, crc32 := ZERO36, 0;
    }

    method Load(d: AbData)
      requires Valid()
      modifies this, slotA, slotB
      ensures View() == d
    {
      magic, majorVersion, minorVersion, reserved1 := d.magic, d.majorVersion, d.minorVersion, d.reserved1;
      slotA.Load(d.slots.a);
      slotB.Load(d.slots.b);
      reserved2, crc32 := d.reserved2, d.crc32;
    }

    /** The struct's bytes, with `crc` in the CRC field. */
    method Image(crc: bv32) returns (s: Image)
      ensures s == Bytes(View().(crc32 := crc))
    {
      var a := Slot(slotA.priority, slotA.triesRemaining, slotA.successfulBoot, slotA.reserved);
      var b := Slot(slotB.priority, slotB.triesRemaining, slotB.successfulBoot, slotB.reserved);
      s := Bytes(AbData(magic, majorVersion, minorVersion, reserved1, Slots(a, b), reserved2, crc));
    }

    function SlotFor(w: Which): SlotData { if w == A then slotA else slotB }
  }

  // ----- The misc partition on the disk -----

  /** The bytes of the partition of that name; none when there is no such partition. */
  function VolumeNamed(l: Layout, bytes: seq<bv8>, name: seq<bv8>): seq<bv8>
    requires WellFormed(l, |bytes|) && Askable(name)
  {
    match Lookup(l.entries, name)
    case None => []
    case Some(i) => Volume(l, bytes, i)
  }

  /** The disk changes from `before` to `after` in the named partition only, which becomes `m`. */
  ghost predicate Becomes(l: Layout, name: seq<bv8>, before: seq<bv8>, after: seq<bv8>, m: seq<bv8>)
    requires WellFormed(l, |before|) && |after| == |before| && Askable(name)
  {
    match Lookup(l.entries, name)
    case None => after == before && m == []
    case Some(i) => RangeBecomes(before, after, Start(l, i), End(l, i), m)
  }

  lemma BecomesItself(l: Layout, name: seq<bv8>, bytes: seq<bv8>)
    requires WellFormed(l, |bytes|) && Askable(name)
    ensures Becomes(l, name, bytes, bytes, VolumeNamed(l, bytes, name))
  {
    match Lookup(l.entries, name)
    case None =>
    case Some(i) =>
      assert EntryFits(l, i, |bytes|);
      RangeItself(bytes, Start(l, i), End(l, i));
  }

  lemma ReadingMisc(l: Layout, bytes: seq<bv8>, name: seq<bv8>, fault: Fault)
    requires WellFormed(l, |bytes|) && Askable(name)
    ensures var r := DiskRead(l, bytes, name, 0, 64, fault);
            var misc := VolumeNamed(l, bytes, name);
            if !fault.Works? || |misc| < 64 then r.result != Ok || |r.data| < 64
            else r == ReadOutcome(Ok, misc[..64])
  {
    match Lookup(l.entries, name)
    case None =>
    case Some(i) => if !fault.TableUnread? { ReadRefines(l, bytes, name, 0, 64, fault, i); }
  }

  lemma WriteAtStart(v: seq<bv8>, image: Image, fault: Fault)
    ensures var r := VolumeWrite(v, 0, image, fault);
            (r.0 == Ok <==> CanWrite(v, !fault.Works?)) && r.1 == if r.0 == Ok then image + v[64..] else v
  {}

  lemma WritingMisc(l: Layout, bytes: seq<bv8>, name: seq<bv8>, image: Image, fault: Fault)
    requires WellFormed(l, |bytes|) && Askable(name)
    ensures var w := DiskWrite(l, bytes, name, 0, image, fault);
            var misc := VolumeNamed(l, bytes, name);
            && |w.bytes| == |bytes| && (w.result == Ok <==> CanWrite(misc, !fault.Works?))
            && Becomes(l, name, bytes, w.bytes, if w.result == Ok then image + misc[64..] else misc)
  {
    match Lookup(l.entries, name)
    case None =>
    case Some(i) =>
      if fault.TableUnread? {
        BecomesItself(l, name, bytes);
      } else {
        WriteRefines(l, bytes, name, 0, image, fault, i);
        WriteConfined(l, bytes, name, 0, image, fault, i);
        WriteAtStart(VolumeNamed(l, bytes, name), image, fault);
      }
  }

  lemma BecomesMisc(l: Layout, name: seq<bv8>, before: seq<bv8>, after: seq<bv8>, m: seq<bv8>)
    requires WellFormed(l, |before|) && |after| == |before| && Askable(name)
    requires Becomes(l, name, before, after, m)
    ensures VolumeNamed(l, after, name) == m
  {
    match Lookup(l.entries, name)
    case None =>
    case Some(i) => RangeHolds(before, after, Start(l, i), End(l, i), m);
  }

  /** On the flat disk: whatever else the disk holds, a record that a write put in the partition is what
      a read finds there. */
  lemma DiskRoundTrip(l: Layout, name: seq<bv8>, bytes: seq<bv8>, d: AbData)
    requires WellFormed(l, |bytes|) && Askable(name)
    requires |VolumeNamed(l, bytes, name)| >= 64 && d.magic == MAGIC
    ensures var w := DiskWrite(l, bytes, name, 0, DiskImage(d), Works);
            && w.result == Ok && |w.bytes| == |bytes|
            && DiskRead(l, w.bytes, name, 0, 64, Works) == ReadOutcome(Ok, DiskImage(d))
            && ReadMisc(BOOT_CODEC, VolumeNamed(l, w.bytes, name), false) == Record(d.(crc32 := Checksum(d)))
  {
    var misc := VolumeNamed(l, bytes, name);
    var w := DiskWrite(l, bytes, name, 0, DiskImage(d), Works);
    WritingMisc(l, bytes, name, DiskImage(d), Works);
    BecomesMisc(l, name, bytes, w.bytes, DiskImage(d) + misc[64..]);
    ReadingMisc(l, w.bytes, name, Works);
    WrittenIsRead(misc, d);
    assert (DiskImage(d) + misc[64..])[..64] == DiskImage(d);
  }

  /** What WriteAbData leaves behind is what ReadAbData then finds. */
  lemma WriteThenRead(l: Layout, name: seq<bv8>, before: seq<bv8>, after: seq<bv8>, d: AbData)
    requires WellFormed(l, |before|) && |after| == |before| && Askable(name) && d.magic == MAGIC
    requires CanWrite(VolumeNamed(l, before, name), false)
    requires Becomes(l, name, before, after, WriteMisc(BOOT_CODEC, VolumeNamed(l, before, name), d, false))
    ensures ReadMisc(BOOT_CODEC, VolumeNamed(l, after, name), false) == Record(d.(crc32 := Checksum(d)))
  {
    BecomesMisc(l, name, before, after, WriteMisc(BOOT_CODEC, VolumeNamed(l, before, name), d, false));
    WrittenIsRead(VolumeNamed(l, before, name), d);
  }

  // ----- Suffixes -----

  /** The three bytes the caller gets for a chosen slot: "_a", "_b" or nothing, with terminator. */
  function SuffixOf(chosen: Option<Which>): seq<bv8> {
    match chosen
    case None => [0, 0, 0]
    case Some(A) => [0x5F, 0x61, 0]
    case Some(B) => [0x5F, 0x62, 0]
  }

  /** The slot whose suffix, terminator included, starts `suffix`. */
  function SlotWithSuffix(suffix: seq<bv8>): Option<Which> {
    if SuffixOf(Some(A)) <= suffix then Some(A)
    else if SuffixOf(Some(B)) <= suffix then Some(B)
    else None
  }

  lemma SuffixInverse(w: Which)
    ensures SlotWithSuffix(SuffixOf(Some(w))) == Some(w)
  {
    assert SuffixOf(Some(A))[1] != SuffixOf(Some(B))[1];
  }

  // ----- The operations -----

  class AbControl {
    const disk: Disk
    /** The partition that holds the record. */
    const misc: seq<bv8>

    ghost predicate Valid() { WellFormed(disk.layout, disk.bytes.Length) && Askable(misc) }

    ghost function Misc(): seq<bv8>
      requires Valid()
      reads disk.bytes
    {
      VolumeNamed(disk.layout, disk.bytes[..], misc)
    }

    constructor (disk: Disk)
      requires WellFormed(disk.layout, disk.bytes.Length)
      ensures Valid() && this.disk == disk && misc == [0x6D, 0x69, 0x73, 0x63]
    {
      MiscAskable();
      this.disk, misc := disk, MISC;
    }

    /** The first 64 bytes of misc, None when they cannot be read. */
    method ReadImage(fault: Fault) returns (image: Option<Image>)
      requires Valid()
      ensures image == if !fault.Works? || |Misc()| < 64 then None else Some(Misc()[..64])
    {
      ReadingMisc(disk.layout, disk.bytes[..], misc, fault);
      ghost var r := DiskRead(disk.layout, disk.bytes[..], misc, 0, 64, fault);
      var buf := new bv8[64](_ => 0);
      ghost var zeroed := buf[..];
      var ioResult, numBytesRead := disk.ReadFromPartition(misc, buf, 0, 64, fault, 0);
      if ioResult != Ok || numBytesRead != 64 {
        return None;
      }
      assert buf[..] == r.data + zeroed[64..] == r.data;
      return Some(buf[..]);
    }

    /** Checks magic and CRC of an image, leaving the record in `data` when they are right. */
    method AcceptImage(data: AbDataStruct, image: Image) returns (ok: bool)
      requires data.Valid()
      modifies data, data.slotA, data.slotB
      ensures ok == Accept(image).Some?
      ensures ok ==> data.View() == Accept(image).value
    {
      data.Load(FromBytes(image));
      if data.magic != MAGIC {
        return false;
      }
      var crc := Be32ToHost(data.crc32);
      data.crc32 := 0;
      var zeroed := data.Image(0);
      var computed := BubCrc32(0, zeroed);
      if crc != computed {
        return false;
      }
      data.crc32 := crc;
      return true;
    }

    method ReadAbData(data: AbDataStruct, fault: Fault) returns (err: AbResult)
      requires Valid() && data.Valid()
      modifies data, data.slotA, data.slotB
      ensures match ReadMisc(BOOT_CODEC, Misc(), !fault.Works?)
              case Unreadable => err == ErrorReadMetadata
              case Invalid => err == ErrorInvalidMetadata
              case Record(d) => err == ResultOk && data.View() == d
    {
      var image := ReadImage(fault);
      if image.None? {
        return ErrorReadMetadata;
      }
      var ok := AcceptImage(data, image.value);
      return if ok then ResultOk else ErrorInvalidMetadata;
    }

    method WriteAbData(data: AbDataStruct, fault: Fault) returns (ok: bool)
      requires Valid() && data.Valid()
      modifies disk.bytes
      ensures ok == CanWrite(old(Misc()), !fault.Works?)
      ensures Becomes(disk.layout, misc, old(disk.bytes[..]), disk.bytes[..],
                          WriteMisc(BOOT_CODEC, old(Misc()), data.View(), !fault.Works?))
    {
      var zeroed := data.Image(0);
      var crc := BubCrc32(0, zeroed);
      var image := data.Image(Be32ToHost(crc));
      WritingMisc(disk.layout, disk.bytes[..], misc, image, fault);
      var ioResult := disk.WriteToPartition(misc, image, 0, fault);
      return ioResult == Ok;
    }

    /** Writes the reset record over invalid metadata. */
    method ResetMetadata(fault: Fault) returns (ok: bool)
      requires Valid()
      modifies disk.bytes
      ensures ok == CanWrite(old(Misc()), !fault.Works?)
      ensures Becomes(disk.layout, misc, old(disk.bytes[..]), disk.bytes[..],
                      WriteMisc(BOOT_CODEC, old(Misc()), ResetData(), !fault.Works?))
    {
      var metadata := new AbDataStruct();
      metadata.Load(ResetData());
      ok := WriteAbData(metadata, fault);
    }

    /** The choice on the struct in memory: normalizes the slots, picks one and spends one of its tries. */
    method Select(abCtl: AbDataStruct) returns (target: Option<Which>, newMetadata: bool)
      requires abCtl.Valid()
      modifies abCtl.slotA, abCtl.slotB
      ensures var n := NormalizedSlots(old(abCtl.SlotsView()));
              && target == Choice(n)
              && abCtl.SlotsView() == (match target case None => n case Some(w) => Spent(n, w))
              && newMetadata == (n != old(abCtl.SlotsView())
                                 || (target.Some? && SlotOf(n, target.value).triesRemaining > 0))
    {
      ghost var n := NormalizedSlots(abCtl.SlotsView());
      var newA := abCtl.slotA.Normalize();
      var newB := abCtl.slotB.Normalize();
      newMetadata := newA || newB;
      if abCtl.slotA.Bootable() && abCtl.slotB.Bootable() {
        if abCtl.slotB.priority > abCtl.slotA.priority {
          target := Some(B);
        } else {
          target := Some(A);
        }
      } else if abCtl.slotA.Bootable() {
        target := Some(A);
      } else if abCtl.slotB.Bootable() {
        target := Some(B);
      } else {
        return None, newMetadata;
      }
      assert abCtl.SlotsView() == n;
      var slot := abCtl.SlotFor(target.value);
      if slot.triesRemaining > 0 {
        slot.triesRemaining := slot.triesRemaining - 1;
        newMetadata := true;
      }
    }

    /** The rest of the choice, from a valid record in memory. */
    method FlowFrom(abCtl: AbDataStruct, ghost readFault: Fault, writeFault: Fault)
        returns (result: AbResult, selectedSuffix: seq<bv8>)
      requires Valid() && abCtl.Valid()
      modifies disk.bytes, abCtl.slotA, abCtl.slotB
      ensures var out := FlowOn(BOOT_CODEC, old(Misc()), old(abCtl.View()),
                                Faults(!readFault.Works?, !writeFault.Works?));
              && result == out.result && selectedSuffix == SuffixOf(out.chosen)
              && Becomes(disk.layout, misc, old(disk.bytes[..]), disk.bytes[..], out.misc)
    {
      BecomesItself(disk.layout, misc, disk.bytes[..]);
      ghost var d := abCtl.View();
      var target, newMetadata := Select(abCtl);
      assert abCtl.View() == d.(slots := abCtl.SlotsView());
      if newMetadata {
        var ok := WriteAbData(abCtl, writeFault);
        if !ok {
          return ErrorWriteMetadata, [0, 0, 0];
        }
      }
      return if target.None? then ErrorNoValidSlots else ResultOk, SuffixOf(target);
    }

    /** Chooses the slot to boot, spends one of its tries, and returns its suffix with the terminator;
        the suffix is three zeros when there is an error. */
    method BubAbFlow(readFault: Fault, writeFault: Fault) returns (result: AbResult, selectedSuffix: seq<bv8>)
      requires Valid()
      modifies disk.bytes
      ensures var out := Flow(BOOT_CODEC, old(Misc()), Faults(!readFault.Works?, !writeFault.Works?));
              && result == out.result && selectedSuffix == SuffixOf(out.chosen)
              && Becomes(disk.layout, misc, old(disk.bytes[..]), disk.bytes[..], out.misc)
    {
      BecomesItself(disk.layout, misc, disk.bytes[..]);
      selectedSuffix := [0, 0, 0];
      var abCtl := new AbDataStruct();
      result := ReadAbData(abCtl, readFault);
      if result != ResultOk {
        if result == ErrorInvalidMetadata {
          var _ := ResetMetadata(writeFault);
        }
        return;
      }
      result, selectedSuffix := FlowFrom(abCtl, readFault, writeFault);
    }

    /** Marks the slot of the given suffix invalid on disk. */
    method BubAbMarkAsInvalid(invalidSuffix: seq<bv8>, readFault: Fault, writeFault: Fault) returns (result: MarkResult)
      requires Valid()
      modifies disk.bytes
      ensures var r := Mark(BOOT_CODEC, old(Misc()), SlotWithSuffix(invalidSuffix),
                            Faults(!readFault.Works?, !writeFault.Works?));
              result == r.0 && Becomes(disk.layout, misc, old(disk.bytes[..]), disk.bytes[..], r.1)
    {
      BecomesItself(disk.layout, misc, disk.bytes[..]);
      var abCtl := new AbDataStruct();
      var abErr := ReadAbData(abCtl, readFault);
      if abErr != ResultOk {
        return NotRead(abErr);
      }
      var w := SlotWithSuffix(invalidSuffix);
      if w.None? {
        return UnknownSuffix;
      }
      ghost var d := abCtl.View();
      abCtl.SlotFor(w.value).Clear();
      assert abCtl.View() == d.(slots := WithSlot(d.slots, w.value, ZERO_SLOT));
      var ok := WriteAbData(abCtl, writeFault);
      return if ok then Marked else NotWritten;
    }
  }
}
