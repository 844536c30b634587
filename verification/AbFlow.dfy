/**
 The A/B slot machine as a function of the misc partition: what one call of the boot loader's
 slot choice, or of its slot invalidation, returns and leaves on disk, for each way its one read
 and one write may fail.
 */
module AbFlow {
  import opened Common
  import opened AbRecord

  datatype AbResult =
    | ResultOk
    | ErrorInvalidMetadata
    | ErrorNoValidSlots
    | ErrorReadMetadata
    | ErrorWriteMetadata

  datatype Which = A | B {
    function Other(): Which { if this == A then B else A }
  }

  /** Which of the call's two accesses to misc fail. */
  datatype Faults = Faults(read: bool, write: bool)

  const NO_FAULTS := Faults(false, false)

  const ZERO7: Bytes7 := [0, 0, 0, 0, 0, 0, 0]
  const ZERO_SLOT := Slot(0, 0, false, ZERO7)

  // ----- Slots -----

  function Normalized(s: Slot): Slot {
    if s.priority > 0 then
      if s.triesRemaining == 0 && !s.successfulBoot then ZERO_SLOT
      else if s.triesRemaining > 0 && s.successfulBoot then s.(successfulBoot := false)
      else s
    else if s.triesRemaining != 0 || s.successfulBoot then ZERO_SLOT
    else s
  }

  predicate IsBootable(s: Slot) { s.successfulBoot || s.triesRemaining > 0 }

  function SlotOf(s: Slots, w: Which): Slot { if w == A then s.a else s.b }

  function WithSlot(s: Slots, w: Which, slot: Slot): Slots {
    if w == A then s.(a := slot) else s.(b := slot)
  }

  function NormalizedSlots(s: Slots): Slots { Slots(Normalized(s.a), Normalized(s.b)) }

  /** The slot to boot among normalized slots; slot A wins a tie. */
  function Choice(s: Slots): Option<Which> {
    if IsBootable(s.a) && IsBootable(s.b) then Some(if s.b.priority > s.a.priority then B else A)
    else if IsBootable(s.a) then Some(A)
    else if IsBootable(s.b) then Some(B)
    else None
  }

  /** One try of slot `w` used up, when it has any. */
  function Spent(s: Slots, w: Which): Slots {
    var slot := SlotOf(s, w);
    if slot.triesRemaining > 0 then WithSlot(s, w, slot.(triesRemaining := slot.triesRemaining - 1)) else s
  }

  // ----- The record on the misc partition -----

  const ZERO36: Bytes36 :=
    [0, 0, 0, 0, 0, 0, 0, 0, 0, 0, 0, 0, 0, 0, 0, 0, 0, 0,
     0, 0, 0, 0, 0, 0, 0, 0, 0, 0, 0, 0, 0, 0, 0, 0, 0, 0]

  /** The record written over invalid metadata. */
  function ResetData(): AbData {
    AbData(MAGIC, 1, 0, [0, 0], Slots(Slot(15, 7, false, ZERO7), Slot(15, 7, false, ZERO7)), ZERO36, 0)
  }

  /** How records lie on disk.  The machine below is the same for every codec; BOOT_CODEC is the boot
      loader's own. */
  datatype Codec = Codec(accept: Image -> Option<AbData>, image: AbData -> Image)

  const BOOT_CODEC := Codec(Accept, DiskImage)

  /** A record written with the right magic is read back, up to its CRC field. */
  ghost predicate ReadsBack(c: Codec, d: AbData) {
    d.magic == MAGIC ==>
      c.accept(c.image(d)).Some? && c.accept(c.image(d)).value.(crc32 := 0) == d.(crc32 := 0)
  }

  ghost predicate ChecksMagic(c: Codec, s: Image) { c.accept(s).Some? ==> c.accept(s).value.magic == MAGIC }

  ghost predicate Lawful(c: Codec) {
    (forall d :: ReadsBack(c, d)) && (forall s: Image :: ChecksMagic(c, s))
  }

  lemma BootCodecLawful()
    ensures Lawful(BOOT_CODEC)
  {
    forall d ensures ReadsBack(BOOT_CODEC, d) { if d.magic == MAGIC { RoundTrip(d); } }
    forall s: Image ensures ChecksMagic(BOOT_CODEC, s) { if Accept(s).Some? { AcceptedIsWritten(s); } }
  }

  datatype ReadResult = Record(data: AbData) | Invalid | Unreadable

  function ReadMisc(c: Codec, misc: seq<bv8>, fault: bool): ReadResult {
    if fault || |misc| < 64 then Unreadable
    else match c.accept(misc[..64])
      case None => Invalid
      case Some(d) => Record(d)
  }

  predicate CanWrite(misc: seq<bv8>, fault: bool) { !fault && |misc| >= 64 }

  function WriteMisc(c: Codec, misc: seq<bv8>, d: AbData, fault: bool): (m: seq<bv8>)
    ensures |m| == |misc|
  {
    if CanWrite(misc, fault) then c.image(d) + misc[64..] else misc
  }

  /** A record written to misc and read again is the same record with its CRC filled in, and the rest of
      the partition is as before. */
  lemma WrittenIsRead(misc: seq<bv8>, d: AbData)
    requires |misc| >= 64 && d.magic == MAGIC
    ensures var m := WriteMisc(BOOT_CODEC, misc, d, false);
            ReadMisc(BOOT_CODEC, m, false) == Record(d.(crc32 := Checksum(d))) && m[64..] == misc[64..]
  {
    assert WriteMisc(BOOT_CODEC, misc, d, false)[..64] == DiskImage(d);
    RoundTrip(d);
  }

  // ----- One call -----

  /** `chosen` is the slot whose suffix the caller gets; it stays empty unless the result is OK. */
  datatype Outcome = Outcome(result: AbResult, chosen: Option<Which>, misc: seq<bv8>)

  function FlowOn(c: Codec, misc: seq<bv8>, d: AbData, faults: Faults): Outcome {
    var n := NormalizedSlots(d.slots);
    match Choice(n)
    case None =>
      if n != d.slots && !CanWrite(misc, faults.write) then Outcome(ErrorWriteMetadata, None, misc)
      else Outcome(ErrorNoValidSlots, None,
                   if n != d.slots then WriteMisc(c, misc, d.(slots := n), faults.write) else misc)
    case Some(w) =>
      if n == d.slots && SlotOf(n, w).triesRemaining == 0 then Outcome(ResultOk, Some(w), misc)
      else if !CanWrite(misc, faults.write) then Outcome(ErrorWriteMetadata, None, misc)
      else Outcome(ResultOk, Some(w), WriteMisc(c, misc, d.(slots := Spent(n, w)), faults.write))
  }

  function Flow(c: Codec, misc: seq<bv8>, faults: Faults): Outcome {
    match ReadMisc(c, misc, faults.read)
    case Unreadable => Outcome(ErrorReadMetadata, None, misc)
    case Invalid => Outcome(ErrorInvalidMetadata, None, WriteMisc(c, misc, ResetData(), faults.write))
    case Record(d) => FlowOn(c, misc, d, faults)
  }

  lemma RejectedIsReported(c: Codec, misc: seq<bv8>, f: Faults)
    requires |misc| >= 64 && !f.read && c.accept(misc[..64]) == None
    ensures ReadMisc(c, misc, f.read) == Invalid && Flow(c, misc, f).result == ErrorInvalidMetadata
  {}

  /** A written record that has since suffered a nonempty burst of up to 32 bits before its CRC, or any
      change of its CRC, is reported as invalid metadata by every call that can read it. */
  lemma CorruptionReported(misc: seq<bv8>, d: AbData, start: nat, f: Faults)
    requires |misc| >= 64 && !f.read && Corrupts(DiskImage(d), misc[..64], start)
    ensures ReadMisc(BOOT_CODEC, misc, f.read) == Invalid
    ensures Flow(BOOT_CODEC, misc, f).result == ErrorInvalidMetadata
  {
    CorruptionRejected(d, misc[..64], start);
    RejectedIsReported(BOOT_CODEC, misc, f);
  }

  /** How marking a slot invalid ends.  The source returns 1 for Marked, 0 for NotWritten and for
      UnknownSuffix, and the nonzero read error otherwise. */
  datatype MarkResult = Marked | NotWritten | UnknownSuffix | NotRead(error: AbResult)

  function AbResultCode(r: AbResult): int {
    match r
    case ResultOk => 0
    case ErrorInvalidMetadata => 2
    case ErrorNoValidSlots => 3
    case ErrorReadMetadata => 4
    case ErrorWriteMetadata => 5
  }

  function MarkCode(r: MarkResult): int {
    match r
    case Marked => 1
    case NotWritten => 0
    case UnknownSuffix => 0
    case NotRead(error) => AbResultCode(error)
  }

  function MarkOn(c: Codec, misc: seq<bv8>, d: AbData, suffix: Option<Which>, faults: Faults): (MarkResult, seq<bv8>) {
    match suffix
    case None => (UnknownSuffix, misc)
    case Some(w) =>
      (if CanWrite(misc, faults.write) then Marked else NotWritten,
       WriteMisc(c, misc, d.(slots := WithSlot(d.slots, w, ZERO_SLOT)), faults.write))
  }

  function Mark(c: Codec, misc: seq<bv8>, suffix: Option<Which>, faults: Faults): (r: (MarkResult, seq<bv8>)) {
    match ReadMisc(c, misc, faults.read)
    case Unreadable => (NotRead(ErrorReadMetadata), misc)
    case Invalid => (NotRead(ErrorInvalidMetadata), misc)
    case Record(d) => MarkOn(c, misc, d, suffix, faults)
  }
}
