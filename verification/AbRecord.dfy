/**
 The A/B metadata record: 64 bytes at the start of the misc partition, as the little-endian host
 lays out the packed structs, with the CRC field in big-endian order.
 */
module AbRecord {
  import opened Common
  import opened LinearRegister
  import opened Crc32
  import opened Crc32Bursts

  type Priority = x: nat | x < 16
  type Tries = x: nat | x < 8
  type Bytes2 = s: seq<bv8> | |s| == 2 witness [0, 0]
  type Bytes4 = s: seq<bv8> | |s| == 4 witness [0, 0, 0, 0]
  type Bytes7 = s: seq<bv8> | |s| == 7 witness [0, 0, 0, 0, 0, 0, 0]
  type Bytes36 = s: seq<bv8> | |s| == 36 witness seq(36, _ => 0)
  type Image = s: seq<bv8> | |s| == 64 witness seq(64, _ => 0)

  datatype Slot = Slot(priority: Priority, triesRemaining: Tries, successfulBoot: bool, reserved: Bytes7)

  /** The two slots, A first. */
  datatype Slots = Slots(a: Slot, b: Slot)

  datatype AbData = AbData(magic: Bytes4, majorVersion: bv8, minorVersion: bv8, reserved1: Bytes2,
                           slots: Slots, reserved2: Bytes36, crc32: bv32)

  /** "BUEF" */
  const MAGIC: Bytes4 := [0x42, 0x55, 0x45, 0x46]

  // ----- Byte order -----

  function FromLittleEndian(s: Bytes4): bv32 {
    (s[0] as bv32) | ((s[1] as bv32) << 8) | ((s[2] as bv32) << 16) | ((s[3] as bv32) << 24)
  }

  /** The value read, on a little-endian host, from the big-endian bytes of `v`. */
  function Be32ToHost(v: bv32): bv32 {
    FromLittleEndian([(v >> 24) as bv8, ((v >> 16) & 0xFF) as bv8, ((v >> 8) & 0xFF) as bv8, (v & 0xFF) as bv8])
  }

  lemma Be32Involution(v: bv32)
    ensures Be32ToHost(Be32ToHost(v)) == v
  {}

  lemma LittleEndianInverse(v: bv32)
    ensures FromLittleEndian(LittleEndian(v)) == v
  {}

  lemma LittleEndianOnto(s: Bytes4)
    ensures LittleEndian(FromLittleEndian(s)) == s
  {}

  // ----- The packed flag byte: 4 bits, 3 bits and 1 bit from the low end -----

  function FlagsValue(s: Slot): (n: nat)
    ensures n < 256
  {
    s.priority + 16 * s.triesRemaining + if s.successfulBoot then 128 else 0
  }

  function Flags(s: Slot): bv8 { FlagsValue(s) as bv8 }

  function SlotFromFlags(n: nat, reserved: Bytes7): Slot
    requires n < 256
  {
    Slot(n % 16, n / 16 % 8, n / 128 == 1, reserved)
  }

  function UnpackSlot(b: bv8, reserved: Bytes7): Slot { SlotFromFlags(b as int, reserved) }

  lemma Incremented(b: bv8)
    requires b != 0xFF
    ensures (b + 1) as int == b as int + 1
  {}

  lemma OfItsValue(b: bv8)
    ensures (b as int) as bv8 == b
  {}

  lemma {:induction false} ByteOf(n: nat) returns (b: bv8)
    requires n < 256
    ensures b as int == n
  {
    if n == 0 {
      b := 0;
    } else {
      var before := ByteOf(n - 1);
      Incremented(before);
      b := before + 1;
    }
  }

  lemma ByteValue(n: nat)
    requires n < 256
    ensures (n as bv8) as int == n
  {
    var b := ByteOf(n);
    OfItsValue(b);
  }

  lemma FlagsOfSlot(s: Slot)
    ensures SlotFromFlags(FlagsValue(s), s.reserved) == s
  {}

  lemma SlotOfFlags(n: nat, reserved: Bytes7)
    requires n < 256
    ensures FlagsValue(SlotFromFlags(n, reserved)) == n
  {
    assert n / 16 < 16 && n == 16 * (n / 16) + n % 16;
    assert n / 128 == n / 16 / 8;
  }

  lemma UnpackPacked(s: Slot)
    ensures UnpackSlot(Flags(s), s.reserved) == s
  {
    ByteValue(FlagsValue(s));
    FlagsOfSlot(s);
  }

  lemma PackUnpacked(b: bv8, reserved: Bytes7)
    ensures Flags(UnpackSlot(b, reserved)) == b
  {
    SlotOfFlags(b as int, reserved);
  }

  // ----- The record as bytes -----

  function SlotBytes(s: Slot): seq<bv8> { [Flags(s)] + s.reserved }

  /** The 60 bytes before the CRC field. */
  function Body(d: AbData): (s: seq<bv8>)
    ensures |s| == 60
  {
    d.magic + [d.majorVersion, d.minorVersion] + d.reserved1 + SlotBytes(d.slots.a) + SlotBytes(d.slots.b) + d.reserved2
  }

  /** The struct as it lies in memory. */
  function Bytes(d: AbData): Image { Body(d) + LittleEndian(d.crc32) }

  function FromBytes(s: Image): AbData {
    AbData(s[0..4], s[4], s[5], s[6..8], Slots(UnpackSlot(s[8], s[9..16]), UnpackSlot(s[16], s[17..24])),
           s[24..60], FromLittleEndian(s[60..64]))
  }

  lemma FromBytesInverse(d: AbData)
    ensures FromBytes(Bytes(d)) == d
  {
    var s := Bytes(d);
    UnpackPacked(d.slots.a);
    UnpackPacked(d.slots.b);
    LittleEndianInverse(d.crc32);
    assert s[0..4] == d.magic && s[6..8] == d.reserved1 && s[9..16] == d.slots.a.reserved && s[17..24] == d.slots.b.reserved;
    assert s[24..60] == d.reserved2 && s[60..64] == LittleEndian(d.crc32);
  }

  lemma FromBytesOnto(s: Image)
    ensures Bytes(FromBytes(s)) == s
  {
    PackUnpacked(s[8], s[9..16]);
    PackUnpacked(s[16], s[17..24]);
    LittleEndianOnto(s[60..64]);
    assert s == s[0..4] + [s[4], s[5]] + s[6..8] + ([s[8]] + s[9..16]) + ([s[16]] + s[17..24]) + s[24..60] + s[60..64];
  }

  // ----- Writing and accepting a record -----

  /** The CRC the source computes: over all 64 bytes, the CRC field taken as zero. */
  function Checksum(d: AbData): bv32 { Crc(0, Bytes(d.(crc32 := 0))) }

  /** The bytes the source puts on disk for `d`, whose own CRC field is ignored. */
  function DiskImage(d: AbData): Image { Bytes(d.(crc32 := Be32ToHost(Checksum(d)))) }

  /** The record the source makes of 64 bytes read, None when it calls them invalid. */
  function Accept(s: Image): Option<AbData> {
    var d := FromBytes(s);
    var crc := Be32ToHost(d.crc32);
    if d.magic != MAGIC || crc != Checksum(d) then None else Some(d.(crc32 := crc))
  }

  /** What is written is accepted, and comes back as it was with the CRC filled in. */
  lemma RoundTrip(d: AbData)
    requires d.magic == MAGIC
    ensures Accept(DiskImage(d)) == Some(d.(crc32 := Checksum(d)))
  {
    var d' := d.(crc32 := Be32ToHost(Checksum(d)));
    FromBytesInverse(d');
    Be32Involution(Checksum(d));
    assert d'.(crc32 := 0) == d.(crc32 := 0);
  }

  /** Accepted bytes are exactly those written for the accepted record. */
  lemma AcceptedIsWritten(s: Image)
    requires Accept(s).Some?
    ensures DiskImage(Accept(s).value) == s && Accept(s).value.magic == MAGIC
    ensures Accept(s).value.crc32 == Checksum(Accept(s).value)
  {
    var d := FromBytes(s);
    var r := Accept(s).value;
    FromBytesOnto(s);
    Be32Involution(d.crc32);
    assert r.(crc32 := 0) == d.(crc32 := 0);
    assert r.(crc32 := d.crc32) == d;
  }

  // ----- Corruption -----

  lemma BodyOfImage(s: Image)
    ensures Body(FromBytes(s)) == s[..60] && Bytes(FromBytes(s).(crc32 := 0)) == s[..60] + [0, 0, 0, 0]
  {
    FromBytesOnto(s);
    var d := FromBytes(s);
    assert Bytes(d)[..60] == Body(d);
    assert LittleEndian(0) == [0, 0, 0, 0];
    assert Body(d.(crc32 := 0)) == Body(d);
  }

  /** Bytes are rejected when their stored CRC is not that of their first 60 bytes. */
  lemma AcceptNeedsCrc(s: Image)
    requires Accept(s).Some?
    ensures s[60..64] == LittleEndian(Be32ToHost(Crc(0, s[..60] + [0, 0, 0, 0])))
  {
    BodyOfImage(s);
    Be32Involution(FromBytes(s).crc32);
    LittleEndianOnto(s[60..64]);
  }

  lemma StoredCrcInjective(x: bv32, y: bv32)
    requires LittleEndian(Be32ToHost(x)) == LittleEndian(Be32ToHost(y))
    ensures x == y
  {
    LittleEndianInverse(Be32ToHost(x));
    LittleEndianInverse(Be32ToHost(y));
    Be32Involution(x);
    Be32Involution(y);
  }

  lemma DifferWithinAppend(a: seq<bv8>, b: seq<bv8>, c: seq<bv8>, start: nat, width: nat)
    requires |a| == |b| && DifferWithin(a, b, start, width)
    ensures DifferWithin(a + c, b + c, start, width)
  {
    BitsConcat(a, c);
    BitsConcat(b, c);
  }

  lemma WrittenCrc(d: AbData)
    ensures var w := DiskImage(d);
            w[60..64] == LittleEndian(Be32ToHost(Crc(0, w[..60] + [0, 0, 0, 0])))
  {
    var d' := d.(crc32 := Be32ToHost(Checksum(d)));
    FromBytesInverse(d');
    BodyOfImage(DiskImage(d));
    assert d'.(crc32 := 0) == d.(crc32 := 0);
    assert Bytes(d')[60..64] == LittleEndian(d'.crc32);
  }

  /** A change of the first 60 bytes that fits in 32 consecutive bits is rejected. */
  lemma BurstRejected(d: AbData, s: Image, start: nat)
    requires s[60..] == DiskImage(d)[60..] && s[..60] != DiskImage(d)[..60]
    requires DifferWithin(DiskImage(d)[..60], s[..60], start, 32)
    ensures Accept(s) == None
  {
    var w := DiskImage(d);
    var zeros: seq<bv8> := [0, 0, 0, 0];
    WrittenCrc(d);
    assert (w[..60] + zeros)[..60] == w[..60] && (s[..60] + zeros)[..60] == s[..60];
    DifferWithinAppend(w[..60], s[..60], zeros, start, 32);
    BurstDetected(0, w[..60] + zeros, s[..60] + zeros, start);
    if Accept(s).Some? {
      AcceptNeedsCrc(s);
      StoredCrcInjective(Crc(0, w[..60] + zeros), Crc(0, s[..60] + zeros));
    }
  }

  /** Any change of the four CRC bytes alone is rejected. */
  lemma CrcChangeRejected(d: AbData, s: Image)
    requires s[..60] == DiskImage(d)[..60] && s[60..] != DiskImage(d)[60..]
    ensures Accept(s) == None
  {
    WrittenCrc(d);
    if Accept(s).Some? {
      AcceptNeedsCrc(s);
    }
  }

  // ----- The layout, byte by byte -----

  /** The bytes of a word, highest first. */
  lemma StoredHighFirst(v: bv32)
    ensures LittleEndian(Be32ToHost(v))
         == [(v >> 24) as bv8, ((v >> 16) & 0xFF) as bv8, ((v >> 8) & 0xFF) as bv8, (v & 0xFF) as bv8]
  {
    LittleEndianOnto([(v >> 24) as bv8, ((v >> 16) & 0xFF) as bv8, ((v >> 8) & 0xFF) as bv8, (v & 0xFF) as bv8]);
  }

  /** A flag byte holds the priority in its low four bits, the tries above them and success on top. */
  lemma FlagsNumber(s: Slot)
    ensures Flags(s) as int == s.priority + 16 * s.triesRemaining + if s.successfulBoot then 128 else 0
  {
    ByteValue(FlagsValue(s));
  }

  ghost predicate SlotAt(image: Image, at: nat, s: Slot)
    requires at + 8 <= 64
  {
    && image[at] as int == s.priority + 16 * s.triesRemaining + (if s.successfulBoot then 128 else 0)
    && image[at + 1..at + 8] == s.reserved
  }

  /** Where everything of a record but its CRC lies in 64 bytes. */
  ghost predicate LaidOut(image: Image, d: AbData) {
    && image[0..4] == d.magic && image[4] == d.majorVersion && image[5] == d.minorVersion
    && image[6..8] == d.reserved1 && SlotAt(image, 8, d.slots.a) && SlotAt(image, 16, d.slots.b)
    && image[24..60] == d.reserved2
  }

  /** `c`, highest byte first, in the last four bytes. */
  ghost predicate CrcAtEnd(image: Image, c: bv32) {
    image[60..64] == [(c >> 24) as bv8, ((c >> 16) & 0xFF) as bv8, ((c >> 8) & 0xFF) as bv8, (c & 0xFF) as bv8]
  }

  lemma BytesLaidOut(d: AbData)
    ensures LaidOut(Bytes(d), d)
  {
    FlagsNumber(d.slots.a);
    FlagsNumber(d.slots.b);
    var s := Bytes(d);
    assert s[9..16] == d.slots.a.reserved;
    assert s[17..24] == d.slots.b.reserved;
  }

  /** The bytes written for a record: its fields at their places, and last the CRC of those 60 bytes and
      four zero bytes, highest byte first. */
  lemma DiskLayout(d: AbData)
    ensures var s := DiskImage(d); LaidOut(s, d) && CrcAtEnd(s, Crc(0, s[..60] + [0, 0, 0, 0]))
  {
    BytesLaidOut(d.(crc32 := Be32ToHost(Checksum(d))));
    WrittenCrc(d);
    StoredHighFirst(Crc(0, DiskImage(d)[..60] + [0, 0, 0, 0]));
  }

  lemma CrcOfBytes(s: Image, end: Bytes4)
    requires s[60..64] == end
    ensures FromBytes(s).crc32 == FromLittleEndian(end)
  {}

  lemma CrcReadsBack(s: Image, c: bv32)
    requires CrcAtEnd(s, c)
    ensures Be32ToHost(FromBytes(s).crc32) == c
  {
    StoredHighFirst(c);
    LittleEndianInverse(Be32ToHost(c));
    Be32Involution(c);
    CrcOfBytes(s, LittleEndian(Be32ToHost(c)));
  }

  lemma EnoughToAccept(s: Image)
    requires s[0..4] == [0x42, 0x55, 0x45, 0x46] && CrcAtEnd(s, Crc(0, s[..60] + [0, 0, 0, 0]))
    ensures Accept(s).Some?
  {
    BodyOfImage(s);
    CrcReadsBack(s, Crc(0, s[..60] + [0, 0, 0, 0]));
  }

  /** 64 bytes are accepted exactly when they start with "BUEF" and end with the CRC of the 60 bytes before
      and four zero bytes, highest byte first; the record they make has its fields at their places. */
  lemma AcceptIff(s: Image)
    ensures Accept(s).Some? <==> s[0..4] == [0x42, 0x55, 0x45, 0x46] && CrcAtEnd(s, Crc(0, s[..60] + [0, 0, 0, 0]))
    ensures Accept(s).Some? ==> LaidOut(s, Accept(s).value)
  {
    if Accept(s).Some? {
      AcceptedIsWritten(s);
      DiskLayout(Accept(s).value);
    } else if s[0..4] == [0x42, 0x55, 0x45, 0x46] && CrcAtEnd(s, Crc(0, s[..60] + [0, 0, 0, 0])) {
      EnoughToAccept(s);
    }
  }

  // ----- Corruption as the callers see it -----

  /** The corruptions the CRC is there for: a nonempty burst of up to 32 bits before the CRC field, or any
      change of that field alone. */
  ghost predicate Corrupts(w: Image, s: Image, start: nat) {
    || (s[60..] == w[60..] && s[..60] != w[..60] && DifferWithin(w[..60], s[..60], start, 32))
    || (s[..60] == w[..60] && s[60..] != w[60..])
  }

  lemma CorruptionRejected(d: AbData, s: Image, start: nat)
    requires Corrupts(DiskImage(d), s, start)
    ensures Accept(s) == None
  {
    if s[60..] == DiskImage(d)[60..] { BurstRejected(d, s, start); } else { CrcChangeRejected(d, s); }
  }
}
