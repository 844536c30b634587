/**
 The host tool that makes the first misc image: a second producer of A/B records.  It starts from
 the tokens of its command line, each parsed as an integer or not.
 */
module MiscImage {
  import opened Common
  import opened Crc32
  import opened AbRecord
  import opened AbFlow
  import opened AbRuns
  import opened AbControl

  /** The largest value of each of the three attributes of a slot, in token order. */
  const LIMITS: seq<int> := [15, 7, 1]

  predicate InRange(t: Option<int>, limit: int) { t.Some? && 0 <= t.value <= limit }

  /** The first `n` tokens are there and in range; attributes of slot A come first. */
  predicate Usable(tokens: seq<Option<int>>, n: nat) {
    n <= |tokens| && forall k | 0 <= k < n :: InRange(tokens[k], LIMITS[k % 3])
  }

  /** The tokens that ask for the attributes of a slot. */
  function Tokens(s: Slot): seq<Option<int>> {
    [Some(s.priority), Some(s.triesRemaining), Some(if s.successfulBoot then 1 else 0)]
  }

  ghost predicate SlotIs(slot: Slot, tokens: seq<Option<int>>, at: nat) {
    at + 3 <= |tokens| && tokens[at..at + 3] == Tokens(slot)
  }

  /** One slot's three attributes, taken in turn. */
  method SetSlot(tokens: seq<Option<int>>, at: nat, slot: SlotData) returns (ok: bool)
    requires Usable(tokens, at) && at % 3 == 0
    modifies slot
    ensures ok == Usable(tokens, at + 3) && (!ok ==> forall n | n >= at + 3 :: !Usable(tokens, n))
    ensures slot.reserved == old(slot.reserved)
    ensures ok ==> SlotIs(slot.View(), tokens, at)
  {
    if at >= |tokens| || !InRange(tokens[at], 15) {
      return false;
    }
    slot.priority := tokens[at].value;
    if at + 1 >= |tokens| || !InRange(tokens[at + 1], 7) {
      return false;
    }
    slot.triesRemaining := tokens[at + 1].value;
    if at + 2 >= |tokens| || !InRange(tokens[at + 2], 1) {
      return false;
    }
    slot.successfulBoot := tokens[at + 2].value == 1;
    return true;
  }

  /** Fills the two slots from the tokens; extra tokens are ignored, whatever the error message says. */
  method SetSlotsFromTokens(tokens: seq<Option<int>>, metadata: seq<SlotData>) returns (ok: bool)
    requires |metadata| == 2 && metadata[0] != metadata[1]
    modifies metadata[0], metadata[1]
    ensures ok == Usable(tokens, 6)
    ensures metadata[0].reserved == old(metadata[0].reserved) && metadata[1].reserved == old(metadata[1].reserved)
    ensures ok ==> SlotIs(metadata[0].View(), tokens, 0) && SlotIs(metadata[1].View(), tokens, 3)
    ensures ok ==> (metadata[0].successfulBoot <==> tokens[2] == Some(1)) && (metadata[1].successfulBoot <==> tokens[5] == Some(1))
    ensures ok ==> tokens[0] == Some(metadata[0].priority) && tokens[3] == Some(metadata[1].priority)
    ensures ok ==> tokens[1] == Some(metadata[0].triesRemaining) && tokens[4] == Some(metadata[1].triesRemaining)
  {
    var i := 0;
    while i < 2
      invariant 0 <= i <= 2 && Usable(tokens, 3 * i)
      invariant metadata[0].reserved == old(metadata[0].reserved) && metadata[1].reserved == old(metadata[1].reserved)
      invariant i >= 1 ==> SlotIs(metadata[0].View(), tokens, 0)
      invariant i >= 2 ==> SlotIs(metadata[1].View(), tokens, 3)
    {
      ok := SetSlot(tokens, 3 * i, metadata[i]);
      if !ok {
        return false;
      }
      i := i + 1;
    }
    assert forall k | 0 <= k < 3 :: tokens[k] == tokens[0..3][k] && tokens[3 + k] == tokens[3..6][k];
    return true;
  }

  ghost function SlotAsked(tokens: seq<Option<int>>, at: nat): (s: Slot)
    requires Usable(tokens, at + 3) && at % 3 == 0
    ensures SlotIs(s, tokens, at)
  {
    assert InRange(tokens[at], LIMITS[at % 3]) && InRange(tokens[at + 1], LIMITS[(at + 1) % 3])
           && InRange(tokens[at + 2], LIMITS[(at + 2) % 3]);
    Slot(tokens[at].value, tokens[at + 1].value, tokens[at + 2].value == 1, ZERO7)
  }

  lemma AskedInRange(s: Slot, tokens: seq<Option<int>>, at: nat)
    requires SlotIs(s, tokens, at)
    ensures InRange(tokens[at], 15) && InRange(tokens[at + 1], 7) && InRange(tokens[at + 2], 1)
  {
    var asked := tokens[at..at + 3];
    assert asked[0] == tokens[at] && asked[1] == tokens[at + 1] && asked[2] == tokens[at + 2];
  }

  /** Six tokens are usable exactly when they ask for some attributes of two slots. */
  lemma UsableIff(tokens: seq<Option<int>>)
    ensures Usable(tokens, 6) <==> exists a, b :: SlotIs(a, tokens, 0) && SlotIs(b, tokens, 3)
  {
    if Usable(tokens, 6) {
      var a, b := SlotAsked(tokens, 0), SlotAsked(tokens, 3);
      assert SlotIs(a, tokens, 0) && SlotIs(b, tokens, 3);
    }
    if a, b :| SlotIs(a, tokens, 0) && SlotIs(b, tokens, 3) {
      AskedInRange(a, tokens, 0);
      AskedInRange(b, tokens, 3);
    }
  }

  /** The slot with the three attributes of `s` and nothing reserved. */
  function Attributes(s: Slot): Slot { s.(reserved := ZERO7) }

  function Generated(magic: Bytes4, s: Slots): AbData {
    AbData(magic, 1, 0, [0, 0], Slots(Attributes(s.a), Attributes(s.b)), ZERO36, 0)
  }

  method WriteAbMetadata(ab: AbDataStruct, magic: Bytes4, aPriority: Priority, aTries: Tries, aSuccessful: bool,
      bPriority: Priority, bTries: Tries, bSuccessful: bool)
    requires ab.Valid()
    modifies ab, ab.slotA, ab.slotB
    ensures ab.View() == Generated(magic, Slots(Slot(aPriority, aTries, aSuccessful, ZERO7),
                                                Slot(bPriority, bTries, bSuccessful, ZERO7)))
  {
    ab.slotA.Clear();
    ab.slotB.Clear();
    ab.reserved1, ab.reserved2, ab.crc32 := [0, 0], ZERO36, 0;
    ab.magic, ab.majorVersion, ab.minorVersion := magic, 1, 0;
    ab.slotA.priority, ab.slotA.triesRemaining, ab.slotA.successfulBoot := aPriority, aTries, aSuccessful;
    ab.slotB.priority, ab.slotB.triesRemaining, ab.slotB.successfulBoot := bPriority, bTries, bSuccessful;
  }

  method CopyBytes(imageData: Image) returns (image: array<bv8>)
    ensures fresh(image) && image[..] == imageData
  {
    image := new bv8[64](_ => 0);
    var n := 0;
    while n < 64
      invariant 0 <= n <= 64
      invariant image[..n] == imageData[..n]
    {
      image[n] := imageData[n];
      n := n + 1;
    }
  }

  /** The image file: the struct with its CRC filled in, copied byte by byte. */
  method MakeMetadataImage(ab: AbDataStruct) returns (image: array<bv8>)
    requires ab.Valid()
    ensures fresh(image) && image[..] == DiskImage(ab.View())
  {
    var zeroed := ab.Image(0);
    var crc := BubCrc32(0, zeroed);
    var imageData := ab.Image(Be32ToHost(crc));
    image := CopyBytes(imageData);
  }

  method MakeMiscImage(metadata: seq<SlotData>) returns (image: array<bv8>)
    requires |metadata| == 2
    ensures fresh(image) && image[..] == DiskImage(Generated(MAGIC, Slots(metadata[0].View(), metadata[1].View())))
  {
    var miscData := new AbDataStruct();
    WriteAbMetadata(miscData, MAGIC, metadata[0].priority, metadata[0].triesRemaining, metadata[0].successfulBoot,
                    metadata[1].priority, metadata[1].triesRemaining, metadata[1].successfulBoot);
    image := MakeMetadataImage(miscData);
  }

  /** A misc partition that starts with a generated image holds a valid record to the boot loader, with
      the attributes asked for; so its first boot never resets it. */
  lemma GeneratedImageHeld(s: Slots, rest: seq<bv8>)
    ensures var misc := DiskImage(Generated(MAGIC, s)) + rest;
            && Holds(BOOT_CODEC, misc) && Held(BOOT_CODEC, misc) == Slots(Attributes(s.a), Attributes(s.b))
            && forall f :: Flow(BOOT_CODEC, misc, f).result != ErrorInvalidMetadata
  {
    var d := Generated(MAGIC, s);
    var misc := DiskImage(d) + rest;
    assert misc[..64] == DiskImage(d);
    RoundTrip(d);
    BootCodecLawful();
    forall f ensures Flow(BOOT_CODEC, misc, f).result != ErrorInvalidMetadata {
      StepKeepsRecord(BOOT_CODEC, misc, f);
    }
  }

  /** The bytes of a generated image, at their places: "BUEF", version 1.0, one flag byte for each slot,
      and zeros up to the CRC. */
  lemma GeneratedBytes(s: Slots)
    ensures var image := DiskImage(Generated(MAGIC, s));
            && image[0..8] == [0x42, 0x55, 0x45, 0x46, 1, 0, 0, 0]
            && SlotAt(image, 8, s.a.(reserved := [0, 0, 0, 0, 0, 0, 0]))
            && SlotAt(image, 16, s.b.(reserved := [0, 0, 0, 0, 0, 0, 0]))
            && (forall k | 24 <= k < 60 :: image[k] == 0)
            && CrcAtEnd(image, Crc(0, image[..60] + [0, 0, 0, 0]))
  {
    DiskLayout(Generated(MAGIC, s));
    var image := DiskImage(Generated(MAGIC, s));
    assert image[0..8] == image[0..4] + [image[4], image[5]] + image[6..8];
    forall k | 24 <= k < 60 ensures image[k] == 0 { assert image[k] == image[24..60][k - 24]; }
  }
}
