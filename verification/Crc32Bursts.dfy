/**
 What the boot loader's CRC-32 detects: every difference of two buffers that fits in 32
 consecutive bits.  The proof takes the register bit by bit and uses that its step is linear
 and one-to-one.
 */
module Crc32Bursts {
  import opened Common
  import opened LinearRegister
  import opened Crc32

  // ----- Byte by byte is bit by bit -----

  /** The bits of a byte, least significant first. */
  function ByteBits(b: bv8): (bits: seq<bool>)
    ensures |bits| == 8
  {
    LowBits(Low, Half, b as bv32, 8)
  }

  /** The bits of a buffer in the order a serial line sends them. */
  function Bits(buf: seq<bv8>): (bits: seq<bool>)
    ensures |bits| == 8 * |buf|
    decreases |buf|
  {
    if buf == [] then [] else ByteBits(buf[0]) + Bits(buf[1..])
  }

  /** The register after single bits. */
  function Serial(crc: bv32, bits: seq<bool>): bv32 { Feed(Step, Xor, Bit, crc, bits) }

  lemma LowAndRest(b: bv32)
    ensures Xor(Bit(Low(b)), Rest(b)) == b
  {
    if Low(b) {} else {}
  }

  lemma StepOfRest(b: bv32)
    ensures Step(Rest(b)) == Half(b)
  {
    assert (b & 0xFFFFFFFE) & 1 == 0;
  }

  lemma StepSplits(b: bv32)
    ensures Splits(Step, Xor, Bit, Low, Rest, Half, b)
  {
    LowAndRest(b);
    StepOfRest(b);
    if Low(b) {} else {}
  }

  lemma StepPeels()
    ensures forall x, b :: Peels(Step, Xor, Bit, Low, Half, x, b)
  {
    StepIsLinear();
    forall a, b, c ensures Regroups(Xor, a, b, c) { XorRegroups(a, b, c); }
    forall b ensures Splits(Step, Xor, Bit, Low, Rest, Half, b) { StepSplits(b); }
    LinearPeels(Step, Xor, Bit, Low, Rest, Half);
  }

  lemma EightHalves(b: bv8)
    ensures Iterate(Half, b as bv32, 8) == 0
  {}

  lemma ByteIsEightBits(crc: bv32, b: bv8)
    ensures EightSteps(crc ^ (b as bv32)) == Serial(crc, ByteBits(b))
  {
    StepPeels();
    StepsFeed(Step, Xor, Bit, Low, Half, crc, b as bv32, 8);
    EightHalves(b);
  }

  lemma {:induction false} RegisterIsSerial(crc: bv32, buf: seq<bv8>)
    ensures Register(EightSteps, crc, buf) == Serial(crc, Bits(buf))
    decreases |buf|
  {
    if buf != [] {
      var crc' := EightSteps(crc ^ (buf[0] as bv32));
      ByteIsEightBits(crc, buf[0]);
      FeedConcat(Step, Xor, Bit, crc, ByteBits(buf[0]), Bits(buf[1..]));
      RegisterIsSerial(crc', buf[1..]);
    }
  }

  lemma StepInjective(x: bv32, y: bv32)
    ensures Separates(Step, x, y)
  {}

  lemma XorZero(x: bv32)
    ensures Keeps(Xor, Bit(false), x)
  {}

  lemma StepKeepsZero()
    ensures KeepsZero(Step, Xor, Bit)
  {
    forall x ensures Keeps(Xor, Bit(false), x) { XorZero(x); }
    forall x, y ensures Separates(Step, x, y) { StepInjective(x, y); }
  }

  // ----- Up to 32 bits entering a zero register leave their mark -----

  function Push(x: bv32, b: bool): bv32 { if b then (x << 1) | 1 else x << 1 }

  /** The word whose bits are `bits`, first bit lowest. */
  function Pack(bits: seq<bool>): bv32
    decreases |bits|
  {
    if bits == [] then 0 else Push(Pack(bits[1..]), bits[0])
  }

  /** The word with its `n` low bits set. */
  function Mask(n: nat): bv32 {
    if n == 0 then 0 else Push(Mask(n - 1), true)
  }

  ghost predicate Under(x: bv32, mask: bv32) { x & mask == x }

  lemma PushUnder(x: bv32, mask: bv32, b: bool)
    ensures Under(x, mask) ==> Under(Push(x, b), Push(mask, true))
  {
    if b {} else {}
  }

  lemma {:induction false} PackUnder(bits: seq<bool>)
    ensures Under(Pack(bits), Mask(|bits|))
    decreases |bits|
  {
    if bits != [] {
      PackUnder(bits[1..]);
      PushUnder(Pack(bits[1..]), Mask(|bits| - 1), bits[0]);
      if bits[0] {} else {}
    }
  }

  lemma {:induction false} MaskGrows(n: nat)
    ensures Under(Mask(n), Mask(n + 1))
  {
    if n > 0 {
      MaskGrows(n - 1);
      PushUnder(Mask(n - 1), Mask(n), true);
    }
  }

  lemma MaskOf31()
    ensures Mask(31) == 0x7FFFFFFF
  {
    assert Mask(4) == 0xF;
    assert Mask(8) == 0xFF;
    assert Mask(12) == 0xFFF;
    assert Mask(16) == 0xFFFF;
    assert Mask(20) == 0xFFFFF;
    assert Mask(24) == 0xFFFFFF;
    assert Mask(28) == 0xFFFFFFF;
  }

  lemma UnderTrans(x: bv32, y: bv32, z: bv32)
    ensures Under(x, y) && Under(y, z) ==> Under(x, z)
  {}

  lemma {:induction false} Below31(x: bv32, n: nat)
    requires n <= 31 && Under(x, Mask(n))
    ensures Under(x, 0x7FFFFFFF)
    decreases 31 - n
  {
    if n == 31 {
      MaskOf31();
    } else {
      MaskGrows(n);
      UnderTrans(x, Mask(n), Mask(n + 1));
      Below31(x, n + 1);
    }
  }

  /** A step undone: the word before is the word after shifted back, when nothing falls off the top. */
  lemma StepBack(x: bv32, b: bool, after: bv32)
    requires Under(after, 0x7FFFFFFF)
    ensures Step(Xor(x, Bit(b))) == after ==> x == Push(after, b)
  {}

  /** Only one word is cancelled by `bits`: the word they spell. */
  lemma {:induction false} OnlyPackCancels(x: bv32, bits: seq<bool>)
    requires |bits| <= 32 && Serial(x, bits) == 0
    ensures x == Pack(bits)
    decreases |bits|
  {
    if bits != [] {
      var after := Pack(bits[1..]);
      assert Step(Xor(x, Bit(bits[0]))) == after by {
        OnlyPackCancels(Step(Xor(x, Bit(bits[0]))), bits[1..]);
      }
      assert Under(after, 0x7FFFFFFF) by {
        PackUnder(bits[1..]);
        Below31(after, |bits| - 1);
      }
      StepBack(x, bits[0], after);
    }
  }

  lemma PushZero(x: bv32, b: bool)
    requires Under(x, 0x7FFFFFFF)
    ensures Push(x, b) == 0 ==> x == 0 && !b
  {}

  lemma {:induction false} PackZero(bits: seq<bool>)
    requires |bits| <= 32 && Pack(bits) == 0
    ensures forall k | 0 <= k < |bits| :: !bits[k]
    decreases |bits|
  {
    if bits != [] {
      PackUnder(bits[1..]);
      Below31(Pack(bits[1..]), |bits| - 1);
      PushZero(Pack(bits[1..]), bits[0]);
      PackZero(bits[1..]);
      assert bits == [bits[0]] + bits[1..];
    }
  }

  /** Bits set only within 32 consecutive places take a zero register to a nonzero one. */
  lemma BurstShows(d: seq<bool>, start: nat)
    requires exists k :: 0 <= k < |d| && d[k]
    requires forall k | 0 <= k < |d| && d[k] :: start <= k < start + 32
    ensures Serial(0, d) != 0
  {
    var k :| 0 <= k < |d| && d[k];
    var end := if start + 32 <= |d| then start + 32 else |d|;
    var w := d[start..end];
    assert w[k - start];
    assert d == Zeros(start) + (w + Zeros(|d| - end));
    if Serial(0, w) == 0 {
      OnlyPackCancels(0, w);
      PackZero(w);
    }
    StepKeepsZero();
    FeedPadded(Step, Xor, Bit, start, w, |d| - end);
  }

  // ----- The theorem -----

  /** Every bit where `a` and `b` differ is one of the `width` bits from `start`. */
  ghost predicate DifferWithin(a: seq<bv8>, b: seq<bv8>, start: nat, width: nat)
    requires |a| == |b|
  {
    forall k | 0 <= k < 8 * |a| && Bits(a)[k] != Bits(b)[k] :: start <= k < start + width
  }

  lemma PushHalf(b: bv32)
    ensures Push(Half(b), Low(b)) == b
  {}

  /** Packing is undone from the front: `push` puts the first bit below the rest. */
  ghost predicate PacksWith(push: (bv32, bool) -> bv32, b: bool, rest: seq<bool>) {
    Pack([b] + rest) == push(Pack(rest), b)
  }

  lemma PackHead(b: bool, rest: seq<bool>)
    ensures PacksWith(Push, b, rest)
  {
    assert ([b] + rest)[1..] == rest;
  }

  ghost predicate Rebuilds(push: (bv32, bool) -> bv32, low: bv32 -> bool, half: bv32 -> bv32, x: bv32) {
    push(half(x), low(x)) == x
  }

  lemma {:induction false} PackLowBits(push: (bv32, bool) -> bv32, low: bv32 -> bool, half: bv32 -> bv32, b: bv32, n: nat)
    requires forall x, rest :: PacksWith(push, x, rest)
    requires forall x :: Rebuilds(push, low, half, x)
    requires Iterate(half, b, n) == 0
    ensures Pack(LowBits(low, half, b, n)) == b
    decreases n
  {
    if n > 0 {
      PackLowBits(push, low, half, half(b), n - 1);
      assert Rebuilds(push, low, half, b);
      assert PacksWith(push, low(b), LowBits(low, half, half(b), n - 1));
    }
  }

  lemma PackByteBits(b: bv8)
    ensures Pack(ByteBits(b)) == b as bv32
  {
    EightHalves(b);
    forall x, rest ensures PacksWith(Push, x, rest) { PackHead(x, rest); }
    forall x ensures Rebuilds(Push, Low, Half, x) { PushHalf(x); }
    PackLowBits(Push, Low, Half, b as bv32, 8);
  }

  lemma ByteBitsInjective(a: bv8, b: bv8)
    requires ByteBits(a) == ByteBits(b)
    ensures a == b
  {
    PackByteBits(a);
    PackByteBits(b);
  }

  lemma {:induction false} BitsInjective(a: seq<bv8>, b: seq<bv8>)
    requires |a| == |b| && Bits(a) == Bits(b)
    ensures a == b
    decreases |a|
  {
    if a != [] {
      assert ByteBits(a[0]) == Bits(a)[..8] == Bits(b)[..8] == ByteBits(b[0]);
      assert Bits(a[1..]) == Bits(a)[8..] == Bits(b)[8..] == Bits(b[1..]);
      ByteBitsInjective(a[0], b[0]);
      BitsInjective(a[1..], b[1..]);
      assert a == [a[0]] + a[1..] && b == [b[0]] + b[1..];
    }
  }

  lemma SameBits(a: seq<bool>, b: seq<bool>)
    requires |a| == |b| && forall k | 0 <= k < |a| :: !Difference(a, b)[k]
    ensures a == b
  {
    forall k | 0 <= k < |a| ensures a[k] == b[k] { assert !Difference(a, b)[k]; }
  }

  lemma XorSelf(x: bv32)
    ensures Xor(x, x) == 0
  {}

  lemma InvertInjective(x: bv32, y: bv32)
    requires Invert(x) == Invert(y)
    ensures x == y
  {
    InvertTwice(x);
    InvertTwice(y);
  }

  lemma XorZeroIff(x: bv32, y: bv32)
    ensures Xor(x, y) == 0 <==> x == y
  {}

  lemma RegistersDiffer(s: bv32, a: seq<bv8>, b: seq<bv8>)
    requires |a| == |b|
    ensures Xor(Register(EightSteps, s, a), Register(EightSteps, s, b)) == Serial(0, Difference(Bits(a), Bits(b)))
  {
    StepIsLinear();
    XorAddsBits();
    FeedDifference(Step, Xor, Bit, s, s, Bits(a), Bits(b));
    XorSelf(s);
    RegisterIsSerial(s, a);
    RegisterIsSerial(s, b);
  }

  lemma SameRegister(seed: bv32, a: seq<bv8>, b: seq<bv8>)
    ensures Crc(seed, a) == Crc(seed, b)
            <==> Register(EightSteps, Invert(seed), a) == Register(EightSteps, Invert(seed), b)
  {
    if Crc(seed, a) == Crc(seed, b) {
      InvertInjective(Register(EightSteps, Invert(seed), a), Register(EightSteps, Invert(seed), b));
    }
  }

  /** Two buffers of one length have the same CRC, whatever the seed, exactly when their difference
      alone takes a zero register back to zero. */
  lemma SameCrcIff(seed: bv32, a: seq<bv8>, b: seq<bv8>)
    requires |a| == |b|
    ensures Crc(seed, a) == Crc(seed, b) <==> Serial(0, Difference(Bits(a), Bits(b))) == 0
  {
    SameRegister(seed, a, b);
    RegistersDiffer(Invert(seed), a, b);
    XorZeroIff(Register(EightSteps, Invert(seed), a), Register(EightSteps, Invert(seed), b));
  }

  /** Two different buffers of one length whose differing bits fit in 32 consecutive ones have
      different CRCs, whatever the seed. */
  lemma BurstDetected(seed: bv32, a: seq<bv8>, b: seq<bv8>, start: nat)
    requires |a| == |b| && a != b && DifferWithin(a, b, start, 32)
    ensures Crc(seed, a) != Crc(seed, b)
  {
    var d := Difference(Bits(a), Bits(b));
    if forall k | 0 <= k < |d| :: !d[k] {
      SameBits(Bits(a), Bits(b));
      BitsInjective(a, b);
    }
    BurstShows(d, start);
    SameCrcIff(seed, a, b);
  }

  // ----- 32 is the limit -----

  const QUIET: seq<bv8> := [0, 0, 0, 0, 0]
  const POLYNOMIAL: seq<bv8> := [0x41, 0x06, 0x71, 0xDB, 0x01]

  lemma {:induction false} BitsConcat(a: seq<bv8>, b: seq<bv8>)
    ensures Bits(a + b) == Bits(a) + Bits(b)
    decreases |a|
  {
    if a == [] {
      assert a + b == b;
    } else {
      assert (a + b)[1..] == a[1..] + b;
      BitsConcat(a[1..], b);
    }
  }

  lemma SmallByteBits(j: nat)
    requires j < 8
    ensures !ByteBits(0)[j] && (0 < j ==> !ByteBits(1)[j])
  {}

  lemma {:induction false} ZeroBytes(buf: seq<bv8>)
    requires forall i | 0 <= i < |buf| :: buf[i] == 0
    ensures forall k | 0 <= k < 8 * |buf| :: !Bits(buf)[k]
    decreases |buf|
  {
    if buf != [] {
      ZeroBytes(buf[1..]);
      forall j: nat | j < 8 ensures !ByteBits(0)[j] { SmallByteBits(j); }
      assert buf[0] == 0 && Bits(buf) == ByteBits(0) + Bits(buf[1..]);
    }
  }

  lemma LastByte(buf: seq<bv8>, b: bv8, j: nat)
    requires j < 8
    ensures Bits(buf + [b])[8 * |buf| + j] == ByteBits(b)[j]
  {
    BitsConcat(buf, [b]);
    assert [b][1..] == [];
  }

  lemma PolynomialIsShort()
    ensures DifferWithin(QUIET, POLYNOMIAL, 0, 33)
  {
    ZeroBytes(QUIET);
    assert POLYNOMIAL == [0x41, 0x06, 0x71, 0xDB] + [0x01];
    forall k | 33 <= k < 40 ensures !Bits(POLYNOMIAL)[k] {
      LastByte([0x41, 0x06, 0x71, 0xDB], 0x01, k - 32);
      SmallByteBits(k - 32);
    }
  }

  lemma PolynomialTurns()
    ensures EightSteps(0 ^ 0x41) == 0x01DB7106
    ensures EightSteps(0x01DB7106 ^ 0x06) == 0x0001DB71
    ensures EightSteps(0x0001DB71 ^ 0x71) == 0x000001DB
    ensures EightSteps(0x000001DB ^ 0xDB) == 0x00000001
    ensures EightSteps(0x00000001 ^ 0x01) == 0
  {}

  lemma RegisterFrom(crc: bv32, buf: seq<bv8>, i: nat)
    requires i < |buf|
    ensures Register(EightSteps, crc, buf[i..])
            == Register(EightSteps, EightSteps(crc ^ (buf[i] as bv32)), buf[i + 1..])
  {
    assert buf[i..][1..] == buf[i + 1..];
  }

  lemma PolynomialCancels()
    ensures Register(EightSteps, 0, POLYNOMIAL) == 0
  {
    PolynomialTurns();
    RegisterFrom(0, POLYNOMIAL, 0);
    RegisterFrom(0x01DB7106, POLYNOMIAL, 1);
    RegisterFrom(0x0001DB71, POLYNOMIAL, 2);
    RegisterFrom(0x000001DB, POLYNOMIAL, 3);
    RegisterFrom(0x00000001, POLYNOMIAL, 4);
    assert POLYNOMIAL[0..] == POLYNOMIAL;
  }

  /** A difference of 33 consecutive bits, the polynomial itself, goes unseen under every seed. */
  lemma BurstOf33Missed(seed: bv32)
    ensures QUIET != POLYNOMIAL && DifferWithin(QUIET, POLYNOMIAL, 0, 33)
    ensures Crc(seed, QUIET) == Crc(seed, POLYNOMIAL)
  {
    assert QUIET[0] != POLYNOMIAL[0];
    PolynomialIsShort();
    ZeroBytes(QUIET);
    assert Difference(Bits(QUIET), Bits(POLYNOMIAL)) == Bits(POLYNOMIAL);
    RegisterIsSerial(0, POLYNOMIAL);
    PolynomialCancels();
    SameCrcIff(seed, QUIET, POLYNOMIAL);
  }
}
