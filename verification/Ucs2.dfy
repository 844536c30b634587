/**
 The boot loader's conversion of UTF-8 partition names to UCS-2, checked against an encoder
 written from section 3 of RFC 3629.
 */
module Ucs2 {

  // ----- The decoder of the source -----

  /** How a run of the decoder ends: success, an error report, or a read past the end of the input. */
  datatype End = Success | Failure | Overrun

  /** What one run of the decoder writes, and how it ends. */
  datatype Decoded = Decoded(units: seq<bv16>, end: End)

  /** How many bytes the decoder takes for a character that starts with `lead`; 0 when it gives up. */
  function Width(lead: bv8): nat {
    if lead & 0xF8 == 0xF0 then 0
    else if lead & 0xF0 == 0xE0 then 3
    else if lead & 0xE0 == 0xC0 then 2
    else if lead >> 7 == 0 then 1
    else 0
  }

  function Unit1(a: bv8): bv16 { (a as bv16) & 0x00FF }

  function Unit2(a: bv8, b: bv8): bv16 { (((a as bv16) << 6) & 0x07C0) | ((b as bv16) & 0x003F) }

  function Unit3(a: bv8, b: bv8, c: bv8): bv16 {
    ((a as bv16) << 12) | (((b as bv16) << 6) & 0x0FC0) | ((c as bv16) & 0x003F)
  }

  /** The code unit at the head of `s`. */
  function HeadUnit(s: seq<bv8>): bv16
    requires s != [] && 0 < Width(s[0]) <= |s|
  {
    match Width(s[0])
    case 1 => Unit1(s[0])
    case 2 => Unit2(s[0], s[1])
    case _ => Unit3(s[0], s[1], s[2])
  }

  /** The run of the decoder on `s`, whose last byte is the terminator. */
  function Decode(s: seq<bv8>): Decoded
    decreases |s|
  {
    if s == [] then Decoded([], Overrun)
    else
      var w := Width(s[0]);
      if w == 0 then Decoded([], Failure)
      else if |s| < w then Decoded([], Overrun)
      else if |s| <= w + 1 then Decoded([HeadUnit(s)], Success)
      else
        var rest := Decode(s[w..]);
        Decoded([HeadUnit(s)] + rest.units, rest.end)
  }

  /** One character: how many bytes it takes, 0 when it cannot be represented, and its code unit. */
  method ReadUnit(utf8: seq<bv8>, i8: nat) returns (width: nat, unit: bv16)
    requires i8 < |utf8| && i8 + Width(utf8[i8]) <= |utf8|
    ensures width == Width(utf8[i8])
    ensures width > 0 ==> unit == HeadUnit(utf8[i8..])
  {
    var lead := utf8[i8];
    if lead & 0xF8 == 0xF0 {
      return 0, 0;
    } else if lead & 0xF0 == 0xE0 {
      return 3, Unit3(lead, utf8[i8 + 1], utf8[i8 + 2]);
    } else if lead & 0xE0 == 0xC0 {
      return 2, Unit2(lead, utf8[i8 + 1]);
    } else if lead >> 7 == 0 {
      return 1, Unit1(lead);
    } else {
      return 0, 0;
    }
  }

  /** What is left to write from `i` on is what `all` has from `n` on. */
  ghost predicate Rest(utf8: seq<bv8>, i: nat, all: Decoded, n: nat)
    requires i < |utf8| && n <= |all.units|
  {
    Decode(utf8[i..]) == Decoded(all.units[n..], all.end)
  }

  lemma DecodeHead(utf8: seq<bv8>, i: nat, all: Decoded, n: nat)
    requires i < |utf8| && n <= |all.units| && Rest(utf8, i, all, n) && !all.end.Overrun?
    ensures i + Width(utf8[i]) <= |utf8|
    ensures Width(utf8[i]) == 0 ==> n == |all.units| && all.end.Failure?
    ensures Width(utf8[i]) > 0 ==> n < |all.units| && all.units[n] == HeadUnit(utf8[i..])
    ensures var next := i + Width(utf8[i]);
            Width(utf8[i]) > 0 ==>
              if next < |utf8| - 1 then Rest(utf8, next, all, n + 1)
              else n + 1 == |all.units| && all.end.Success?
  {
    assert utf8[i..][Width(utf8[i])..] == utf8[i + Width(utf8[i])..];
    assert all.units[n..] != [] ==> all.units[n..][0] == all.units[n] && all.units[n..][1..] == all.units[n + 1..];
  }

  lemma Overwritten(before: seq<bv16>, after: seq<bv16>, units: seq<bv16>)
    requires |units| <= |before| == |after|
    requires forall k | 0 <= k < |units| :: after[k] == units[k]
    requires forall k | |units| <= k < |before| :: after[k] == before[k]
    ensures after == units + before[|units|..]
  {}

  /** The conversion loop.  The caller's input must not make it read past the end, and `ucs2`
      needs room for the code units; UnitsBound says two bytes for every byte are enough. */
  method Utf8ToUcs2(utf8: seq<bv8>, ucs2: array<bv16>) returns (err: bool)
    requires !Decode(utf8).end.Overrun? && |Decode(utf8).units| <= ucs2.Length
    modifies ucs2
    ensures err == Decode(utf8).end.Failure?
    ensures ucs2[..] == Decode(utf8).units + old(ucs2[..])[|Decode(utf8).units|..]
  {
    ghost var all := Decode(utf8);
    ghost var before := ucs2[..];
    var i8, i2 := 0, 0;
    err := true;
    while true
      invariant 0 <= i8 < |utf8| && 0 <= i2 <= |all.units| && Rest(utf8, i8, all, i2)
      invariant forall k | 0 <= k < i2 :: ucs2[k] == all.units[k]
      invariant forall k | i2 <= k < ucs2.Length :: ucs2[k] == before[k]
      decreases |utf8| - i8
    {
      DecodeHead(utf8, i8, all, i2);
      var width, unit := ReadUnit(utf8, i8);
      if width == 0 {
        break;
      }
      ucs2[i2] := unit;
      i8, i2 := i8 + width, i2 + 1;
      if !(i8 < |utf8| - 1) {
        err := false;
        break;
      }
    }
    Overwritten(before, ucs2[..], all.units);
  }

  // ----- The encoder of RFC 3629 -----

  /** Code points RFC 3629 can encode; surrogates are let through, as the decoder does. */
  predicate IsCodePoint(c: bv32) { c < 0x110000 }

  function Bits5(c: bv32): bv8 { (c & 0x1F) as bv8 }

  /** A continuation byte, carrying six bits. */
  function Tail(c: bv32): bv8 { 0x80 | ((c & 0x3F) as bv8) }

  function Bits4(c: bv32): bv8 { (c & 0x0F) as bv8 }

  function Bits3(c: bv32): bv8 { (c & 0x07) as bv8 }

  function EncodeChar(c: bv32): (s: seq<bv8>)
    requires IsCodePoint(c)
    ensures 1 <= |s| <= 4
  {
    if c < 0x80 then [c as bv8]
    else if c < 0x800 then [0xC0 | Bits5(c >> 6), Tail(c)]
    else if c < 0x10000 then [0xE0 | Bits4(c >> 12), Tail(c >> 6), Tail(c)]
    else [0xF0 | Bits3(c >> 18), Tail(c >> 12), Tail(c >> 6), Tail(c)]
  }

  function Encode(cs: seq<bv32>): seq<bv8>
    requires forall c | c in cs :: IsCodePoint(c)
    decreases |cs|
  {
    if cs == [] then [] else EncodeChar(cs[0]) + Encode(cs[1..])
  }

  predicate IsBmp(c: bv32) { c < 0x10000 }

  /** The code points before the first one outside the Basic Multilingual Plane. */
  function BmpPrefix(cs: seq<bv32>): (p: seq<bv32>)
    ensures p <= cs && forall c | c in p :: IsBmp(c)
    ensures |p| < |cs| ==> !IsBmp(cs[|p|])
    decreases |cs|
  {
    if cs == [] || !IsBmp(cs[0]) then [] else [cs[0]] + BmpPrefix(cs[1..])
  }

  function Unit(c: bv32): bv16
    requires IsBmp(c)
  {
    c as bv16
  }

  function Units(cs: seq<bv32>): (u: seq<bv16>)
    requires forall c | c in cs :: IsBmp(c)
    ensures |u| == |cs|
  {
    seq(|cs|, i requires 0 <= i < |cs| => Unit(cs[i]))
  }

  // ----- Decoding what was encoded -----

  lemma OneByte(c: bv32)
    requires c < 0x80
    ensures Width(c as bv8) == 1 && Unit1(c as bv8) == Unit(c)
  {}

  lemma TwoBytes(c: bv32)
    requires 0x80 <= c < 0x800
    ensures Width(0xC0 | Bits5(c >> 6)) == 2 && Unit2(0xC0 | Bits5(c >> 6), Tail(c)) == Unit(c)
  {}

  lemma ThreeBytes(c: bv32)
    requires 0x800 <= c < 0x10000
    ensures Width(0xE0 | Bits4(c >> 12)) == 3
    ensures Unit3(0xE0 | Bits4(c >> 12), Tail(c >> 6), Tail(c)) == Unit(c)
  {}

  lemma FourBytes(c: bv32)
    ensures Width(0xF0 | Bits3(c >> 18)) == 0
  {}

  lemma EncodedChar(c: bv32)
    requires IsCodePoint(c)
    ensures Width(EncodeChar(c)[0]) == if IsBmp(c) then |EncodeChar(c)| else 0
    ensures IsBmp(c) ==> HeadUnit(EncodeChar(c)) == Unit(c)
  {
    if c < 0x80 { OneByte(c); }
    else if c < 0x800 { TwoBytes(c); }
    else if c < 0x10000 { ThreeBytes(c); }
    else { FourBytes(c); }
  }

  lemma HeadOfConcat(s: seq<bv8>, t: seq<bv8>)
    requires s != [] && 0 < Width(s[0]) <= |s|
    ensures HeadUnit(s + t) == HeadUnit(s)
  {}

  /** What the decoder makes of a well-formed string, its terminator included. */
  function Expected(cs: seq<bv32>): Decoded {
    Decoded(if cs == [] then [0] else Units(BmpPrefix(cs)), if BmpPrefix(cs) == cs then Success else Failure)
  }

  lemma SameTail(s: seq<bv32>, tail: seq<bv32>)
    requires s != []
    ensures [s[0]] + tail == s <==> tail == s[1..]
  {
    assert ([s[0]] + tail)[1..] == tail && s == [s[0]] + s[1..];
  }

  lemma UnitsHead(c: bv32, rest: seq<bv32>)
    requires IsBmp(c) && forall x | x in rest :: IsBmp(x)
    ensures Units([c] + rest) == [Unit(c)] + Units(rest)
  {
    assert ([c] + rest)[1..] == rest;
  }

  lemma PrefixHead(cs: seq<bv32>)
    requires cs != [] && IsBmp(cs[0])
    ensures BmpPrefix(cs) == cs <==> BmpPrefix(cs[1..]) == cs[1..]
    ensures Units(BmpPrefix(cs)) == [Unit(cs[0])] + Units(BmpPrefix(cs[1..]))
  {
    SameTail(cs, BmpPrefix(cs[1..]));
    UnitsHead(cs[0], BmpPrefix(cs[1..]));
  }

  lemma ExpectedHead(cs: seq<bv32>)
    requires cs != []
    ensures !IsBmp(cs[0]) ==> Expected(cs) == Decoded([], Failure)
    ensures IsBmp(cs[0]) && |cs| == 1 ==> Expected(cs) == Decoded([Unit(cs[0])], Success)
    ensures IsBmp(cs[0]) && |cs| > 1 ==>
              Expected(cs) == Decoded([Unit(cs[0])] + Expected(cs[1..]).units, Expected(cs[1..]).end)
  {
    if IsBmp(cs[0]) {
      PrefixHead(cs);
    } else {
      assert BmpPrefix(cs) == [];
    }
  }

  lemma DecodeChar(c: bv32, rest: seq<bv8>)
    requires IsCodePoint(c) && rest != []
    ensures Decode(EncodeChar(c) + rest)
         == if !IsBmp(c) then Decoded([], Failure)
            else if |rest| == 1 then Decoded([Unit(c)], Success)
            else Decoded([Unit(c)] + Decode(rest).units, Decode(rest).end)
  {
    var head := EncodeChar(c);
    EncodedChar(c);
    assert (head + rest)[|head|..] == rest;
    if IsBmp(c) { HeadOfConcat(head, rest); }
  }

  lemma {:induction false} EncodeLength(cs: seq<bv32>)
    requires forall c | c in cs :: IsCodePoint(c)
    ensures |Encode(cs)| >= |cs|
    decreases |cs|
  {
    if cs != [] { EncodeLength(cs[1..]); }
  }

  /** Well-formed input never makes the decoder read past its end; the units written are exactly
      those of the code points before the first one outside the Basic Multilingual Plane, and the
      conversion fails exactly when there is such a code point.  The terminator itself is written
      only for the empty string. */
  lemma {:induction false} DecodeEncoded(cs: seq<bv32>)
    requires forall c | c in cs :: IsCodePoint(c)
    ensures Decode(Encode(cs) + [0]) == Expected(cs)
    decreases |cs|
  {
    if cs == [] {
      OneByte(0);
      assert Encode(cs) + [0] == [0];
    } else {
      var rest := Encode(cs[1..]) + [0];
      assert Encode(cs) + [0] == EncodeChar(cs[0]) + rest;
      DecodeEncoded(cs[1..]);
      DecodeChar(cs[0], rest);
      ExpectedHead(cs);
      EncodeLength(cs[1..]);
    }
  }

  /** The decoder never writes more than one code unit for a byte of input, not counting the
      terminator when there is anything else. */
  lemma {:induction false} UnitsBound(s: seq<bv8>)
    ensures |Decode(s).units| <= if |s| > 1 then |s| - 1 else |s|
    decreases |s|
  {
    if s != [] && 0 < Width(s[0]) && Width(s[0]) + 1 < |s| {
      UnitsBound(s[Width(s[0])..]);
    }
  }

  // ----- Any bytes at all -----

  /** What the decoder takes a byte for when it stands at the front of a character. */
  lemma LeadBytes(b: bv8)
    ensures Width(b) == if b < 0x80 then 1 else if b < 0xC0 then 0 else if b < 0xE0 then 2 else if b < 0xF0 then 3 else 0
  {}

  /** The code unit the decoder makes of any bytes, the high bits of later bytes ignored. */
  lemma UnitOfBytes(a: bv8, b: bv8, c: bv8)
    ensures a < 0x80 ==> Unit1(a) == a as bv16
    ensures Unit2(a, b) == (a as bv16 % 32) * 64 + (b as bv16 % 64)
    ensures Unit3(a, b, c) == (a as bv16 % 16) * 4096 + (b as bv16 % 64) * 64 + (c as bv16 % 64)
  {}

  /** The decoder, starting at the front of `s`, comes to read a character at place `k`. */
  predicate ReadsAt(s: seq<bv8>, k: nat)
    requires k < |s|
    decreases k
  {
    k == 0 || (0 < Width(s[0]) <= k && ReadsAt(s[Width(s[0])..], k - Width(s[0])))
  }

  /** The decoder comes, before the end of the name, to a byte that can start no character it can
      represent: a continuation byte or one from 0xF0 on. */
  predicate StopsAt(s: seq<bv8>, k: nat) {
    k < |s| && (k == 0 || k + 1 < |s|) && ReadsAt(s, k) && (0x80 <= s[k] < 0xC0 || 0xF0 <= s[k])
  }

  lemma StopsLater(s: seq<bv8>, w: nat, k: nat)
    requires s != [] && w == Width(s[0]) && 0 < w && w + 1 < |s|
    ensures StopsAt(s[w..], k) <==> StopsAt(s, w + k)
  {
    if w + k < |s| { assert s[w..][k] == s[w + k]; }
  }

  lemma StopsNotBefore(s: seq<bv8>, w: nat, k: nat)
    requires s != [] && w == Width(s[0]) && 0 < w && StopsAt(s, k)
    ensures w <= k
  {
    LeadBytes(s[0]);
  }

  /** The decoder gives up exactly when it comes to such a byte. */
  lemma {:induction false} FailureIff(s: seq<bv8>)
    requires s != [] && s[|s| - 1] == 0
    ensures Decode(s).end.Failure? <==> exists k :: StopsAt(s, k)
    decreases |s|
  {
    LeadBytes(s[0]);
    var w := Width(s[0]);
    if w == 0 {
      assert StopsAt(s, 0);
    } else if w + 1 < |s| {
      FailureIff(s[w..]);
      if Decode(s).end.Failure? {
        var k :| StopsAt(s[w..], k);
        StopsLater(s, w, k);
      }
      if k: nat :| StopsAt(s, k) {
        StopsNotBefore(s, w, k);
        StopsLater(s, w, k - w);
      }
    }
  }

  // ----- Input that runs past its end -----

  predicate IsThreeByteLead(b: bv8) { b & 0xF0 == 0xE0 }

  /** Reading a terminated name passes its end exactly when the decoder comes to the last byte before
      the terminator and finds the lead of a three-byte character there. */
  lemma {:induction false} OverrunIff(s: seq<bv8>)
    requires s != [] && s[|s| - 1] == 0
    ensures Decode(s).end.Overrun? <==> |s| > 1 && IsThreeByteLead(s[|s| - 2]) && ReadsAt(s, |s| - 2)
    decreases |s|
  {
    var w := Width(s[0]);
    if 0 < w && w + 1 < |s| { OverrunIff(s[w..]); }
  }

  /** A name whose last byte is no three-byte lead is never read past its end, however malformed. */
  lemma SafeLastByte(name: seq<bv8>)
    requires name == [] || !IsThreeByteLead(name[|name| - 1])
    ensures !Decode(name + [0]).end.Overrun?
  {
    OverrunIff(name + [0]);
  }

  /** A name that is read past its end: nothing but a three-byte lead. */
  lemma TruncatedNameOverruns()
    ensures Decode([0xE0, 0]).end.Overrun?
  {
    OverrunIff([0xE0, 0]);
  }

  // ----- Reading a zero-terminated name back -----

  /** The length of a zero-terminated string of code units; all of it when there is no zero. */
  function StrLen(units: seq<bv16>): (n: nat)
    ensures n <= |units| && (n < |units| ==> units[n] == 0)
    ensures forall k | 0 <= k < n :: units[k] != 0
    decreases |units|
  {
    if units == [] || units[0] == 0 then 0 else 1 + StrLen(units[1..])
  }

  predicate IsName(cs: seq<bv32>) { forall c | c in cs :: IsBmp(c) && c != 0 }

  /** A zeroed buffer, as bub_calloc gives, with what the decoder writes for `name` in it. */
  function Converted(name: seq<bv8>, room: nat): (u: seq<bv16>)
    requires |Decode(name).units| <= room
    ensures |u| == room
  {
    Decode(name).units + seq(room - |Decode(name).units|, _ => 0)
  }

  lemma IntoZeroed(name: seq<bv8>, zeroed: seq<bv16>)
    requires |Decode(name).units| <= |zeroed| && forall k | 0 <= k < |zeroed| :: zeroed[k] == 0
    ensures Decode(name).units + zeroed[|Decode(name).units|..] == Converted(name, |zeroed|)
  {
    assert zeroed[|Decode(name).units|..] == seq(|zeroed| - |Decode(name).units|, _ => 0);
  }

  lemma {:induction false} PrefixOfBmp(cs: seq<bv32>)
    requires forall c | c in cs :: IsBmp(c)
    ensures BmpPrefix(cs) == cs
    decreases |cs|
  {
    if cs != [] {
      PrefixOfBmp(cs[1..]);
      assert cs == [cs[0]] + cs[1..];
    }
  }

  lemma UnitInjective(a: bv32, b: bv32)
    requires IsBmp(a) && IsBmp(b)
    ensures Unit(a) == Unit(b) ==> a == b
  {}

  lemma NameUnits(cs: seq<bv32>)
    requires IsName(cs)
    ensures forall k | 0 <= k < |cs| :: Units(cs)[k] != 0
  {
    forall k | 0 <= k < |cs| ensures Units(cs)[k] != 0 {
      assert cs[k] in cs;
      UnitInjective(cs[k], 0);
    }
  }

  lemma StrLenIs(u: seq<bv16>, n: nat)
    requires n < |u| && u[n] == 0 && forall k | 0 <= k < n :: u[k] != 0
    ensures StrLen(u) == n
  {}

  /** A name converted into a zeroed buffer reads back, up to its terminator, as its code units. */
  lemma ConvertedName(cs: seq<bv32>)
    requires IsName(cs)
    ensures var s := Encode(cs) + [0];
            Decode(s).end.Success? && |Decode(s).units| <= |s|
            && StrLen(Converted(s, |s|)) == |cs| && Converted(s, |s|)[..|cs|] == Units(cs)
            && forall k | |cs| <= k < |s| :: Converted(s, |s|)[k] == 0
  {
    var s := Encode(cs) + [0];
    DecodeEncoded(cs);
    PrefixOfBmp(cs);
    EncodeLength(cs);
    UnitsBound(s);
    NameUnits(cs);
    StrLenIs(Converted(s, |s|), |cs|);
  }

  /** Conversion is one-to-one on names. */
  lemma ConversionInjective(a: seq<bv32>, b: seq<bv32>)
    requires IsName(a) && IsName(b)
    requires Decode(Encode(a) + [0]).units == Decode(Encode(b) + [0]).units
    ensures a == b
  {
    DecodeEncoded(a);
    DecodeEncoded(b);
    PrefixOfBmp(a);
    PrefixOfBmp(b);
    NameUnits(a);
    NameUnits(b);
    if a != [] && b != [] {
      forall k | 0 <= k < |a| ensures a[k] == b[k] {
        assert Units(a)[k] == Units(b)[k];
        UnitInjective(a[k], b[k]);
      }
    }
  }
}
