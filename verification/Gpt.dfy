/**
 Looking up a partition by name in the GUID partition table.  The source compares lengths in
 code units but contents over twice the UTF-8 length; what is proved here is when that amounts
 to equality of names.
 */
module Gpt {
  import opened Common
  import opened Ucs2

  const ENTRY_NAME_LEN := 36
  const MAX_GPT_ENTRIES := 128

  /** The parts of a table entry the boot loader uses. */
  datatype GptEntry = GptEntry(firstLba: nat, lastLba: nat, name: seq<bv16>)

  /** The entry's name ends inside its field. */
  predicate Readable(e: GptEntry) {
    |e.name| == ENTRY_NAME_LEN && StrLen(e.name) < ENTRY_NAME_LEN
  }

  predicate TableReadable(entries: seq<GptEntry>) {
    |entries| <= MAX_GPT_ENTRIES && forall i | 0 <= i < |entries| :: Readable(entries[i])
  }

  predicate Comparable(ucs2: seq<bv16>, n: nat) {
    n <= |ucs2| && (n <= ENTRY_NAME_LEN || StrLen(ucs2) >= ENTRY_NAME_LEN)
  }

  /** A name the lookup can compare without leaving its buffers: it does not run the decoder past
      its terminator, and either it is rejected before the search, or twice its length is at most the
      size of a name field, or it has too many code units for any entry to pass the length test. */
  predicate Askable(name: seq<bv8>) {
    var utf8 := name + [0];
    UnitsBound(utf8);
    match Decode(utf8).end
    case Overrun => false
    case Failure => true
    case Success => Comparable(Converted(utf8, |utf8|), |name|)
  }

  /** The test of the search loop; `n` is the UTF-8 length of the name sought. */
  predicate Matches(e: GptEntry, ucs2: seq<bv16>, n: nat)
    requires Readable(e) && Comparable(ucs2, n)
  {
    StrLen(ucs2) == StrLen(e.name) && e.name[..n] == ucs2[..n]
  }

  /** The first entry from `i` on that passes the test. */
  function FindFrom(entries: seq<GptEntry>, ucs2: seq<bv16>, n: nat, i: nat): (r: Option<nat>)
    requires TableReadable(entries) && Comparable(ucs2, n) && i <= |entries|
    ensures r.Some? ==> i <= r.value < |entries| && Matches(entries[r.value], ucs2, n)
    ensures forall j | i <= j < (if r.Some? then r.value else |entries|) :: !Matches(entries[j], ucs2, n)
    decreases |entries| - i
  {
    if i == |entries| then None
    else if Matches(entries[i], ucs2, n) then Some(i)
    else FindFrom(entries, ucs2, n, i + 1)
  }

  /** The index of the entry a lookup of `name` returns. */
  function Lookup(entries: seq<GptEntry>, name: seq<bv8>): (r: Option<nat>)
    requires TableReadable(entries) && Askable(name)
    ensures r.Some? ==> r.value < |entries|
  {
    var utf8 := name + [0];
    UnitsBound(utf8);
    if Decode(utf8).end.Failure? then None
    else FindFrom(entries, Converted(utf8, |utf8|), |name|, 0)
  }

  /** The search of the source.  `tableUnread` stands for the failures before the search: no memory,
      or an error reading the header or the entries. */
  method PartitionEntryByName(entries: seq<GptEntry>, name: seq<bv8>, tableUnread: bool)
      returns (entry: Option<GptEntry>)
    requires TableReadable(entries) && Askable(name)
    ensures tableUnread ==> entry == None
    ensures !tableUnread ==>
              entry == match Lookup(entries, name) case None => None case Some(i) => Some(entries[i])
  {
    if tableUnread {
      return None;
    }
    var utf8 := name + [0];
    UnitsBound(utf8);
    var ucs2 := new bv16[|utf8|](_ => 0);
    ghost var zeroed := ucs2[..];
    var err := Utf8ToUcs2(utf8, ucs2);
    if err {
      return None;
    }
    IntoZeroed(utf8, zeroed);
    var i := 0;
    while i < |entries|
      invariant i <= |entries|
      invariant Lookup(entries, name) == FindFrom(entries, ucs2[..], |name|, i)
    {
      if Matches(entries[i], ucs2[..], |name|) {
        return Some(entries[i]);
      }
      i := i + 1;
    }
    return None;
  }

  // ----- When the test is equality of names -----

  function NameOf(e: GptEntry): seq<bv16> { e.name[..StrLen(e.name)] }

  predicate ZeroPadded(e: GptEntry) { forall k | StrLen(e.name) <= k < |e.name| :: e.name[k] == 0 }

  /** The field is zero from the length of `cs` on, as far as a compare over its UTF-8 length reaches. */
  predicate PaddedFor(e: GptEntry, cs: seq<bv32>)
    requires IsName(cs)
  {
    forall k | |cs| <= k < |Encode(cs)| && k < |e.name| :: e.name[k] == 0
  }

  /** A name short enough in UTF-8 to compare, or too long in code units for any entry. */
  predicate Fits(cs: seq<bv32>)
    requires IsName(cs)
  {
    |Encode(cs)| <= ENTRY_NAME_LEN || |cs| >= ENTRY_NAME_LEN
  }

  predicate IsAscii(cs: seq<bv32>) { forall c | c in cs :: c < 0x80 && c != 0 }

  /** Comparing beyond the first `k` units of a name that is zero from there on. */
  lemma SamePrefix(field: seq<bv16>, u: seq<bv16>, k: nat, n: nat)
    requires k <= n <= |field| && n <= |u| && forall j | k <= j < n :: u[j] == 0
    ensures field[..n] == u[..n] <==> field[..k] == u[..k] && forall j | k <= j < n :: field[j] == 0
  {
    if field[..n] == u[..n] {
      assert field[..k] == field[..n][..k] == u[..n][..k];
      forall j | k <= j < n ensures field[j] == 0 { assert field[..n][j] == u[..n][j]; }
    }
    assert forall j | 0 <= j < k :: field[j] == field[..k][j] && u[j] == u[..k][j];
  }

  /** For a name of code points `cs` the test holds exactly when the names are equal and the field is
      zero as far as the compare reaches beyond its terminator. */
  lemma MatchesIff(e: GptEntry, cs: seq<bv32>)
    requires Readable(e) && IsName(cs) && Fits(cs)
    ensures var utf8 := Encode(cs) + [0];
            |Decode(utf8).units| <= |utf8| && Comparable(Converted(utf8, |utf8|), |Encode(cs)|)
            && (Matches(e, Converted(utf8, |utf8|), |Encode(cs)|) <==> NameOf(e) == Units(cs) && PaddedFor(e, cs))
  {
    var utf8 := Encode(cs) + [0];
    ConvertedName(cs);
    EncodeLength(cs);
    var u := Converted(utf8, |utf8|);
    if |Encode(cs)| <= ENTRY_NAME_LEN {
      assert u[..|cs|] == Units(cs);
      SamePrefix(e.name, u, |cs|, |Encode(cs)|);
    }
  }

  lemma {:induction false} AsciiLength(cs: seq<bv32>)
    requires IsAscii(cs)
    ensures |Encode(cs)| == |cs|
    decreases |cs|
  {
    if cs != [] {
      assert cs[0] in cs;
      assert forall c | c in cs[1..] :: c in cs;
      AsciiLength(cs[1..]);
    }
  }

  /** The first entry from `i` on with that name. */
  function FirstNamed(entries: seq<GptEntry>, units: seq<bv16>, i: nat): (r: Option<nat>)
    requires TableReadable(entries) && i <= |entries|
    ensures r.Some? ==> i <= r.value < |entries| && NameOf(entries[r.value]) == units
    ensures forall j | i <= j < (if r.Some? then r.value else |entries|) :: NameOf(entries[j]) != units
    decreases |entries| - i
  {
    if i == |entries| then None
    else if NameOf(entries[i]) == units then Some(i)
    else FirstNamed(entries, units, i + 1)
  }

  lemma AskableName(cs: seq<bv32>)
    requires IsName(cs) && Fits(cs)
    ensures Askable(Encode(cs))
  {
    ConvertedName(cs);
    UnitsBound(Encode(cs) + [0]);
  }

  /** When the test means a name and a condition besides, the first entry that passes is the first of
      that name exactly when that one meets the condition. */
  lemma FirstIff(entries: seq<GptEntry>, ucs2: seq<bv16>, n: nat, units: seq<bv16>, good: GptEntry -> bool, i: nat)
    requires TableReadable(entries) && Comparable(ucs2, n) && i <= |entries|
    requires forall j | 0 <= j < |entries| ::
               Matches(entries[j], ucs2, n) <==> NameOf(entries[j]) == units && good(entries[j])
    ensures var first := FirstNamed(entries, units, i);
            FindFrom(entries, ucs2, n, i) == first <==> (first.Some? ==> good(entries[first.value]))
  {}

  lemma FindIsFirstIff(entries: seq<GptEntry>, cs: seq<bv32>, ucs2: seq<bv16>)
    requires TableReadable(entries) && IsName(cs) && Fits(cs)
    requires |Decode(Encode(cs) + [0]).units| <= |Encode(cs)| + 1
    requires ucs2 == Converted(Encode(cs) + [0], |Encode(cs)| + 1) && Comparable(ucs2, |Encode(cs)|)
    ensures var first := FirstNamed(entries, Units(cs), 0);
            FindFrom(entries, ucs2, |Encode(cs)|, 0) == first <==> (first.Some? ==> PaddedFor(entries[first.value], cs))
  {
    forall j | 0 <= j < |entries|
      ensures Matches(entries[j], ucs2, |Encode(cs)|)
              <==> NameOf(entries[j]) == Units(cs) && PaddedFor(entries[j], cs)
    {
      MatchesIff(entries[j], cs);
    }
    FirstIff(entries, ucs2, |Encode(cs)|, Units(cs), e => PaddedFor(e, cs), 0);
  }

  /** The search returns the first entry of that name, and none when there is none, exactly when the
      first entry of that name, if there is one, is zero as far as the compare reaches past its end. */
  lemma LookupIsByNameIff(entries: seq<GptEntry>, cs: seq<bv32>)
    requires TableReadable(entries) && IsName(cs) && Fits(cs)
    ensures Askable(Encode(cs))
    ensures var first := FirstNamed(entries, Units(cs), 0);
            Lookup(entries, Encode(cs)) == first <==> (first.Some? ==> PaddedFor(entries[first.value], cs))
  {
    AskableName(cs);
    ConvertedName(cs);
    var utf8 := Encode(cs) + [0];
    FindIsFirstIff(entries, cs, Converted(utf8, |utf8|));
  }

  /** So it always is for ASCII names, of any length, whatever follows the terminators in the table,
      and for other names when the fields are zero-padded. */
  lemma LookupIsByName(entries: seq<GptEntry>, cs: seq<bv32>)
    requires TableReadable(entries) && IsName(cs)
    requires IsAscii(cs) || (Fits(cs) && forall i | 0 <= i < |entries| :: ZeroPadded(entries[i]))
    ensures Askable(Encode(cs))
    ensures match Lookup(entries, Encode(cs))
            case Some(i) => NameOf(entries[i]) == Units(cs)
                            && forall j | 0 <= j < i :: NameOf(entries[j]) != Units(cs)
            case None => forall j | 0 <= j < |entries| :: NameOf(entries[j]) != Units(cs)
  {
    if IsAscii(cs) { AsciiLength(cs); }
    LookupIsByNameIff(entries, cs);
  }

  /** A name with a code point outside the Basic Multilingual Plane is found in no table. */
  lemma UnrepresentableNotFound(entries: seq<GptEntry>, cs: seq<bv32>)
    requires TableReadable(entries) && forall c | c in cs :: IsCodePoint(c)
    requires exists c | c in cs :: !IsBmp(c)
    ensures Askable(Encode(cs)) && Lookup(entries, Encode(cs)) == None
  {
    DecodeEncoded(cs);
    UnitsBound(Encode(cs) + [0]);
    var c :| c in cs && !IsBmp(c);
    assert BmpPrefix(cs) != cs;
  }

  /** Without zero padding the search can miss a name: U+20AC takes three bytes, so the
      compare reaches one unit beyond the terminator of the entry named U+20AC. */
  lemma PaddingMatters()
    ensures var e := GptEntry(0, 0, [0x20AC, 0, 0x41] + seq(33, _ => 0)); var cs := [0x20AC];
            Readable(e) && IsName(cs) && NameOf(e) == Units(cs)
            && Askable(Encode(cs)) && Lookup([e], Encode(cs)) == None
  {
    var e := GptEntry(0, 0, [0x20AC, 0, 0x41] + seq(33, _ => 0));
    var cs: seq<bv32> := [0x20AC];
    assert StrLen(e.name) == 1 by { StrLenIs(e.name, 1); }
    assert |Encode(cs)| == 3 by { assert Encode(cs[1..]) == []; }
    ConvertedName(cs);
    UnitsBound(Encode(cs) + [0]);
    assert e.name[2] != 0;
    MatchesIff(e, cs);
    assert FindFrom([e], Converted(Encode(cs) + [0], 4), 3, 1) == None;
  }

  lemma {:induction false} AsciiDecodes(name: seq<bv8>)
    requires forall k | 0 <= k < |name| :: name[k] < 0x80
    ensures Decode(name + [0]).end.Success?
    decreases |name|
  {
    if name != [] {
      assert (name + [0])[1..] == name[1..] + [0];
      AsciiDecodes(name[1..]);
    }
  }
}
