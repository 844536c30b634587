/**
 What unbounded sequences of boots do to the A/B metadata: tries are never overspent, a good write
 is never followed by an invalid-metadata error, a successful slot survives, and with working I/O
 every run settles.
 */
module AbRuns {
  import opened Common
  import opened AbRecord
  import opened AbFlow

  // ----- What the disk records -----

  predicate Holds(c: Codec, misc: seq<bv8>) { |misc| >= 64 && c.accept(misc[..64]).Some? }

  /** The slots of the record on disk. */
  function Held(c: Codec, misc: seq<bv8>): Slots
    requires Holds(c, misc)
  {
    c.accept(misc[..64]).value.slots
  }

  function Tries(s: Slots): nat { s.a.triesRemaining + s.b.triesRemaining }

  /** The tries on disk; what a reset would grant when there is no valid record. */
  function Budget(c: Codec, misc: seq<bv8>): (n: nat)
    ensures n <= 14
  {
    if Holds(c, misc) then Tries(Held(c, misc)) else 14
  }

  /** A slot is handed out that has tries and so is not yet known to boot. */
  predicate HandsOutUntried(c: Codec, misc: seq<bv8>, out: Outcome) {
    out.chosen.Some? && Holds(c, misc)
    && SlotOf(NormalizedSlots(Held(c, misc)), out.chosen.value).triesRemaining > 0
  }

  lemma HeldAfterWrite(c: Codec, misc: seq<bv8>, d: AbData)
    requires Lawful(c) && |misc| >= 64 && d.magic == MAGIC
    ensures Holds(c, WriteMisc(c, misc, d, false)) && Held(c, WriteMisc(c, misc, d, false)) == d.slots
  {
    assert ReadsBack(c, d);
    assert WriteMisc(c, misc, d, false)[..64] == c.image(d);
  }

  /** The slots a call works towards: normalized, and with a try of the chosen slot spent. */
  function Target(s: Slots): Slots {
    var n := NormalizedSlots(s);
    match Choice(n) case None => n case Some(w) => Spent(n, w)
  }

  /** What a call that finds a valid record does: it reports no invalid metadata, and leaves the disk
      as it is or its target slots on it.  It hands out a slot only in the second case or when the
      target is what the disk held already. */
  lemma StepKeepsRecord(c: Codec, misc: seq<bv8>, f: Faults)
    requires Lawful(c) && Holds(c, misc)
    ensures var out := Flow(c, misc, f);
            var s := Held(c, misc);
            && Holds(c, out.misc) && out.result != ErrorInvalidMetadata
            && (Held(c, out.misc) == s || Held(c, out.misc) == Target(s))
            && (out.result == ErrorNoValidSlots ==> Choice(NormalizedSlots(s)).None?)
            && (out.result == ResultOk ==> Choice(NormalizedSlots(s)).Some?)
            && (out.result == ResultOk || out.result == ErrorNoValidSlots ==> Held(c, out.misc) == Target(s))
            && out.chosen == (if out.result == ResultOk then Choice(NormalizedSlots(s)) else None)
            && (!f.read && !f.write ==> out.result == ResultOk || out.result == ErrorNoValidSlots)
  {
    var d := c.accept(misc[..64]).value;
    assert ChecksMagic(c, misc[..64]);
    HeldAfterWrite(c, misc, d.(slots := Target(d.slots)));
  }

  lemma MarkClears(c: Codec, misc: seq<bv8>, w: Which, f: Faults)
    requires Lawful(c) && Holds(c, misc) && Mark(c, misc, Some(w), f).0 == Marked
    ensures var m := Mark(c, misc, Some(w), f).1;
            Holds(c, m) && Held(c, m) == WithSlot(Held(c, misc), w, ZERO_SLOT)
  {
    var d := c.accept(misc[..64]).value;
    assert ChecksMagic(c, misc[..64]);
    HeldAfterWrite(c, misc, d.(slots := WithSlot(d.slots, w, ZERO_SLOT)));
  }

  /** What marking does to a valid record: it clears the slot named or leaves the disk as it is. */
  lemma MarkKeepsRecord(c: Codec, misc: seq<bv8>, suffix: Option<Which>, f: Faults)
    requires Lawful(c) && Holds(c, misc)
    ensures var (r, m) := Mark(c, misc, suffix, f);
            && Holds(c, m) && r != NotRead(ErrorInvalidMetadata)
            && (if r == Marked then suffix.Some? && Held(c, m) == WithSlot(Held(c, misc), suffix.value, ZERO_SLOT)
                else m == misc)
  {
    if Mark(c, misc, suffix, f).0 == Marked { MarkClears(c, misc, suffix.value, f); }
  }

  // ----- What a call means, on the fields of the record held -----

  predicate CanBoot(s: Slot) { s.priority > 0 && (s.triesRemaining > 0 || s.successfulBoot) }

  /** Slot `p` is preferred over slot `w` when both can boot. */
  predicate Preferred(d: Slots, p: Which, w: Which) {
    SlotOf(d, p).priority > SlotOf(d, w).priority || (p == A && SlotOf(d, p).priority == SlotOf(d, w).priority)
  }

  /** Slot `w` can boot, and no other slot that can is preferred. */
  predicate IsBest(s: Slots, w: Which) {
    CanBoot(SlotOf(s, w)) && (CanBoot(SlotOf(s, w.Other())) ==> Preferred(s, w, w.Other()))
  }

  /** The attributes are in a state the boot loader does not leave on disk. */
  predicate IsIrregular(s: Slot) {
    if CanBoot(s) then s.triesRemaining > 0 && s.successfulBoot
    else s.priority > 0 || s.triesRemaining > 0 || s.successfulBoot
  }

  predicate NeedsWrite(s: Slots) {
    || IsIrregular(s.a) || IsIrregular(s.b)
    || (IsBest(s, A) && s.a.triesRemaining > 0) || (IsBest(s, B) && s.b.triesRemaining > 0)
  }

  /** What a finished call makes of one slot. */
  ghost predicate SlotBecomes(before: Slot, after: Slot, chosen: bool) {
    && after.priority == (if CanBoot(before) then before.priority else 0)
    && after.triesRemaining == (if !CanBoot(before) then 0
                                else if chosen && before.triesRemaining > 0 then before.triesRemaining - 1
                                else before.triesRemaining)
    && after.successfulBoot == (CanBoot(before) && before.successfulBoot && before.triesRemaining == 0)
    && after.reserved == (if !CanBoot(before) && IsIrregular(before) then [0, 0, 0, 0, 0, 0, 0] else before.reserved)
  }

  lemma ChoiceIsBest(s: Slots, w: Which)
    ensures Choice(NormalizedSlots(s)) == Some(w) <==> IsBest(s, w)
  {}

  lemma NothingToWrite(s: Slots)
    ensures Target(s) == s <==> !NeedsWrite(s)
  {}

  /** A slot handed out can boot; if both can it is the one of higher priority, or A when they are equal. */
  lemma ChosenIsBest(c: Codec, misc: seq<bv8>, f: Faults, w: Which)
    requires Lawful(c) && Holds(c, misc) && Flow(c, misc, f).chosen == Some(w)
    ensures var s := Held(c, misc);
            var (mine, other) := if w == A then (s.a, s.b) else (s.b, s.a);
            && CanBoot(mine)
            && (CanBoot(other) ==> mine.priority > other.priority || (mine.priority == other.priority && w == A))
  {
    StepKeepsRecord(c, misc, f);
  }

  /** The result of a call, in every case. */
  lemma ResultMeans(c: Codec, misc: seq<bv8>, f: Faults)
    requires Lawful(c)
    ensures var out := Flow(c, misc, f);
            && out.result == (if f.read || |misc| < 64 then ErrorReadMetadata
                              else if !Holds(c, misc) then ErrorInvalidMetadata
                              else if NeedsWrite(Held(c, misc)) && f.write then ErrorWriteMetadata
                              else if CanBoot(Held(c, misc).a) || CanBoot(Held(c, misc).b) then ResultOk
                              else ErrorNoValidSlots)
            && (out.chosen.Some? <==> out.result == ResultOk)
            && (out.chosen.Some? ==> IsBest(Held(c, misc), out.chosen.value))
  {
    if Holds(c, misc) {
      var s := Held(c, misc);
      StepKeepsRecord(c, misc, f);
      NothingToWrite(s);
      ChoiceIsBest(s, A);
      ChoiceIsBest(s, B);
    }
  }

  lemma TargetBecomes(s: Slots, w: Which)
    ensures SlotBecomes(SlotOf(s, w), SlotOf(Target(s), w), IsBest(s, w))
  {}

  /** The record a call leaves: each slot as SlotBecomes says when a slot or its absence is reported, all
      bytes as they were on any error of reading or writing. */
  lemma DiskMeans(c: Codec, misc: seq<bv8>, f: Faults, w: Which)
    requires Lawful(c)
    ensures var out := Flow(c, misc, f);
            && (out.result == ResultOk || out.result == ErrorNoValidSlots ==>
                  Holds(c, misc) && Holds(c, out.misc)
                  && SlotBecomes(SlotOf(Held(c, misc), w), SlotOf(Held(c, out.misc), w), out.chosen == Some(w)))
            && (out.result == ErrorReadMetadata || out.result == ErrorWriteMetadata ==> out.misc == misc)
  {
    ResultMeans(c, misc, f);
    if Holds(c, misc) {
      StepKeepsRecord(c, misc, f);
      TargetBecomes(Held(c, misc), w);
      ChoiceIsBest(Held(c, misc), w);
    }
  }

  /** After a reset both slots have priority 15 and seven tries, and the next choice hands out slot A. */
  lemma ResetHandsOutA(c: Codec, misc: seq<bv8>)
    requires Lawful(c) && |misc| >= 64 && !Holds(c, misc)
    ensures var m := Flow(c, misc, NO_FAULTS).misc;
            && Holds(c, m) && Flow(c, m, NO_FAULTS).chosen == Some(A)
            && Held(c, m) == Slots(Slot(15, 7, false, [0, 0, 0, 0, 0, 0, 0]), Slot(15, 7, false, [0, 0, 0, 0, 0, 0, 0]))
  {
    HeldAfterWrite(c, misc, ResetData());
    StepKeepsRecord(c, Flow(c, misc, NO_FAULTS).misc, NO_FAULTS);
  }

  /** The result of marking, in every case, and what it does to the record. */
  lemma MarkMeans(c: Codec, misc: seq<bv8>, suffix: Option<Which>, f: Faults)
    requires Lawful(c)
    ensures var (r, m) := Mark(c, misc, suffix, f);
            && r == (if f.read || |misc| < 64 then NotRead(ErrorReadMetadata)
                     else if !Holds(c, misc) then NotRead(ErrorInvalidMetadata)
                     else if suffix.None? then UnknownSuffix
                     else if f.write then NotWritten
                     else Marked)
            && (r == Marked ==>
                  Holds(c, m) && SlotOf(Held(c, m), suffix.value) == Slot(0, 0, false, [0, 0, 0, 0, 0, 0, 0])
                  && SlotOf(Held(c, m), suffix.value.Other()) == SlotOf(Held(c, misc), suffix.value.Other()))
            && (r != Marked ==> m == misc)
  {
    if Holds(c, misc) { MarkKeepsRecord(c, misc, suffix, f); }
  }

  // ----- Any run of calls, each with its own faults -----

  /** The two calls the main loop makes: choose a slot, and mark the slot of a suffix invalid. */
  datatype Call = Choose(faults: Faults) | MarkInvalid(suffix: Option<Which>, faults: Faults)

  function MiscAfter(c: Codec, misc: seq<bv8>, call: Call): seq<bv8> {
    match call
    case Choose(f) => Flow(c, misc, f).misc
    case MarkInvalid(suffix, f) => Mark(c, misc, suffix, f).1
  }

  predicate ReportsInvalid(c: Codec, misc: seq<bv8>, call: Call) {
    match call
    case Choose(f) => Flow(c, misc, f).result == ErrorInvalidMetadata
    case MarkInvalid(suffix, f) => Mark(c, misc, suffix, f).0 == NotRead(ErrorInvalidMetadata)
  }

  predicate CallHandsOutUntried(c: Codec, misc: seq<bv8>, call: Call) {
    call.Choose? && HandsOutUntried(c, misc, Flow(c, misc, call.faults))
  }

  function After(c: Codec, misc: seq<bv8>, calls: seq<Call>): (m: seq<bv8>)
    decreases |calls|
  {
    if calls == [] then misc else After(c, MiscAfter(c, misc, calls[0]), calls[1..])
  }

  /** How many of the calls hand out a slot not known to boot. */
  function UntriedHandouts(c: Codec, misc: seq<bv8>, calls: seq<Call>): nat
    decreases |calls|
  {
    if calls == [] then 0
    else
      (if CallHandsOutUntried(c, misc, calls[0]) then 1 else 0)
      + UntriedHandouts(c, MiscAfter(c, misc, calls[0]), calls[1..])
  }

  lemma {:induction false} AfterSplits(c: Codec, misc: seq<bv8>, calls: seq<Call>, more: seq<Call>)
    ensures After(c, misc, calls + more) == After(c, After(c, misc, calls), more)
    decreases |calls|
  {
    if calls == [] {
      assert calls + more == more;
    } else {
      assert (calls + more)[1..] == calls[1..] + more;
      AfterSplits(c, MiscAfter(c, misc, calls[0]), calls[1..], more);
    }
  }

  lemma AfterNext(c: Codec, misc: seq<bv8>, calls: seq<Call>, i: nat)
    requires i < |calls|
    ensures After(c, misc, calls[..i + 1]) == MiscAfter(c, After(c, misc, calls[..i]), calls[i])
  {
    assert calls[..i + 1] == calls[..i] + [calls[i]];
    AfterSplits(c, misc, calls[..i], [calls[i]]);
    assert [calls[i]][1..] == [];
  }

  // ----- Tries are never overspent -----

  /** A slot not known to boot is handed out only after the record with one try less is on disk. */
  lemma HandoutIsRecorded(c: Codec, misc: seq<bv8>, f: Faults)
    requires Lawful(c) && HandsOutUntried(c, misc, Flow(c, misc, f))
    ensures var out := Flow(c, misc, f);
            var w := out.chosen.value;
            var n := NormalizedSlots(Held(c, misc));
            out.result == ResultOk && Holds(c, out.misc)
            && Held(c, out.misc)
                 == WithSlot(n, w, SlotOf(n, w).(triesRemaining := SlotOf(n, w).triesRemaining - 1))
  {
    StepKeepsRecord(c, misc, f);
  }

  lemma ResetIsHeld(c: Codec, misc: seq<bv8>, f: Faults)
    requires Lawful(c)
    requires !Holds(c, misc)
    ensures Flow(c, misc, f).misc == misc || (Holds(c, Flow(c, misc, f).misc) && Tries(Held(c, Flow(c, misc, f).misc)) == 14)
    ensures Flow(c, misc, f).chosen == None
  {
    if CanWrite(misc, f.write) { HeldAfterWrite(c, misc, ResetData()); }
  }

  lemma StepSpends(c: Codec, misc: seq<bv8>, f: Faults)
    requires Lawful(c)
    ensures var out := Flow(c, misc, f);
            (if HandsOutUntried(c, misc, out) then 1 else 0) + Budget(c, out.misc) <= Budget(c, misc)
  {
    if Holds(c, misc) {
      StepKeepsRecord(c, misc, f);
      if HandsOutUntried(c, misc, Flow(c, misc, f)) { HandoutIsRecorded(c, misc, f); }
    } else {
      ResetIsHeld(c, misc, f);
    }
  }

  lemma MarkSpends(c: Codec, misc: seq<bv8>, suffix: Option<Which>, f: Faults)
    requires Lawful(c)
    ensures Budget(c, Mark(c, misc, suffix, f).1) <= Budget(c, misc)
  {
    if Holds(c, misc) { MarkKeepsRecord(c, misc, suffix, f); }
  }

  lemma CallSpends(c: Codec, misc: seq<bv8>, call: Call)
    requires Lawful(c)
    ensures (if CallHandsOutUntried(c, misc, call) then 1 else 0) + Budget(c, MiscAfter(c, misc, call)) <= Budget(c, misc)
  {
    match call
    case Choose(f) => StepSpends(c, misc, f);
    case MarkInvalid(suffix, f) => MarkSpends(c, misc, suffix, f);
  }

  /** Over any run of slot choices and invalidations from any bytes, with any failures, the hand-outs of
      slots not known to boot and the tries left on disk never exceed the tries at the start, at most 14. */
  lemma {:induction false} TriesNeverOverspent(c: Codec, misc: seq<bv8>, calls: seq<Call>)
    requires Lawful(c)
    ensures UntriedHandouts(c, misc, calls) + Budget(c, After(c, misc, calls)) <= Budget(c, misc) <= 14
    decreases |calls|
  {
    if calls != [] {
      CallSpends(c, misc, calls[0]);
      TriesNeverOverspent(c, MiscAfter(c, misc, calls[0]), calls[1..]);
    }
  }

  // ----- Invalid metadata never recurs -----

  lemma CallKeepsRecord(c: Codec, misc: seq<bv8>, call: Call)
    requires Lawful(c) && Holds(c, misc)
    ensures Holds(c, MiscAfter(c, misc, call)) && !ReportsInvalid(c, misc, call)
  {
    match call
    case Choose(f) => StepKeepsRecord(c, misc, f);
    case MarkInvalid(suffix, f) => MarkKeepsRecord(c, misc, suffix, f);
  }

  lemma {:induction false} HoldsForever(c: Codec, misc: seq<bv8>, calls: seq<Call>)
    requires Lawful(c)
    requires Holds(c, misc)
    ensures Holds(c, After(c, misc, calls))
    decreases |calls|
  {
    if calls != [] {
      CallKeepsRecord(c, misc, calls[0]);
      HoldsForever(c, MiscAfter(c, misc, calls[0]), calls[1..]);
    }
  }

  lemma ChangeMeansHolds(c: Codec, misc: seq<bv8>, call: Call)
    requires Lawful(c)
    requires MiscAfter(c, misc, call) != misc
    ensures Holds(c, MiscAfter(c, misc, call))
  {
    if Holds(c, misc) {
      CallKeepsRecord(c, misc, call);
    } else if call.Choose? {
      ResetIsHeld(c, misc, call.faults);
    }
  }

  /** Once any call has changed the disk, no later call of the run reports invalid metadata. */
  lemma InvalidNeverRecurs(c: Codec, misc: seq<bv8>, calls: seq<Call>, i: nat, j: nat)
    requires Lawful(c)
    requires i < j < |calls|
    requires After(c, misc, calls[..i + 1]) != After(c, misc, calls[..i])
    ensures !ReportsInvalid(c, After(c, misc, calls[..j]), calls[j])
  {
    AfterNext(c, misc, calls, i);
    ChangeMeansHolds(c, After(c, misc, calls[..i]), calls[i]);
    assert calls[..j] == calls[..i + 1] + calls[i + 1..j];
    AfterSplits(c, misc, calls[..i + 1], calls[i + 1..j]);
    HoldsForever(c, After(c, misc, calls[..i + 1]), calls[i + 1..j]);
    CallKeepsRecord(c, After(c, misc, calls[..j]), calls[j]);
  }

  // ----- A successful slot survives -----

  predicate IsSuccessful(s: Slot) { s.priority > 0 && s.triesRemaining == 0 && s.successfulBoot }

  lemma SuccessfulSurvivesStep(c: Codec, misc: seq<bv8>, f: Faults, w: Which)
    requires Lawful(c)
    requires Holds(c, misc) && IsSuccessful(SlotOf(Held(c, misc), w))
    ensures var out := Flow(c, misc, f);
            Holds(c, out.misc) && SlotOf(Held(c, out.misc), w) == SlotOf(Held(c, misc), w)
            && out.result != ErrorNoValidSlots && out.result != ErrorInvalidMetadata
  {
    StepKeepsRecord(c, misc, f);
  }

  lemma SuccessfulSurvivesCall(c: Codec, misc: seq<bv8>, call: Call, w: Which)
    requires Lawful(c)
    requires Holds(c, misc) && IsSuccessful(SlotOf(Held(c, misc), w))
    requires call.MarkInvalid? ==> call.suffix != Some(w)
    ensures Holds(c, MiscAfter(c, misc, call)) && SlotOf(Held(c, MiscAfter(c, misc, call)), w) == SlotOf(Held(c, misc), w)
  {
    match call
    case Choose(f) => SuccessfulSurvivesStep(c, misc, f, w);
    case MarkInvalid(suffix, f) => MarkKeepsRecord(c, misc, suffix, f);
  }

  /** Whatever fails, no run of calls alters a successful slot it does not itself mark invalid, and after
      it no choice finds no valid slot, or invalid metadata. */
  lemma {:induction false} SuccessfulSurvives(c: Codec, misc: seq<bv8>, calls: seq<Call>, w: Which, f: Faults)
    requires Lawful(c)
    requires Holds(c, misc) && IsSuccessful(SlotOf(Held(c, misc), w))
    requires forall call | call in calls && call.MarkInvalid? :: call.suffix != Some(w)
    ensures var m := After(c, misc, calls);
            && Holds(c, m) && SlotOf(Held(c, m), w) == SlotOf(Held(c, misc), w)
            && Flow(c, m, f).result != ErrorNoValidSlots && Flow(c, m, f).result != ErrorInvalidMetadata
    decreases |calls|
  {
    if calls == [] {
      SuccessfulSurvivesStep(c, misc, f, w);
    } else {
      assert calls[0] in calls;
      SuccessfulSurvivesCall(c, misc, calls[0], w);
      SuccessfulSurvives(c, MiscAfter(c, misc, calls[0]), calls[1..], w, f);
    }
  }

  // ----- With working I/O every run settles -----

  /** One boot with working I/O, as a function of the disk. */
  function BootOf(c: Codec): seq<bv8> -> seq<bv8> { m => Flow(c, m, NO_FAULTS).misc }

  /** The misc partition after `n` boots with working I/O. */
  function Boots(c: Codec, misc: seq<bv8>, n: nat): seq<bv8> { Iterate(BootOf(c), misc, n) }

  /** The record on disk gives every later call the same answer. */
  predicate Settled(c: Codec, misc: seq<bv8>) {
    Holds(c, misc)
    && var n := NormalizedSlots(Held(c, misc));
       Choice(n).Some? ==> SlotOf(n, Choice(n).value).triesRemaining == 0
  }

  /** Nothing left to write either. */
  predicate Quiet(c: Codec, misc: seq<bv8>) { Settled(c, misc) && NormalizedSlots(Held(c, misc)) == Held(c, misc) }

  predicate Answers(c: Codec, misc: seq<bv8>, f: Faults, chosen: Option<Which>) {
    Flow(c, misc, f).chosen == chosen && Flow(c, misc, f).result == if chosen.Some? then ResultOk else ErrorNoValidSlots
  }

  lemma UnsettledSpends(c: Codec, misc: seq<bv8>)
    requires Lawful(c)
    requires |misc| >= 64 && !Settled(c, misc)
    ensures var m := Flow(c, misc, NO_FAULTS).misc;
            Holds(c, m) && (Holds(c, misc) ==> Tries(Held(c, m)) < Tries(Held(c, misc)))
  {
    if Holds(c, misc) {
      StepKeepsRecord(c, misc, NO_FAULTS);
    } else {
      HeldAfterWrite(c, misc, ResetData());
    }
  }

  lemma SettledStep(c: Codec, misc: seq<bv8>)
    requires Lawful(c)
    requires Settled(c, misc)
    ensures var chosen := Choice(NormalizedSlots(Held(c, misc)));
            var m := Flow(c, misc, NO_FAULTS).misc;
            Answers(c, misc, NO_FAULTS, chosen) && Quiet(c, m) && Choice(NormalizedSlots(Held(c, m))) == chosen
  {
    StepKeepsRecord(c, misc, NO_FAULTS);
  }

  /** A quiet disk answers the same without writing: even a failing write changes nothing. */
  lemma QuietStep(c: Codec, misc: seq<bv8>, writeFails: bool)
    requires Quiet(c, misc)
    ensures var chosen := Choice(NormalizedSlots(Held(c, misc)));
            Answers(c, misc, Faults(false, writeFails), chosen) && Flow(c, misc, Faults(false, writeFails)).misc == misc
  {}

  function StepsToSettle(c: Codec, misc: seq<bv8>): nat { if Holds(c, misc) then Tries(Held(c, misc)) else 15 }

  predicate LongEnough(misc: seq<bv8>) { |misc| >= 64 }

  function Measure(c: Codec): seq<bv8> -> nat { m => StepsToSettle(c, m) }

  function IsSettled(c: Codec): seq<bv8> -> bool { m => Settled(c, m) }

  function SettledOn(c: Codec, chosen: Option<Which>): seq<bv8> -> bool {
    m => Settled(c, m) && Choice(NormalizedSlots(Held(c, m))) == chosen
  }

  function QuietOn(c: Codec, chosen: Option<Which>): seq<bv8> -> bool {
    m => Quiet(c, m) && Choice(NormalizedSlots(Held(c, m))) == chosen
  }

  lemma BootKeepsLength(c: Codec, misc: seq<bv8>)
    ensures Preserves(BootOf(c), LongEnough, misc)
  {}

  lemma BootDescends(c: Codec, misc: seq<bv8>)
    requires Lawful(c) && LongEnough(misc)
    ensures Descends(BootOf(c), Measure(c), IsSettled(c), misc)
  {
    if !Settled(c, misc) { UnsettledSpends(c, misc); }
  }

  lemma SettlesBy(c: Codec, misc: seq<bv8>) returns (n: nat)
    requires Lawful(c) && LongEnough(misc)
    ensures n <= Measure(c)(misc) && IsSettled(c)(Boots(c, misc, n))
  {
    forall m ensures Preserves(BootOf(c), LongEnough, m) { BootKeepsLength(c, m); }
    forall m | LongEnough(m) ensures Descends(BootOf(c), Measure(c), IsSettled(c), m) { BootDescends(c, m); }
    n := ReachesDone(BootOf(c), LongEnough, Measure(c), IsSettled(c), misc);
  }

  lemma BootKeepsSettled(c: Codec, chosen: Option<Which>, misc: seq<bv8>)
    requires Lawful(c)
    ensures Preserves(BootOf(c), SettledOn(c, chosen), misc)
    ensures LeadsTo(BootOf(c), SettledOn(c, chosen), QuietOn(c, chosen), misc)
  {
    if SettledOn(c, chosen)(misc) { SettledStep(c, misc); }
  }

  lemma SettledFrom(c: Codec, misc: seq<bv8>, n: nat, k: nat, chosen: Option<Which>)
    requires Lawful(c) && SettledOn(c, chosen)(Boots(c, misc, n)) && n <= k
    ensures SettledOn(c, chosen)(Boots(c, misc, k)) && (k > n ==> QuietOn(c, chosen)(Boots(c, misc, k)))
  {
    forall m
      ensures Preserves(BootOf(c), SettledOn(c, chosen), m)
      ensures LeadsTo(BootOf(c), SettledOn(c, chosen), QuietOn(c, chosen), m)
    {
      BootKeepsSettled(c, chosen, m);
    }
    KeepsFrom(BootOf(c), SettledOn(c, chosen), QuietOn(c, chosen), misc, n, k);
  }

  /** A boot answers `chosen`, and would even if its write failed, because it needs none. */
  predicate AnswersWithoutWriting(c: Codec, misc: seq<bv8>, chosen: Option<Which>) {
    && Answers(c, misc, NO_FAULTS, chosen) && Flow(c, misc, NO_FAULTS).misc == misc
    && Answers(c, misc, Faults(false, true), chosen)
  }

  lemma SettledAnswers(c: Codec, misc: seq<bv8>, chosen: Option<Which>)
    requires Lawful(c)
    ensures SettledOn(c, chosen)(misc) ==> Answers(c, misc, NO_FAULTS, chosen)
  {
    if SettledOn(c, chosen)(misc) { SettledStep(c, misc); }
  }

  lemma QuietAnswers(c: Codec, misc: seq<bv8>, chosen: Option<Which>)
    ensures QuietOn(c, chosen)(misc) ==> AnswersWithoutWriting(c, misc, chosen)
  {
    if QuietOn(c, chosen)(misc) {
      QuietStep(c, misc, false);
      QuietStep(c, misc, true);
    }
  }

  predicate SuccessfulOn(c: Codec, misc: seq<bv8>, w: Which) {
    Holds(c, misc) && IsSuccessful(SlotOf(Held(c, misc), w))
  }

  /** The slot of a settled disk, if there is one, is a successful one. */
  lemma SettledOnSuccessful(c: Codec, misc: seq<bv8>, w: Which)
    requires SettledOn(c, Some(w))(misc)
    ensures SuccessfulOn(c, misc, w)
  {}

  /** With working I/O there is a number of boots, at most one reset and the tries recorded, after
      which every boot gets one answer forever, the same successful slot or no valid slot; and from
      the boot after that nothing more is written. */
  lemma EveryRunSettles(c: Codec, misc: seq<bv8>) returns (n: nat, chosen: Option<Which>)
    requires Lawful(c) && |misc| >= 64
    ensures n <= if Holds(c, misc) then Tries(Held(c, misc)) else 1 + 14
    ensures SettledOn(c, chosen)(Boots(c, misc, n))
    ensures forall k | k >= n :: Answers(c, Boots(c, misc, k), NO_FAULTS, chosen)
    ensures forall k | k >= n && chosen.Some? :: SuccessfulOn(c, Boots(c, misc, k), chosen.value)
    ensures forall k | k > n :: AnswersWithoutWriting(c, Boots(c, misc, k), chosen)
  {
    n := SettlesBy(c, misc);
    chosen := Choice(NormalizedSlots(Held(c, Boots(c, misc, n))));
    forall k | k >= n
      ensures Answers(c, Boots(c, misc, k), NO_FAULTS, chosen)
      ensures chosen.Some? ==> SuccessfulOn(c, Boots(c, misc, k), chosen.value)
      ensures k > n ==> AnswersWithoutWriting(c, Boots(c, misc, k), chosen)
    {
      SettledFrom(c, misc, n, k, chosen);
      if chosen.Some? { SettledOnSuccessful(c, Boots(c, misc, k), chosen.value); }
      SettledAnswers(c, Boots(c, misc, k), chosen);
      QuietAnswers(c, Boots(c, misc, k), chosen);
    }
  }

  // ----- Fallback -----

  /** Slot `w` is successful and the other slot is preferred, with `t` tries. */
  predicate IsFallback(s: Slots, w: Which, t: nat) {
    IsSuccessful(SlotOf(s, w)) && Preferred(s, w.Other(), w) && SlotOf(s, w.Other()).triesRemaining == t > 0
  }

  /** Slot `w` is successful and the other slot has neither tries nor success. */
  predicate IsExhausted(s: Slots, w: Which) {
    && IsSuccessful(SlotOf(s, w))
    && SlotOf(s, w.Other()).triesRemaining == 0 && !SlotOf(s, w.Other()).successfulBoot
  }

  function Fallback(c: Codec, w: Which): (seq<bv8>, nat) -> bool {
    (m, t: nat) => Holds(c, m) && IsFallback(Held(c, m), w, t)
  }

  function Exhausted(c: Codec, w: Which): seq<bv8> -> bool {
    m => Holds(c, m) && IsExhausted(Held(c, m), w)
  }

  lemma FallbackTarget(s: Slots, w: Which, t: nat)
    requires IsFallback(s, w, t)
    ensures Choice(NormalizedSlots(s)) == Some(w.Other())
    ensures if t > 1 then IsFallback(Target(s), w, t - 1) else IsExhausted(Target(s), w)
  {}

  lemma ExhaustedTarget(s: Slots, w: Which)
    requires IsExhausted(s, w)
    ensures Choice(NormalizedSlots(s)) == Some(w) && IsExhausted(Target(s), w)
  {}

  lemma WorkingStep(c: Codec, misc: seq<bv8>)
    requires Lawful(c) && Holds(c, misc)
    ensures Answers(c, misc, NO_FAULTS, Choice(NormalizedSlots(Held(c, misc))))
    ensures Holds(c, BootOf(c)(misc)) && Held(c, BootOf(c)(misc)) == Target(Held(c, misc))
  {
    StepKeepsRecord(c, misc, NO_FAULTS);
  }

  lemma FallbackStep(c: Codec, misc: seq<bv8>, w: Which, t: nat)
    requires Lawful(c)
    ensures CountsDown(BootOf(c), Fallback(c, w), Exhausted(c, w), misc, t)
  {
    if Fallback(c, w)(misc, t) {
      FallbackTarget(Held(c, misc), w, t);
      WorkingStep(c, misc);
    }
  }

  lemma ExhaustedStep(c: Codec, misc: seq<bv8>, w: Which)
    requires Lawful(c)
    ensures Preserves(BootOf(c), Exhausted(c, w), misc)
  {
    if Exhausted(c, w)(misc) {
      ExhaustedTarget(Held(c, misc), w);
      WorkingStep(c, misc);
    }
  }

  lemma FallbackAnswers(c: Codec, misc: seq<bv8>, w: Which, t: nat)
    requires Lawful(c) && Fallback(c, w)(misc, t)
    ensures Answers(c, misc, NO_FAULTS, Some(w.Other()))
  {
    FallbackTarget(Held(c, misc), w, t);
    WorkingStep(c, misc);
  }

  lemma ExhaustedAnswers(c: Codec, misc: seq<bv8>, w: Which)
    requires Lawful(c) && Exhausted(c, w)(misc)
    ensures Answers(c, misc, NO_FAULTS, Some(w))
  {
    ExhaustedTarget(Held(c, misc), w);
    WorkingStep(c, misc);
  }

  lemma FallbackPhases(c: Codec, misc: seq<bv8>, w: Which, t: nat, k: nat)
    requires Lawful(c) && Fallback(c, w)(misc, t)
    ensures if k < t then Fallback(c, w)(Boots(c, misc, k), t - k) else Exhausted(c, w)(Boots(c, misc, k))
  {
    forall m, u ensures CountsDown(BootOf(c), Fallback(c, w), Exhausted(c, w), m, u) { FallbackStep(c, m, w, u); }
    forall m ensures Preserves(BootOf(c), Exhausted(c, w), m) { ExhaustedStep(c, m, w); }
    Countdown(BootOf(c), Fallback(c, w), Exhausted(c, w), misc, t, k);
  }

  /** A preferred slot with `t` tries is booted exactly `t` times, then the successful slot forever. */
  lemma FallbackAfterTries(c: Codec, misc: seq<bv8>, w: Which, t: nat, k: nat)
    requires Lawful(c) && Holds(c, misc) && IsFallback(Held(c, misc), w, t)
    ensures Answers(c, Boots(c, misc, k), NO_FAULTS, Some(if k < t then w.Other() else w))
  {
    FallbackPhases(c, misc, w, t, k);
    if k < t {
      FallbackAnswers(c, Boots(c, misc, k), w, t - k);
    } else {
      ExhaustedAnswers(c, Boots(c, misc, k), w);
    }
  }
}
