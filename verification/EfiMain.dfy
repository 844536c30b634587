/**
 The main loop: choose a slot, try to boot it, mark it invalid when its partition has a bad format,
 and choose again.  The source reads the result of marking the wrong way round; the loop is modelled
 both as intended and as written.
 */
module EfiMain {
  import opened Common
  import opened Gpt
  import opened PartitionIO
  import opened Volumes
  import opened AbRecord
  import opened AbFlow
  import opened AbRuns
  import opened AbControl
  import opened BootKernel

  /** What the outside decides in one turn of the loop. */
  datatype Turn = Turn(flow: Faults, boot: BootResult, mark: Faults)

  datatype End = Running | Booted | NoSlot(error: AbResult) | BootFailed | MarkFailed

  /** Where the loop stands: the misc partition and the slots whose boot was attempted, in order. */
  datatype State = State(end: End, misc: seq<bv8>, attempts: seq<Which>)

  /** When the loop aborts after marking: as intended, when the slot was not marked; as written, when
      the function returned nonzero. */
  predicate AbortsAfterMark(r: MarkResult, asWritten: bool) {
    if asWritten then MarkCode(r) != 0 else r != Marked
  }

  /** The turn after slot `w` was chosen and its try spent. */
  function AttemptSlot(c: Codec, s: State, w: Which, t: Turn, asWritten: bool): State {
    if t.boot == PartitionInvalidFormat then
      var (r, misc) := Mark(c, s.misc, Some(w), t.mark);
      State(if AbortsAfterMark(r, asWritten) then MarkFailed else Running, misc, s.attempts)
    else State(if t.boot == BootOk then Booted else BootFailed, s.misc, s.attempts)
  }

  function TakeTurn(c: Codec, s: State, t: Turn, asWritten: bool): State {
    var out := Flow(c, s.misc, t.flow);
    match out.chosen
    case None => State(NoSlot(out.result), out.misc, s.attempts)
    case Some(w) => AttemptSlot(c, State(Running, out.misc, s.attempts + [w]), w, t, asWritten)
  }

  /** The loop over any number of turns; once it has ended it stays as it is. */
  function Loop(c: Codec, misc: seq<bv8>, turns: seq<Turn>, asWritten: bool): State
    decreases |turns|
  {
    if turns == [] then State(Running, misc, [])
    else
      var s := Loop(c, misc, turns[..|turns| - 1], asWritten);
      if s.end != Running then s else TakeTurn(c, s, turns[|turns| - 1], asWritten)
  }

  // ----- How a run ends -----

  /** What the end of a run means, when all its turns but the last were followed by another: a slot was
      attempted in the last turn when there are as many attempts as turns. */
  predicate EndMeans(end: End, attempts: nat, turns: seq<Turn>, asWritten: bool)
    requires turns != []
  {
    var t := turns[|turns| - 1];
    var attempted := attempts == |turns|;
    var badFormat := attempted && t.boot == PartitionInvalidFormat;
    && (end == Booted <==> attempted && t.boot == BootOk)
    && (end == BootFailed <==> attempted && t.boot != BootOk && t.boot != PartitionInvalidFormat)
    && (end.NoSlot? <==> !attempted)
    && (end == MarkFailed <==> badFormat && (t.mark.read || (if asWritten then !t.mark.write else t.mark.write)))
    && (end == Running <==> badFormat && !t.mark.read && (if asWritten then t.mark.write else !t.mark.write))
  }

  lemma TurnMeans(c: Codec, s: State, t: Turn, asWritten: bool)
    requires Lawful(c) && s.end == Running
    ensures var s' := TakeTurn(c, s, t, asWritten);
            var attempted := s'.attempts != s.attempts;
            var badFormat := attempted && t.boot == PartitionInvalidFormat;
            && (if attempted then Holds(c, s.misc) && exists w :: s'.attempts == s.attempts + [w] && IsBest(Held(c, s.misc), w)
                else s'.end == NoSlot(Flow(c, s.misc, t.flow).result))
            && (s'.end == Booted <==> attempted && t.boot == BootOk)
            && (s'.end == BootFailed <==> attempted && t.boot != BootOk && t.boot != PartitionInvalidFormat)
            && (s'.end.NoSlot? <==> !attempted)
            && (s'.end == MarkFailed <==>
                badFormat && (t.mark.read || (if asWritten then !t.mark.write else t.mark.write)))
            && (s'.end == Running <==>
                badFormat && !t.mark.read && (if asWritten then t.mark.write else !t.mark.write))
  {
    var out := Flow(c, s.misc, t.flow);
    AbRuns.ResultMeans(c, s.misc, t.flow);
    if out.chosen.Some? {
      StepKeepsRecord(c, s.misc, t.flow);
      MarkMeans(c, out.misc, out.chosen, t.mark);
      assert TakeTurn(c, s, t, asWritten).attempts == s.attempts + [out.chosen.value];
    }
  }

  /** A turn leaves on misc what the choice left there, but that a slot attempted with a bad format is
      cleared when its marking works. */
  lemma TurnLeaves(c: Codec, s: State, t: Turn, asWritten: bool, w: Which)
    requires Lawful(c) && s.end == Running && TakeTurn(c, s, t, asWritten).attempts == s.attempts + [w]
    ensures var m, m' := Flow(c, s.misc, t.flow).misc, TakeTurn(c, s, t, asWritten).misc;
            if t.boot == PartitionInvalidFormat && !t.mark.read && !t.mark.write then
              && Holds(c, m) && Holds(c, m') && SlotOf(Held(c, m'), w) == Slot(0, 0, false, [0, 0, 0, 0, 0, 0, 0])
              && SlotOf(Held(c, m'), w.Other()) == SlotOf(Held(c, m), w.Other())
            else m' == m
  {
    var out := Flow(c, s.misc, t.flow);
    AbRuns.ResultMeans(c, s.misc, t.flow);
    assert (s.attempts + [w])[|s.attempts|] == w;
    StepKeepsRecord(c, s.misc, t.flow);
    MarkMeans(c, out.misc, out.chosen, t.mark);
  }

  lemma {:induction false} AttemptsOfRunning(c: Codec, misc: seq<bv8>, turns: seq<Turn>, asWritten: bool)
    requires Lawful(c) && Loop(c, misc, turns, asWritten).end == Running
    ensures |Loop(c, misc, turns, asWritten).attempts| == |turns|
    decreases |turns|
  {
    if turns != [] {
      AttemptsOfRunning(c, misc, turns[..|turns| - 1], asWritten);
      TurnMeans(c, Loop(c, misc, turns[..|turns| - 1], asWritten), turns[|turns| - 1], asWritten);
    }
  }

  /** The loop leaves a boot behind exactly when the slot attempted last booted, and every other end has
      its own cause in the last turn. */
  lemma LoopEndMeans(c: Codec, misc: seq<bv8>, turns: seq<Turn>, asWritten: bool)
    requires Lawful(c) && turns != [] && Loop(c, misc, turns[..|turns| - 1], asWritten).end == Running
    ensures EndMeans(Loop(c, misc, turns, asWritten).end, |Loop(c, misc, turns, asWritten).attempts|, turns, asWritten)
  {
    AttemptsOfRunning(c, misc, turns[..|turns| - 1], asWritten);
    TurnMeans(c, Loop(c, misc, turns[..|turns| - 1], asWritten), turns[|turns| - 1], asWritten);
  }

  // ----- The intended loop ends -----

  predicate Distinct(attempts: seq<Which>) { forall i, j | 0 <= i < j < |attempts| :: attempts[i] != attempts[j] }

  /** Each attempted slot is cleared on disk, and none was attempted twice. */
  predicate Cleared(c: Codec, s: State) {
    && (s.attempts != [] ==> Holds(c, s.misc) && forall w | w in s.attempts :: SlotOf(Held(c, s.misc), w) == ZERO_SLOT)
    && Distinct(s.attempts)
  }

  lemma ChosenWasBootable(c: Codec, misc: seq<bv8>, f: Faults)
    requires Lawful(c) && Flow(c, misc, f).chosen.Some?
    ensures var out := Flow(c, misc, f);
            var w := out.chosen.value;
            && Holds(c, misc) && Holds(c, out.misc) && out.result == ResultOk
            && IsBootable(Normalized(SlotOf(Held(c, misc), w)))
            && SlotOf(Held(c, out.misc), w.Other()) == Normalized(SlotOf(Held(c, misc), w.Other()))
  {
    StepKeepsRecord(c, misc, f);
  }

  lemma AttemptIsNew(c: Codec, s: State, f: Faults)
    requires Lawful(c) && Cleared(c, s) && Flow(c, s.misc, f).chosen.Some?
    ensures Flow(c, s.misc, f).chosen.value !in s.attempts
    ensures Distinct(s.attempts + [Flow(c, s.misc, f).chosen.value])
  {
    ChosenWasBootable(c, s.misc, f);
  }

  lemma TurnKeepsCleared(c: Codec, s: State, t: Turn)
    requires Lawful(c) && Cleared(c, s)
    ensures var s' := TakeTurn(c, s, t, false);
            Distinct(s'.attempts) && (s'.end == Running ==> Cleared(c, s') && |s'.attempts| == |s.attempts| + 1)
  {
    var out := Flow(c, s.misc, t.flow);
    if out.chosen.Some? {
      var w := out.chosen.value;
      AttemptIsNew(c, s, t.flow);
      ChosenWasBootable(c, s.misc, t.flow);
      if t.boot == PartitionInvalidFormat && Mark(c, out.misc, Some(w), t.mark).0 == Marked {
        MarkClears(c, out.misc, w, t.mark);
      }
    }
  }

  lemma {:induction false} RunningIsCleared(c: Codec, misc: seq<bv8>, turns: seq<Turn>)
    requires Lawful(c)
    ensures var s := Loop(c, misc, turns, false);
            Distinct(s.attempts) && (s.end == Running ==> Cleared(c, s) && |s.attempts| == |turns|)
    decreases |turns|
  {
    if turns != [] {
      var s := Loop(c, misc, turns[..|turns| - 1], false);
      RunningIsCleared(c, misc, turns[..|turns| - 1]);
      if s.end == Running { TurnKeepsCleared(c, s, turns[|turns| - 1]); }
    }
  }

  lemma ThreeRepeat(attempts: seq<Which>)
    requires |attempts| > 2
    ensures !Distinct(attempts)
  {
    var first, second, third := attempts[0], attempts[1], attempts[2];
    assert first == second || first == third || second == third;
  }

  /** As intended, the loop ends within three slot selections, whatever fails and whatever the boots
      answer, and attempts each slot at most once. */
  lemma IntendedLoopEnds(c: Codec, misc: seq<bv8>, turns: seq<Turn>)
    requires Lawful(c)
    ensures var s := Loop(c, misc, turns, false);
            Distinct(s.attempts) && |s.attempts| <= 2 && (|turns| >= 3 ==> s.end != Running)
  {
    RunningIsCleared(c, misc, turns);
    var s := Loop(c, misc, turns, false);
    if |s.attempts| > 2 { ThreeRepeat(s.attempts); }
  }

  function BootableCount(s: Slots): nat {
    (if IsBootable(Normalized(s.a)) then 1 else 0) + if IsBootable(Normalized(s.b)) then 1 else 0
  }

  /** As intended, a turn is followed by another only when it found a valid record and left one with
      strictly fewer bootable slots. */
  lemma BadFormatLowersBootable(c: Codec, s: State, t: Turn)
    requires Lawful(c) && TakeTurn(c, s, t, false).end == Running
    ensures var s' := TakeTurn(c, s, t, false);
            Holds(c, s.misc) && Holds(c, s'.misc)
            && BootableCount(Held(c, s'.misc)) < BootableCount(Held(c, s.misc))
  {
    var out := Flow(c, s.misc, t.flow);
    ChosenWasBootable(c, s.misc, t.flow);
    MarkClears(c, out.misc, out.chosen.value, t.mark);
  }

  // ----- The loop as written -----

  /** As written, a turn goes on to another exactly when the record can be read and names a bootable slot,
      the write the choice needs is made, the slot has a bad format, and its marking fails on the write;
      marking it with success aborts. */
  lemma AsWrittenGoesOnIff(c: Codec, s: State, t: Turn)
    requires Lawful(c) && s.end == Running
    ensures TakeTurn(c, s, t, true).end == Running
            <==> && !t.flow.read && Holds(c, s.misc) && Choice(NormalizedSlots(Held(c, s.misc))).Some?
                 && (Target(Held(c, s.misc)) == Held(c, s.misc) || !t.flow.write)
                 && t.boot == PartitionInvalidFormat && !t.mark.read && t.mark.write
  {
    var out := Flow(c, s.misc, t.flow);
    if Holds(c, s.misc) {
      StepKeepsRecord(c, s.misc, t.flow);
      MarkKeepsRecord(c, out.misc, out.chosen, t.mark);
    }
  }

  predicate HasSuccessful(c: Codec, misc: seq<bv8>) { SuccessfulOn(c, misc, A) || SuccessfulOn(c, misc, B) }

  /** As written, no run of the loop from this disk, whatever fails and whatever the boots answer, is
      still going after more than `bound` turns. */
  ghost predicate EndsWithin(c: Codec, misc: seq<bv8>, bound: nat) {
    forall turns: seq<Turn> :: Loop(c, misc, turns, true).end == Running ==> |turns| <= bound
  }

  lemma TargetWithoutSuccess(s: Slots)
    requires !IsSuccessful(s.a) && !IsSuccessful(s.b) && Choice(NormalizedSlots(s)).Some?
    ensures AbRuns.Tries(Target(s)) < AbRuns.Tries(s) && !IsSuccessful(Target(s).a) && !IsSuccessful(Target(s).b)
  {}

  /** Without a successful slot, a turn followed by another has used up a try. */
  lemma RunningTurnSpends(c: Codec, s: State, t: Turn)
    requires Lawful(c) && !HasSuccessful(c, s.misc) && TakeTurn(c, s, t, true).end == Running
    ensures var m := TakeTurn(c, s, t, true).misc; !HasSuccessful(c, m) && Budget(c, m) < Budget(c, s.misc)
  {
    var out := Flow(c, s.misc, t.flow);
    ChosenWasBootable(c, s.misc, t.flow);
    StepKeepsRecord(c, s.misc, t.flow);
    MarkKeepsRecord(c, out.misc, out.chosen, t.mark);
    TargetWithoutSuccess(Held(c, s.misc));
  }

  lemma {:induction false} RunningSpends(c: Codec, misc: seq<bv8>, turns: seq<Turn>)
    requires Lawful(c) && !HasSuccessful(c, misc)
    ensures var s := Loop(c, misc, turns, true);
            s.end == Running ==> !HasSuccessful(c, s.misc) && |turns| + Budget(c, s.misc) <= Budget(c, misc)
    decreases |turns|
  {
    if turns != [] {
      var s := Loop(c, misc, turns[..|turns| - 1], true);
      RunningSpends(c, misc, turns[..|turns| - 1]);
      if TakeTurn(c, s, turns[|turns| - 1], true).end == Running && s.end == Running {
        RunningTurnSpends(c, s, turns[|turns| - 1]);
      }
    }
  }

  /** Every boot finds a bad format and no marking is written, while the choice of slots works. */
  const UNMARKED := Turn(NO_FAULTS, PartitionInvalidFormat, Faults(false, true))

  lemma UnmarkedGoesOn(c: Codec, s: State)
    requires Lawful(c) && HasSuccessful(c, s.misc) && s.end == Running
    ensures var s' := TakeTurn(c, s, UNMARKED, true);
            s'.end == Running && HasSuccessful(c, s'.misc) && |s'.attempts| == |s.attempts| + 1
  {
    var w := if SuccessfulOn(c, s.misc, A) then A else B;
    SuccessfulSurvivesStep(c, s.misc, NO_FAULTS, w);
    StepKeepsRecord(c, s.misc, NO_FAULTS);
    MarkKeepsRecord(c, Flow(c, s.misc, NO_FAULTS).misc, Flow(c, s.misc, NO_FAULTS).chosen, UNMARKED.mark);
  }

  /** As written, the loop need not end: from any disk with a successful slot it can go on for any number
      of turns, attempting a slot in each. */
  lemma {:induction false} AsWrittenMayRunForever(c: Codec, misc: seq<bv8>, n: nat)
    requires Lawful(c) && HasSuccessful(c, misc)
    ensures var s := Loop(c, misc, seq(n, _ => UNMARKED), true);
            s.end == Running && HasSuccessful(c, s.misc) && |s.attempts| == n
  {
    if n > 0 {
      AsWrittenMayRunForever(c, misc, n - 1);
      assert seq(n, _ => UNMARKED)[..n - 1] == seq(n - 1, _ => UNMARKED);
      UnmarkedGoesOn(c, Loop(c, misc, seq(n - 1, _ => UNMARKED), true));
    }
  }

  /** On a quiet disk it is even the same slot that is tried again, for as long as its marking cannot be
      written, and nothing on disk changes. */
  lemma {:induction false} SameSlotForever(c: Codec, misc: seq<bv8>, n: nat)
    requires Lawful(c) && Quiet(c, misc) && Choice(Held(c, misc)).Some?
    ensures Loop(c, misc, seq(n, _ => UNMARKED), true) == State(Running, misc, seq(n, _ => Choice(Held(c, misc)).value))
  {
    var w := Choice(Held(c, misc)).value;
    if n > 0 {
      SameSlotForever(c, misc, n - 1);
      assert seq(n, _ => UNMARKED)[..n - 1] == seq(n - 1, _ => UNMARKED);
      assert seq(n, _ => w) == seq(n - 1, _ => w) + [w];
      QuietStep(c, misc, false);
    }
  }

  lemma EndsByBudget(c: Codec, misc: seq<bv8>)
    requires Lawful(c) && !HasSuccessful(c, misc)
    ensures EndsWithin(c, misc, Budget(c, misc))
  {
    forall turns: seq<Turn> | Loop(c, misc, turns, true).end == Running ensures |turns| <= Budget(c, misc) {
      RunningSpends(c, misc, turns);
    }
  }

  lemma OutlastsBound(c: Codec, misc: seq<bv8>, bound: nat)
    requires Lawful(c) && HasSuccessful(c, misc)
    ensures !EndsWithin(c, misc, bound)
  {
    AsWrittenMayRunForever(c, misc, bound + 1);
  }

  /** As written, the loop is certain to end exactly when the disk it starts from has no successful slot,
      and then within as many turns as there are tries on it. */
  lemma AsWrittenEndsIff(c: Codec, misc: seq<bv8>)
    requires Lawful(c)
    ensures (exists bound: nat :: EndsWithin(c, misc, bound)) <==> !HasSuccessful(c, misc)
    ensures !HasSuccessful(c, misc) ==> EndsWithin(c, misc, Budget(c, misc))
  {
    if !HasSuccessful(c, misc) {
      EndsByBudget(c, misc);
    } else if bound: nat :| EndsWithin(c, misc, bound) {
      OutlastsBound(c, misc, bound);
    }
  }

  // ----- The loop on the disk -----

  /** "boot_a" or "boot_b": the name prefix and the suffix without its terminator. */
  function BootName(suffix: seq<bv8>): seq<bv8>
    requires |suffix| == 3
  {
    [0x62, 0x6F, 0x6F, 0x74] + suffix[..2]
  }

  /** The partitions of the two slots. */
  lemma BootNames()
    ensures BootName(SuffixOf(Some(A))) == [0x62, 0x6F, 0x6F, 0x74, 0x5F, 0x61]
    ensures BootName(SuffixOf(Some(B))) == [0x62, 0x6F, 0x6F, 0x74, 0x5F, 0x62]
  {}

  lemma BootNameAskable(w: Which)
    ensures Askable(BootName(SuffixOf(Some(w))))
  {
    AsciiDecodes(BootName(SuffixOf(Some(w))));
  }

  /** What goes wrong, and what the firmware answers, in one turn. */
  datatype Environment = Environment(flowRead: Fault, flowWrite: Fault, firmware: Firmware,
                                     markRead: Fault, markWrite: Fault)

  function Fails(read: Fault, write: Fault): Faults { Faults(!read.Works?, !write.Works?) }

  /** The accesses to misc in a turn fail as the environment has them fail. */
  predicate FailsAs(t: Turn, e: Environment) {
    t.flow == Fails(e.flowRead, e.flowWrite) && t.mark == Fails(e.markRead, e.markWrite)
  }

  /** The disk and the header buffer as an attempt found them. */
  datatype Attempt = Attempt(bytes: seq<bv8>, head: Header)

  /** Turn `k` is what the environment and the attempt's own boot partition make of it. */
  ghost predicate TurnIsReal(l: Layout, start: seq<bv8>, misc: seq<bv8>, t: Turn, e: Environment, w: Which, a: Attempt)
    requires WellFormed(l, |start|) && Askable(misc)
  {
    && |a.bytes| == |start| && Becomes(l, misc, start, a.bytes, VolumeNamed(l, a.bytes, misc))
    && Askable(BootName(SuffixOf(Some(w))))
    && t == Turn(Fails(e.flowRead, e.flowWrite), Boot(l, a.bytes, BootName(SuffixOf(Some(w))), a.head, e.firmware).result,
                 Fails(e.markRead, e.markWrite))
  }

  lemma BecomesAgain(l: Layout, misc: seq<bv8>, first: seq<bv8>, second: seq<bv8>, third: seq<bv8>,
      m: seq<bv8>, m': seq<bv8>)
    requires WellFormed(l, |first|) && |third| == |second| == |first| && Askable(misc)
    requires Becomes(l, misc, first, second, m) && Becomes(l, misc, second, third, m')
    ensures Becomes(l, misc, first, third, m')
  {
    match Lookup(l.entries, misc)
    case None =>
    case Some(i) =>
      RangeAgain(first, second, third, Start(l, i), Volumes.End(l, i), m, m');
  }

  lemma LoopSnoc(c: Codec, misc: seq<bv8>, turns: seq<Turn>, t: Turn, asWritten: bool)
    requires Loop(c, misc, turns, asWritten).end == Running
    ensures Loop(c, misc, turns + [t], asWritten) == TakeTurn(c, Loop(c, misc, turns, asWritten), t, asWritten)
  {
    assert (turns + [t])[..|turns|] == turns;
  }

  /** One attempt to boot the slot of `suffix`, and its invalidation when the format is bad. */
  method TryBoot(control: AbControl, suffix: seq<bv8>, ghost w: Which, e: Environment, asWritten: bool)
      returns (end: End, ghost attempt: Attempt)
    requires control.Valid() && suffix == SuffixOf(Some(w))
    modifies control.disk.bytes
    ensures attempt.bytes == old(control.disk.bytes[..])
    ensures Askable(BootName(suffix))
    ensures var boot := Boot(control.disk.layout, attempt.bytes, BootName(suffix), attempt.head, e.firmware).result;
            var t := Turn(NO_FAULTS, boot, Fails(e.markRead, e.markWrite));
            var s := AttemptSlot(BOOT_CODEC, State(Running, old(control.Misc()), []), w, t, asWritten);
            && end == s.end
            && Becomes(control.disk.layout, control.misc, old(control.disk.bytes[..]), control.disk.bytes[..], s.misc)
  {
    BootNameAskable(w);
    SuffixInverse(w);
    BecomesItself(control.disk.layout, control.misc, control.disk.bytes[..]);
    var headBuf := new bv8[HEADER_SIZE];
    attempt := Attempt(control.disk.bytes[..], headBuf[..]);
    var result, _, _ := BubBootKernel(control.disk, BootName(suffix), headBuf, e.firmware);
    if result == PartitionInvalidFormat {
      var marked := control.BubAbMarkAsInvalid(suffix, e.markRead, e.markWrite);
      return if AbortsAfterMark(marked, asWritten) then MarkFailed else Running, attempt;
    }
    return if result != BootOk then BootFailed else Booted, attempt;
  }

  lemma TurnOfAttempt(c: Codec, misc: seq<bv8>, t: Turn, t': Turn, w: Which, asWritten: bool)
    requires Flow(c, misc, t.flow).chosen == Some(w) && t'.boot == t.boot && t'.mark == t.mark
    ensures var s := TakeTurn(c, State(Running, misc, []), t, asWritten);
            var s' := AttemptSlot(c, State(Running, Flow(c, misc, t.flow).misc, []), w, t', asWritten);
            s.end == s'.end && s.misc == s'.misc && s.attempts == [w]
  {}

  lemma OkMeansChosen(c: Codec, misc: seq<bv8>, f: Faults)
    ensures Flow(c, misc, f).result == ResultOk <==> Flow(c, misc, f).chosen.Some?
  {}

  lemma TurnWithoutSlot(c: Codec, misc: seq<bv8>, t: Turn, asWritten: bool)
    requires Flow(c, misc, t.flow).chosen == None
    ensures var out := Flow(c, misc, t.flow);
            TakeTurn(c, State(Running, misc, []), t, asWritten) == State(NoSlot(out.result), out.misc, [])
  {}

  /** One more turn, as TurnOnce reports it. */
  ghost predicate Turned(l: Layout, misc: seq<bv8>, here: seq<bv8>, now: seq<bv8>, e: Environment,
      end: End, chosen: Option<Which>, t: Turn, a: Attempt, asWritten: bool)
    requires WellFormed(l, |here|) && Askable(misc)
  {
    var s := TakeTurn(BOOT_CODEC, State(Running, VolumeNamed(l, here, misc), []), t, asWritten);
    && |now| == |here| && end == s.end && s.attempts == (if chosen.Some? then [chosen.value] else [])
    && Becomes(l, misc, here, now, s.misc) && FailsAs(t, e)
    && (chosen.Some? ==> TurnIsReal(l, here, misc, t, e, chosen.value, a))
  }

  /** One turn of the loop. */
  method TurnOnce(control: AbControl, e: Environment, asWritten: bool)
      returns (end: End, chosen: Option<Which>, ghost turn: Turn, ghost attempt: Attempt)
    requires control.Valid()
    modifies control.disk.bytes
    ensures Turned(control.disk.layout, control.misc, old(control.disk.bytes[..]), control.disk.bytes[..], e,
                   end, chosen, turn, attempt, asWritten)
  {
    ghost var l, misc, start := control.disk.layout, control.misc, control.disk.bytes[..];
    var result, suffix := control.BubAbFlow(e.flowRead, e.flowWrite);
    ghost var out := Flow(BOOT_CODEC, VolumeNamed(l, start, misc), Fails(e.flowRead, e.flowWrite));
    BecomesMisc(l, misc, start, control.disk.bytes[..], out.misc);
    OkMeansChosen(BOOT_CODEC, VolumeNamed(l, start, misc), Fails(e.flowRead, e.flowWrite));
    if result != ResultOk {
      turn := Turn(Fails(e.flowRead, e.flowWrite), BootOk, Fails(e.markRead, e.markWrite));
      TurnWithoutSlot(BOOT_CODEC, VolumeNamed(l, start, misc), turn, asWritten);
      return NoSlot(result), None, turn, Attempt(start, seq(HEADER_SIZE, _ => 0));
    }
    chosen := SlotWithSuffix(suffix);
    ghost var w := out.chosen.value;
    SuffixInverse(w);
    end, attempt := TryBoot(control, suffix, w, e, asWritten);
    turn := Turn(Fails(e.flowRead, e.flowWrite),
                 Boot(l, attempt.bytes, BootName(suffix), attempt.head, e.firmware).result,
                 Fails(e.markRead, e.markWrite));
    ghost var t' := turn.(flow := NO_FAULTS);
    ghost var s' := AttemptSlot(BOOT_CODEC, State(Running, out.misc, []), w, t', asWritten);
    TurnOfAttempt(BOOT_CODEC, VolumeNamed(l, start, misc), turn, t', w, asWritten);
    BecomesAgain(l, misc, start, attempt.bytes, control.disk.bytes[..], out.misc, s'.misc);
  }

  lemma AppendAttempts(c: Codec, misc: seq<bv8>, before: seq<Which>, t: Turn, asWritten: bool)
    ensures var s := TakeTurn(c, State(Running, misc, []), t, asWritten);
            TakeTurn(c, State(Running, misc, before), t, asWritten) == State(s.end, s.misc, before + s.attempts)
            && (s.end == Running ==> |s.attempts| == 1)
  {}

  /** What one more turn makes of the whole run. */
  lemma FinishTurn(l: Layout, misc: seq<bv8>, start: seq<bv8>, here: seq<bv8>, now: seq<bv8>,
      turns: seq<Turn>, t: Turn, before: seq<Which>, s: State, asWritten: bool)
    requires WellFormed(l, |start|) && Askable(misc) && |now| == |here| == |start|
    requires Becomes(l, misc, start, here, VolumeNamed(l, here, misc))
    requires Loop(BOOT_CODEC, VolumeNamed(l, start, misc), turns, asWritten)
          == State(Running, VolumeNamed(l, here, misc), before)
    requires s == TakeTurn(BOOT_CODEC, State(Running, VolumeNamed(l, here, misc), []), t, asWritten)
    requires Becomes(l, misc, here, now, s.misc)
    ensures Becomes(l, misc, start, now, s.misc) && VolumeNamed(l, now, misc) == s.misc
    ensures Loop(BOOT_CODEC, VolumeNamed(l, start, misc), turns + [t], asWritten)
         == State(s.end, s.misc, before + s.attempts)
    ensures s.end == Running ==> |s.attempts| == 1
  {
    BecomesAgain(l, misc, start, here, now, VolumeNamed(l, here, misc), s.misc);
    BecomesMisc(l, misc, here, now, s.misc);
    LoopSnoc(BOOT_CODEC, VolumeNamed(l, start, misc), turns, t, asWritten);
    AppendAttempts(BOOT_CODEC, VolumeNamed(l, here, misc), before, t, asWritten);
  }

  lemma RealFromStart(l: Layout, start: seq<bv8>, here: seq<bv8>, misc: seq<bv8>, t: Turn, e: Environment, w: Which,
      a: Attempt)
    requires WellFormed(l, |start|) && Askable(misc) && |here| == |start|
    requires Becomes(l, misc, start, here, VolumeNamed(l, here, misc))
    requires TurnIsReal(l, here, misc, t, e, w, a)
    ensures TurnIsReal(l, start, misc, t, e, w, a)
  {
    BecomesAgain(l, misc, start, here, a.bytes, VolumeNamed(l, here, misc), VolumeNamed(l, a.bytes, misc));
  }

  /** A run so far: the turns taken and where they led, with only the misc partition changed. */
  ghost predicate Ran(l: Layout, misc: seq<bv8>, start: seq<bv8>, now: seq<bv8>, end: End, attempts: seq<Which>,
      turns: seq<Turn>, asWritten: bool)
  {
    && WellFormed(l, |start|) && Askable(misc) && |now| == |start|
    && Becomes(l, misc, start, now, VolumeNamed(l, now, misc))
    && Loop(BOOT_CODEC, VolumeNamed(l, start, misc), turns, asWritten) == State(end, VolumeNamed(l, now, misc), attempts)
    && |attempts| <= |turns| <= |attempts| + (if end == Running then 0 else 1)
    && (turns != [] ==> Loop(BOOT_CODEC, VolumeNamed(l, start, misc), turns[..|turns| - 1], asWritten).end == Running)
  }

  /** Every turn with an attempt is what the environment and the disk made of it. */
  ghost predicate AllReal(l: Layout, misc: seq<bv8>, start: seq<bv8>, env: nat -> Environment, attempts: seq<Which>,
      turns: seq<Turn>, found: seq<Attempt>)
  {
    && WellFormed(l, |start|) && Askable(misc)
    && |found| == |attempts| <= |turns|
    && (forall k | 0 <= k < |turns| :: FailsAs(turns[k], env(k)))
    && forall k | 0 <= k < |attempts| :: TurnIsReal(l, start, misc, turns[k], env(k), attempts[k], found[k])
  }

  function Listed<X>(o: Option<X>): seq<X> { if o.Some? then [o.value] else [] }

  lemma RanOneMore(l: Layout, misc: seq<bv8>, start: seq<bv8>, here: seq<bv8>, now: seq<bv8>,
      attempts: seq<Which>, turns: seq<Turn>, t: Turn, s: State, more: seq<Which>, asWritten: bool)
    requires Ran(l, misc, start, here, Running, attempts, turns, asWritten)
    requires |now| == |start| && Becomes(l, misc, start, now, s.misc) && VolumeNamed(l, now, misc) == s.misc
    requires Loop(BOOT_CODEC, VolumeNamed(l, start, misc), turns + [t], asWritten)
          == State(s.end, s.misc, attempts + s.attempts)
    requires s.attempts == more && |more| <= 1 && (s.end == Running ==> |more| == 1)
    ensures Ran(l, misc, start, now, s.end, attempts + more, turns + [t], asWritten)
  {
    assert (turns + [t])[..|turns|] == turns;
  }

  /** What one more turn makes of the run. */
  lemma RanAfter(l: Layout, misc: seq<bv8>, start: seq<bv8>, here: seq<bv8>, now: seq<bv8>, e: Environment,
      attempts: seq<Which>, turns: seq<Turn>, end: End, chosen: Option<Which>, t: Turn, a: Attempt, asWritten: bool)
    requires Ran(l, misc, start, here, Running, attempts, turns, asWritten)
    requires Turned(l, misc, here, now, e, end, chosen, t, a, asWritten)
    ensures Ran(l, misc, start, now, end, attempts + Listed(chosen), turns + [t], asWritten)
  {
    var s := TakeTurn(BOOT_CODEC, State(Running, VolumeNamed(l, here, misc), []), t, asWritten);
    FinishTurn(l, misc, start, here, now, turns, t, attempts, s, asWritten);
    RanOneMore(l, misc, start, here, now, attempts, turns, t, s, Listed(chosen), asWritten);
  }

  lemma RealAfter(l: Layout, misc: seq<bv8>, start: seq<bv8>, here: seq<bv8>, env: nat -> Environment,
      attempts: seq<Which>, turns: seq<Turn>, found: seq<Attempt>, chosen: Option<Which>, t: Turn, a: Attempt)
    requires AllReal(l, misc, start, env, attempts, turns, found) && |turns| == |attempts|
    requires |here| == |start| && Becomes(l, misc, start, here, VolumeNamed(l, here, misc))
    requires chosen.Some? ==> TurnIsReal(l, here, misc, t, env(|turns|), chosen.value, a)
    requires FailsAs(t, env(|turns|))
    ensures AllReal(l, misc, start, env, attempts + Listed(chosen), turns + [t],
                    found + if chosen.Some? then [a] else [])
  {
    if chosen.Some? {
      RealFromStart(l, start, here, misc, t, env(|turns|), chosen.value, a);
    }
  }

  /** When a run of the loop cannot be going on any more: as intended after three turns, and as written,
      from a disk without a successful slot, after one turn more than its tries. */
  predicate MustHaveEnded(misc: seq<bv8>, turns: nat, asWritten: bool) {
    if asWritten then !HasSuccessful(BOOT_CODEC, misc) && turns > Budget(BOOT_CODEC, misc) else turns >= 3
  }

  lemma RanEnds(l: Layout, misc: seq<bv8>, start: seq<bv8>, now: seq<bv8>, end: End, attempts: seq<Which>,
      turns: seq<Turn>, asWritten: bool)
    requires Ran(l, misc, start, now, end, attempts, turns, asWritten)
    ensures MustHaveEnded(VolumeNamed(l, start, misc), |turns|, asWritten) ==> end != Running
    ensures turns != [] ==> EndMeans(end, |attempts|, turns, asWritten)
    ensures !asWritten ==> Distinct(attempts) && |attempts| <= 2 && |turns| <= 3
  {
    BootCodecLawful();
    if turns != [] { LoopEndMeans(BOOT_CODEC, VolumeNamed(l, start, misc), turns, asWritten); }
    if asWritten {
      AsWrittenEndsIff(BOOT_CODEC, VolumeNamed(l, start, misc));
    } else {
      IntendedLoopEnds(BOOT_CODEC, VolumeNamed(l, start, misc), turns);
    }
  }

  /** The main loop, as written or as intended, followed for at most `limit` turns.  The turns it took are
      reported for the specification, with what each attempt found on disk; only the misc partition is
      ever changed. */
  method RunLoop(control: AbControl, env: nat -> Environment, asWritten: bool, limit: nat)
      returns (end: End, attempts: seq<Which>, ghost turns: seq<Turn>, ghost found: seq<Attempt>)
    requires control.Valid()
    modifies control.disk.bytes
    ensures |turns| <= limit && (end == Running ==> |turns| == limit)
    ensures Ran(control.disk.layout, control.misc, old(control.disk.bytes[..]), control.disk.bytes[..], end,
                attempts, turns, asWritten)
    ensures AllReal(control.disk.layout, control.misc, old(control.disk.bytes[..]), env, attempts, turns, found)
    ensures MustHaveEnded(old(control.Misc()), limit, asWritten) ==> end != Running
    ensures turns != [] ==> EndMeans(end, |attempts|, turns, asWritten)
    ensures !asWritten ==> Distinct(attempts) && |attempts| <= 2 && |turns| <= 3
  {
    ghost var l, misc, start := control.disk.layout, control.misc, control.disk.bytes[..];
    BecomesItself(l, misc, start);
    end, attempts, turns, found := Running, [], [], [];
    var turn := 0;
    while end == Running && turn < limit
      invariant turn == |turns| <= limit
      invariant Ran(l, misc, start, control.disk.bytes[..], end, attempts, turns, asWritten)
      invariant AllReal(l, misc, start, env, attempts, turns, found)
    {
      ghost var here := control.disk.bytes[..];
      var chosen: Option<Which>;
      ghost var t, a;
      end, chosen, t, a := TurnOnce(control, env(turn), asWritten);
      RealAfter(l, misc, start, here, env, attempts, turns, found, chosen, t, a);
      RanAfter(l, misc, start, here, control.disk.bytes[..], env(turn), attempts, turns, end, chosen, t, a, asWritten);
      attempts := attempts + Listed(chosen);
      found := found + if chosen.Some? then [a] else [];
      turns, turn := turns + [t], turn + 1;
    }
    RanEnds(l, misc, start, control.disk.bytes[..], end, attempts, turns, asWritten);
  }
}
