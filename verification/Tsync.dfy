/**
 The handshake of the TSYNC tests: a parent and `n` sibling threads sharing a semaphore, a mutex, a
 condition variable and one wait count for each sibling.  Every interleaving is a sequence of actions,
 each one atomic step of one thread.  The single-phase tests are the case where no sibling is held;
 in the two-phase test the parent holds one sibling back for a second broadcast.
 */
module Tsync {
  import opened Common

  /** `held`: the siblings kept for the second broadcast.  `diverging`: those whose prctl may fail.
      `spurious`: whether condition waits may end without a broadcast. */
  datatype Config = Config(n: nat, held: set<nat>, diverging: set<nat>, spurious: bool)

  // ----- Threads -----

  /** Where a sibling stands.  It holds the mutex from Locked to Posted and from Awake to Leaving. */
  datatype Pc =
    | Unborn
    | WantLock
    | Locked
    | Prepared(failed: bool)
    | Posted(failed: bool)
    | Waiting
    | Woken
    | Awake
    | Tested
    | Leaving
    | Exited(failed: bool)

  datatype Sibling = Sibling(pc: Pc, numWaits: int)

  /** Where the parent stands; `phase` is 1 or 2.  It holds the mutex from Adjusting to Unlocking. */
  datatype ParentPc =
    | Starting(k: nat)
    | Collecting(k: nat)
    | Locking(phase: nat)
    | Adjusting(phase: nat)
    | Broadcasting(phase: nat)
    | Unlocking(phase: nat)
    | Joining(phase: nat, k: nat)
    | Done

  datatype Owner = Free | ParentOwns | SiblingOwns(i: nat)

  /** `started` is the value of the semaphore. */
  datatype State = State(sibs: seq<Sibling>, parent: ParentPc, owner: Owner, started: nat)

  datatype Act = ParentActs | SiblingActs(i: nat, fails: bool) | WakesUnasked(i: nat)

  function Init(c: Config): State { State(seq(c.n, _ => Sibling(Unborn, 1)), Starting(0), Free, 0) }

  // ----- Steps -----

  /** The siblings joined in a phase: first those not held, then the held ones. */
  predicate JoinedIn(c: Config, phase: nat, i: nat) { (i in c.held) == (phase == 2) }

  /** What the parent does to the wait counts under the mutex before a broadcast. */
  function Adjusted(c: Config, phase: nat, i: nat, s: Sibling): Sibling {
    if i !in c.held then s
    else if phase == 1 then s.(numWaits := s.numWaits + 1)
    else if s.numWaits > 1 then s.(numWaits := 1)
    else s
  }

  function Broadcast(s: Sibling): Sibling { if s.pc == Waiting then s.(pc := Woken) else s }

  function ParentNext(c: Config, s: State): Option<State>
    requires |s.sibs| == c.n
  {
    match s.parent
    case Starting(k) =>
      if k < c.n then Some(s.(sibs := s.sibs[k := s.sibs[k].(pc := WantLock)], parent := Starting(k + 1)))
      else Some(s.(parent := Collecting(0)))
    case Collecting(k) =>
      if k >= c.n then Some(s.(parent := Locking(1)))
      else if s.started > 0 then Some(s.(started := s.started - 1, parent := Collecting(k + 1)))
      else None
    case Locking(phase) =>
      if s.owner == Free then Some(s.(owner := ParentOwns, parent := Adjusting(phase))) else None
    case Adjusting(phase) =>
      Some(s.(sibs := seq(c.n, i requires 0 <= i < c.n => Adjusted(c, phase, i, s.sibs[i])),
              parent := Broadcasting(phase)))
    case Broadcasting(phase) =>
      Some(s.(sibs := seq(c.n, i requires 0 <= i < c.n => Broadcast(s.sibs[i])), parent := Unlocking(phase)))
    case Unlocking(phase) => Some(s.(owner := Free, parent := Joining(phase, 0)))
    case Joining(phase, k) =>
      if k >= c.n then Some(s.(parent := if phase == 1 && c.held != {} then Locking(2) else Done))
      else if JoinedIn(c, phase, k) && !s.sibs[k].pc.Exited? then None
      else Some(s.(parent := Joining(phase, k + 1)))
    case Done => None
  }

  /** What one step of a sibling makes of itself and of the mutex, and whether it posts. */
  datatype Move = Move(sib: Sibling, owner: Owner, posts: bool)

  function SiblingNext(c: Config, s: Sibling, owner: Owner, i: nat, fails: bool): Option<Move> {
    match s.pc
    case Unborn => None
    case WantLock => if owner == Free then Some(Move(s.(pc := Locked), SiblingOwns(i), false)) else None
    case Locked => Some(Move(s.(pc := Prepared(fails && i in c.diverging)), owner, false))
    case Prepared(failed) => Some(Move(s.(pc := Posted(failed)), owner, true))
    case Posted(failed) => Some(Move(s.(pc := if failed then Exited(true) else Waiting), Free, false))
    case Waiting => None
    case Woken => if owner == Free then Some(Move(s.(pc := Awake), SiblingOwns(i), false)) else None
    case Awake => Some(Move(Sibling(Tested, s.numWaits - 1), owner, false))
    case Tested =>
      if s.numWaits != 0 then Some(Move(s.(pc := Waiting), Free, false))
      else Some(Move(s.(pc := Leaving), owner, false))
    case Leaving => Some(Move(s.(pc := Exited(false)), Free, false))
    case Exited(_) => None
  }

  function Next(c: Config, s: State, a: Act): Option<State>
    requires |s.sibs| == c.n
  {
    match a
    case ParentActs => ParentNext(c, s)
    case SiblingActs(i, fails) =>
      if i >= c.n then None
      else (match SiblingNext(c, s.sibs[i], s.owner, i, fails)
            case None => None
            case Some(m) =>
              Some(State(s.sibs[i := m.sib], s.parent, m.owner, s.started + if m.posts then 1 else 0)))
    case WakesUnasked(i) =>
      if i < c.n && c.spurious && s.sibs[i].pc == Waiting then
        Some(s.(sibs := s.sibs[i := s.sibs[i].(pc := Woken)]))
      else None
  }

  // ----- The invariant -----

  /** The parent's progress; phase 2 comes after phase 1. */
  function Stage(p: ParentPc): nat {
    match p
    case Starting(_) => 0
    case Collecting(_) => 1
    case Locking(phase) => if phase == 1 then 2 else 7
    case Adjusting(phase) => if phase == 1 then 3 else 8
    case Broadcasting(phase) => if phase == 1 then 4 else 9
    case Unlocking(phase) => if phase == 1 then 5 else 10
    case Joining(phase, _) => if phase == 1 then 6 else 11
    case Done => 12
  }

  predicate HasMutex(pc: Pc) { pc.Locked? || pc.Prepared? || pc.Posted? || pc.Awake? || pc.Tested? || pc.Leaving? }

  predicate BeforeLoop(pc: Pc) { pc.Unborn? || pc.WantLock? || pc.Locked? || pc.Prepared? || pc.Posted? }

  predicate HasPosted(pc: Pc) { !pc.Unborn? && !pc.WantLock? && !pc.Locked? && !pc.Prepared? }

  /** The broadcast meant for sibling `i` has been sent. */
  predicate Released(c: Config, stage: nat, i: nat) { stage >= if i in c.held then 10 else 5 }

  /** The most waits sibling `i` can have left inside its loop. */
  function MaxWaits(c: Config, stage: nat, i: nat): int {
    if i in c.held && 4 <= stage <= 8 then 2 else 1
  }

  predicate WaitsOk(c: Config, stage: nat, i: nat, s: Sibling) {
    && s.numWaits >= 0
    && (BeforeLoop(s.pc) ==> stage <= 2 && s.numWaits == 1)
    && (s.pc.Waiting? || s.pc.Woken? || s.pc.Awake? ==> 1 <= s.numWaits <= MaxWaits(c, stage, i))
    && (s.pc.Tested? ==> s.numWaits <= MaxWaits(c, stage, i) - 1)
    && (s.pc.Leaving? ==> s.numWaits == 0)
    && (Released(c, stage, i) ==> !s.pc.Waiting?)
  }

  /** Without spurious wakeups nobody is awake before the first broadcast, and a held sibling cannot
      leave its loop before the second. */
  predicate HoldsBack(c: Config, stage: nat, i: nat, s: Sibling) {
    && (stage <= 4 ==> BeforeLoop(s.pc) || s.pc.Waiting? || s.pc == Exited(true))
    && (i in c.held && stage == 4 && s.pc.Waiting? ==> s.numWaits == 2)
    && (i in c.held && 5 <= stage <= 8 && (s.pc.Woken? || s.pc.Awake?) ==> s.numWaits == 2)
    && (i in c.held && 5 <= stage <= 9 ==>
          !s.pc.Leaving? && s.pc != Exited(false) && (s.pc.Tested? || s.pc.Waiting? ==> s.numWaits == 1))
  }

  predicate SiblingOk(c: Config, stage: nat, i: nat, s: Sibling) {
    WaitsOk(c, stage, i, s) && (!c.spurious ==> HoldsBack(c, stage, i, s))
  }

  predicate ParentOk(c: Config, p: ParentPc) {
    match p
    case Starting(k) => k <= c.n
    case Collecting(k) => k <= c.n
    case Done => true
    case Joining(phase, k) => k <= c.n && (phase == 1 || (phase == 2 && c.held != {}))
    case _ => p.phase == 1 || (p.phase == 2 && c.held != {})
  }

  function CountPosted(sibs: seq<Sibling>): (n: nat)
    ensures n <= |sibs|
  {
    if sibs == [] then 0 else (if HasPosted(sibs[0].pc) then 1 else 0) + CountPosted(sibs[1..])
  }

  /** The semaphore posts the parent has taken. */
  function Taken(c: Config, p: ParentPc): nat {
    match p case Starting(_) => 0 case Collecting(k) => k case _ => c.n
  }

  predicate OwnsIff(pc: Pc, owner: Owner, i: nat) { HasMutex(pc) <==> owner == SiblingOwns(i) }

  predicate MutexOk(c: Config, s: State)
    requires |s.sibs| == c.n
  {
    && (s.owner == ParentOwns <==> s.parent.Adjusting? || s.parent.Broadcasting? || s.parent.Unlocking?)
    && (forall i | 0 <= i < c.n :: OwnsIff(s.sibs[i].pc, s.owner, i))
    && (s.owner.SiblingOwns? ==> s.owner.i < c.n)
  }

  predicate Joined(c: Config, p: ParentPc, i: nat) {
    || (p.Joining? && JoinedIn(c, p.phase, i) && i < p.k)
    || (Stage(p) >= 7 && i !in c.held)
    || p.Done?
  }

  predicate PlaceOk(c: Config, p: ParentPc, i: nat, pc: Pc) {
    && (pc.Unborn? <==> p.Starting? && i >= p.k)
    && (Joined(c, p, i) ==> pc.Exited?)
  }

  /** Which siblings exist, and which the parent has joined. */
  predicate BornAndJoined(c: Config, s: State)
    requires |s.sibs| == c.n
  {
    forall i | 0 <= i < c.n :: PlaceOk(c, s.parent, i, s.sibs[i].pc)
  }

  ghost predicate Inv(c: Config, s: State) {
    && |s.sibs| == c.n && ParentOk(c, s.parent)
    && MutexOk(c, s) && BornAndJoined(c, s)
    && CountPosted(s.sibs) == s.started + Taken(c, s.parent)
    && forall i | 0 <= i < c.n :: SiblingOk(c, Stage(s.parent), i, s.sibs[i])
  }

  // ----- Every step keeps it -----

  lemma {:induction false} CountUpdate(sibs: seq<Sibling>, i: nat, s: Sibling)
    requires i < |sibs|
    ensures CountPosted(sibs[i := s])
         == CountPosted(sibs) + (if HasPosted(s.pc) then 1 else 0) - (if HasPosted(sibs[i].pc) then 1 else 0)
  {
    if i > 0 {
      CountUpdate(sibs[1..], i - 1, s);
      assert sibs[i := s][1..] == sibs[1..][i - 1 := s];
    } else {
      assert sibs[i := s][1..] == sibs[1..];
    }
  }

  lemma {:induction false} CountSame(a: seq<Sibling>, b: seq<Sibling>)
    requires |a| == |b| && forall i | 0 <= i < |a| :: HasPosted(a[i].pc) == HasPosted(b[i].pc)
    ensures CountPosted(a) == CountPosted(b)
  {
    if a != [] { CountSame(a[1..], b[1..]); }
  }

  lemma {:induction false} AllPosted(sibs: seq<Sibling>, i: nat)
    requires CountPosted(sibs) == |sibs| && i < |sibs|
    ensures HasPosted(sibs[i].pc)
  {
    if i > 0 { AllPosted(sibs[1..], i - 1); }
  }

  lemma {:induction false} NonePosted(sibs: seq<Sibling>)
    requires forall i | 0 <= i < |sibs| :: sibs[i].pc.Unborn?
    ensures CountPosted(sibs) == 0
  {
    if sibs != [] { NonePosted(sibs[1..]); }
  }

  lemma InitInv(c: Config)
    ensures Inv(c, Init(c))
  {
    NonePosted(Init(c).sibs);
  }

  /** One sibling's step keeps what the invariant says of it. */
  lemma MoveKeeps(c: Config, stage: nat, i: nat, s: Sibling, owner: Owner, fails: bool)
    requires SiblingOk(c, stage, i, s) && SiblingNext(c, s, owner, i, fails).Some?
    requires HasMutex(s.pc) <==> owner == SiblingOwns(i)
    requires owner != ParentOwns <==> !(3 <= stage <= 5 || 8 <= stage <= 10)
    ensures var m := SiblingNext(c, s, owner, i, fails).value;
            && SiblingOk(c, stage, i, m.sib)
            && (HasMutex(m.sib.pc) <==> m.owner == SiblingOwns(i))
            && (m.owner == SiblingOwns(i) || m.owner == Free) && (owner == SiblingOwns(i) || owner == Free)
            && (m.posts <==> HasPosted(m.sib.pc) && !HasPosted(s.pc)) && (HasPosted(s.pc) ==> HasPosted(m.sib.pc))
            && !m.sib.pc.Unborn? && !s.pc.Exited?
  {}

  lemma SiblingKeeps(c: Config, s: State, i: nat, fails: bool)
    requires Inv(c, s) && i < c.n && Next(c, s, SiblingActs(i, fails)).Some?
    ensures Inv(c, Next(c, s, SiblingActs(i, fails)).value)
  {
    MoveKeeps(c, Stage(s.parent), i, s.sibs[i], s.owner, fails);
    var m := SiblingNext(c, s.sibs[i], s.owner, i, fails).value;
    CountUpdate(s.sibs, i, m.sib);
  }

  lemma WakeKeeps(c: Config, s: State, i: nat)
    requires Inv(c, s) && Next(c, s, WakesUnasked(i)).Some?
    ensures Inv(c, Next(c, s, WakesUnasked(i)).value)
  {
    CountUpdate(s.sibs, i, s.sibs[i].(pc := Woken));
  }

  /** With all posts taken and the mutex in the parent's hands, every sibling is past its post and in
      none of the places where it would hold the mutex. */
  lemma CollectedAll(c: Config, s: State, i: nat)
    requires Inv(c, s) && i < c.n && Stage(s.parent) >= 2
    ensures HasPosted(s.sibs[i].pc) && s.started == 0
  {
    AllPosted(s.sibs, i);
  }

  lemma AdjustOne(c: Config, phase: nat, i: nat, s: Sibling)
    requires (phase == 1 || phase == 2) && HasPosted(s.pc) && !HasMutex(s.pc)
    requires SiblingOk(c, Stage(Adjusting(phase)), i, s)
    ensures SiblingOk(c, Stage(Broadcasting(phase)), i, Adjusted(c, phase, i, s))
  {}

  lemma BroadcastOne(c: Config, phase: nat, i: nat, s: Sibling)
    requires (phase == 1 || phase == 2) && HasPosted(s.pc) && !HasMutex(s.pc)
    requires SiblingOk(c, Stage(Broadcasting(phase)), i, s)
    ensures SiblingOk(c, Stage(Unlocking(phase)), i, Broadcast(s))
  {}

  /** Parent steps that leave the siblings alone. */
  lemma StageMoves(c: Config, s: State, i: nat)
    requires Inv(c, s) && ParentNext(c, s).Some? && i < c.n
    requires !s.parent.Starting? && !s.parent.Adjusting? && !s.parent.Broadcasting?
    ensures SiblingOk(c, Stage(ParentNext(c, s).value.parent), i, s.sibs[i])
  {
    if s.parent.Locking? { CollectedAll(c, s, i); }
  }

  lemma SiblingsAfterParent(c: Config, s: State, i: nat)
    requires Inv(c, s) && ParentNext(c, s).Some? && i < c.n
    ensures SiblingOk(c, Stage(ParentNext(c, s).value.parent), i, ParentNext(c, s).value.sibs[i])
  {
    match s.parent
    case Starting(_) =>
    case Adjusting(phase) => CollectedAll(c, s, i); AdjustOne(c, phase, i, s.sibs[i]);
    case Broadcasting(phase) => CollectedAll(c, s, i); BroadcastOne(c, phase, i, s.sibs[i]);
    case _ => StageMoves(c, s, i);
  }

  lemma CountAfterParent(c: Config, s: State)
    requires Inv(c, s) && ParentNext(c, s).Some?
    ensures var s' := ParentNext(c, s).value;
            |s'.sibs| == c.n && CountPosted(s'.sibs) == s'.started + Taken(c, s'.parent)
  {
    match s.parent
    case Starting(k) => if k < c.n { CountUpdate(s.sibs, k, s.sibs[k].(pc := WantLock)); }
    case Adjusting(_) => CountSame(s.sibs, ParentNext(c, s).value.sibs);
    case Broadcasting(_) => CountSame(s.sibs, ParentNext(c, s).value.sibs);
    case _ =>
  }

  lemma OwnerAfterParent(c: Config, s: State, i: nat)
    requires Inv(c, s) && ParentNext(c, s).Some? && |ParentNext(c, s).value.sibs| == c.n && i < c.n
    ensures OwnsIff(ParentNext(c, s).value.sibs[i].pc, ParentNext(c, s).value.owner, i)
  {
    assert OwnsIff(s.sibs[i].pc, s.owner, i) && PlaceOk(c, s.parent, i, s.sibs[i].pc);
  }

  lemma MutexAfterParent(c: Config, s: State)
    requires Inv(c, s) && ParentNext(c, s).Some? && |ParentNext(c, s).value.sibs| == c.n
    ensures MutexOk(c, ParentNext(c, s).value) && ParentOk(c, ParentNext(c, s).value.parent)
  {
    forall i | 0 <= i < c.n
      ensures OwnsIff(ParentNext(c, s).value.sibs[i].pc, ParentNext(c, s).value.owner, i)
    {
      OwnerAfterParent(c, s, i);
    }
  }

  lemma PlaceAfterParent(c: Config, s: State, i: nat)
    requires Inv(c, s) && ParentNext(c, s).Some? && |ParentNext(c, s).value.sibs| == c.n && i < c.n
    ensures PlaceOk(c, ParentNext(c, s).value.parent, i, ParentNext(c, s).value.sibs[i].pc)
  {
    assert PlaceOk(c, s.parent, i, s.sibs[i].pc);
  }

  lemma JoinedAfterParent(c: Config, s: State)
    requires Inv(c, s) && ParentNext(c, s).Some? && |ParentNext(c, s).value.sibs| == c.n
    ensures BornAndJoined(c, ParentNext(c, s).value)
  {
    forall i | 0 <= i < c.n ensures PlaceOk(c, ParentNext(c, s).value.parent, i, ParentNext(c, s).value.sibs[i].pc) {
      PlaceAfterParent(c, s, i);
    }
  }

  lemma ParentKeeps(c: Config, s: State)
    requires Inv(c, s) && ParentNext(c, s).Some?
    ensures Inv(c, ParentNext(c, s).value)
  {
    CountAfterParent(c, s);
    forall i | 0 <= i < c.n
      ensures SiblingOk(c, Stage(ParentNext(c, s).value.parent), i, ParentNext(c, s).value.sibs[i])
    {
      SiblingsAfterParent(c, s, i);
    }
    MutexAfterParent(c, s);
    JoinedAfterParent(c, s);
  }

  lemma StepKeeps(c: Config, s: State, a: Act)
    requires Inv(c, s) && Next(c, s, a).Some?
    ensures Inv(c, Next(c, s, a).value)
  {
    match a
    case ParentActs => ParentKeeps(c, s);
    case SiblingActs(i, fails) => SiblingKeeps(c, s, i, fails);
    case WakesUnasked(i) => WakeKeeps(c, s, i);
  }

  // ----- Nothing gets stuck -----

  predicate Finished(s: State) { s.parent.Done? && forall i | 0 <= i < |s.sibs| :: s.sibs[i].pc.Exited? }

  lemma {:induction false} SomeUnposted(sibs: seq<Sibling>) returns (i: nat)
    requires CountPosted(sibs) < |sibs|
    ensures i < |sibs| && !HasPosted(sibs[i].pc)
  {
    if !HasPosted(sibs[0].pc) {
      i := 0;
    } else {
      i := SomeUnposted(sibs[1..]);
      i := i + 1;
    }
  }

  /** In every state the invariant allows, the run is over or some thread can step without a spurious
      wakeup. */
  lemma NoDeadlock(c: Config, s: State) returns (a: Act)
    requires Inv(c, s) && !Finished(s)
    ensures !a.WakesUnasked? && Next(c, s, a).Some?
  {
    a := ParentActs;
    if s.owner.SiblingOwns? {
      a := SiblingActs(s.owner.i, false);
    } else if ParentNext(c, s).None? {
      match s.parent
      case Collecting(k) =>
        var i := SomeUnposted(s.sibs);
        a := SiblingActs(i, false);
      case Joining(phase, k) =>
        CollectedAll(c, s, k);
        a := SiblingActs(k, false);
      case _ =>
    }
  }

  // ----- Every step lowers a measure -----

  function ParentRank(c: Config, p: ParentPc): nat
    requires ParentOk(c, p)
  {
    match p
    case Done => 0
    case Joining(phase, k) => (if phase == 1 then c.n + 6 else 1) + c.n - k
    case Unlocking(phase) => if phase == 1 then 2 * c.n + 7 else c.n + 2
    case Broadcasting(phase) => if phase == 1 then 2 * c.n + 8 else c.n + 3
    case Adjusting(phase) => if phase == 1 then 2 * c.n + 9 else c.n + 4
    case Locking(phase) => if phase == 1 then 2 * c.n + 10 else c.n + 5
    case Collecting(k) => 2 * c.n + 11 + c.n - k
    case Starting(k) => 3 * c.n + 12 + c.n - k
  }

  function SiblingRank(s: Sibling): int {
    match s.pc
    case Unborn => 17
    case WantLock => 16
    case Locked => 15
    case Prepared(_) => 14
    case Posted(_) => 13
    case Waiting => 8 * s.numWaits + 4
    case Woken => 8 * s.numWaits + 3
    case Awake => 8 * s.numWaits + 2
    case Tested => 8 * s.numWaits + 6
    case Leaving => 1
    case Exited(_) => 0
  }

  function Ranks(sibs: seq<Sibling>): int {
    if sibs == [] then 0 else SiblingRank(sibs[0]) + Ranks(sibs[1..])
  }

  /** A step of the parent outweighs everything it can add to the siblings. */
  function Measure(c: Config, s: State): int
    requires ParentOk(c, s.parent)
  {
    Ranks(s.sibs) + (8 * c.n + 1) * ParentRank(c, s.parent)
  }

  lemma {:induction false} RanksUpdate(sibs: seq<Sibling>, i: nat, s: Sibling)
    requires i < |sibs|
    ensures Ranks(sibs[i := s]) == Ranks(sibs) + SiblingRank(s) - SiblingRank(sibs[i])
  {
    if i > 0 {
      RanksUpdate(sibs[1..], i - 1, s);
      assert sibs[i := s][1..] == sibs[1..][i - 1 := s];
    } else {
      assert sibs[i := s][1..] == sibs[1..];
    }
  }

  lemma {:induction false} RanksGrow(a: seq<Sibling>, b: seq<Sibling>, most: nat)
    requires |a| == |b| && forall i | 0 <= i < |a| :: SiblingRank(b[i]) <= SiblingRank(a[i]) + most
    ensures Ranks(b) <= Ranks(a) + most * |a|
  {
    if a != [] {
      assert SiblingRank(b[0]) <= SiblingRank(a[0]) + most;
      RanksGrow(a[1..], b[1..], most);
      assert most * |a| == most * |a[1..]| + most;
    }
  }

  lemma {:induction false} RanksNat(sibs: seq<Sibling>)
    requires forall i | 0 <= i < |sibs| :: sibs[i].numWaits >= 0
    ensures Ranks(sibs) >= 0
  {
    if sibs != [] { RanksNat(sibs[1..]); }
  }

  lemma MeasureNat(c: Config, s: State)
    requires Inv(c, s)
    ensures Measure(c, s) >= 0
  {
    forall i | 0 <= i < c.n ensures s.sibs[i].numWaits >= 0 { assert SiblingOk(c, Stage(s.parent), i, s.sibs[i]); }
    RanksNat(s.sibs);
  }

  lemma ParentRankDrops(c: Config, s: State)
    requires Inv(c, s) && ParentNext(c, s).Some?
    ensures ParentOk(c, ParentNext(c, s).value.parent)
    ensures ParentRank(c, ParentNext(c, s).value.parent) < ParentRank(c, s.parent)
  {}

  lemma ParentRanks(c: Config, s: State)
    requires Inv(c, s) && ParentNext(c, s).Some?
    ensures Ranks(ParentNext(c, s).value.sibs) <= Ranks(s.sibs) + 8 * c.n
  {
    match s.parent
    case Starting(k) => if k < c.n { RanksUpdate(s.sibs, k, s.sibs[k].(pc := WantLock)); }
    case Adjusting(phase) => RanksGrow(s.sibs, ParentNext(c, s).value.sibs, 8);
    case Broadcasting(phase) => RanksGrow(s.sibs, ParentNext(c, s).value.sibs, 0);
    case _ =>
  }

  lemma SiblingRankDrops(c: Config, stage: nat, i: nat, s: Sibling, owner: Owner, fails: bool)
    requires SiblingOk(c, stage, i, s) && SiblingNext(c, s, owner, i, fails).Some?
    ensures SiblingRank(SiblingNext(c, s, owner, i, fails).value.sib) < SiblingRank(s)
  {}

  lemma Outweighs(w: nat, ranks: int, ranks': int, rank: nat, rank': nat)
    requires rank' < rank && ranks' <= ranks + w
    ensures ranks' + (w + 1) * rank' < ranks + (w + 1) * rank
  {
    assert (w + 1) * (rank' + 1) <= (w + 1) * rank;
  }

  lemma ParentLowersMeasure(c: Config, s: State)
    requires Inv(c, s) && ParentNext(c, s).Some?
    ensures ParentOk(c, ParentNext(c, s).value.parent)
    ensures Measure(c, ParentNext(c, s).value) < Measure(c, s)
  {
    ParentRankDrops(c, s);
    ParentRanks(c, s);
    Outweighs(8 * c.n, Ranks(s.sibs), Ranks(ParentNext(c, s).value.sibs), ParentRank(c, s.parent),
              ParentRank(c, ParentNext(c, s).value.parent));
  }

  lemma SiblingLowersMeasure(c: Config, s: State, i: nat, fails: bool)
    requires Inv(c, s) && Next(c, s, SiblingActs(i, fails)).Some?
    ensures Measure(c, Next(c, s, SiblingActs(i, fails)).value) < Measure(c, s)
  {
    SiblingRankDrops(c, Stage(s.parent), i, s.sibs[i], s.owner, fails);
    RanksUpdate(s.sibs, i, SiblingNext(c, s.sibs[i], s.owner, i, fails).value.sib);
  }

  /** Every step of every thread, spurious wakeups included, lowers the measure. */
  lemma StepLowersMeasure(c: Config, s: State, a: Act)
    requires Inv(c, s) && Next(c, s, a).Some?
    ensures ParentOk(c, Next(c, s, a).value.parent)
    ensures Measure(c, Next(c, s, a).value) < Measure(c, s)
  {
    match a
    case ParentActs => ParentLowersMeasure(c, s);
    case SiblingActs(i, fails) => SiblingLowersMeasure(c, s, i, fails);
    case WakesUnasked(i) => RanksUpdate(s.sibs, i, s.sibs[i].(pc := Woken));
  }

  // ----- Whole runs -----

  /** The state after a sequence of steps, None when one of them cannot be taken. */
  function Run(c: Config, acts: seq<Act>): (r: Option<State>)
    ensures r.Some? ==> |r.value.sibs| == c.n
    decreases |acts|
  {
    if acts == [] then Some(Init(c))
    else
      match Run(c, acts[..|acts| - 1])
      case None => None
      case Some(s) => Next(c, s, acts[|acts| - 1])
  }

  lemma {:induction false} RunInv(c: Config, acts: seq<Act>)
    requires Run(c, acts).Some?
    ensures Inv(c, Run(c, acts).value)
    ensures Measure(c, Run(c, acts).value) + |acts| <= Measure(c, Init(c))
    decreases |acts|
  {
    InitInv(c);
    if acts != [] {
      var before := acts[..|acts| - 1];
      RunInv(c, before);
      StepKeeps(c, Run(c, before).value, acts[|acts| - 1]);
      StepLowersMeasure(c, Run(c, before).value, acts[|acts| - 1]);
    }
  }

  /** Every interleaving is finite, and one that cannot go on has the parent through all its joins and
      every sibling exited.  No spurious wakeup is ever needed to go on. */
  lemma EveryRunFinishes(c: Config, acts: seq<Act>)
    requires Run(c, acts).Some?
    ensures |acts| <= Measure(c, Init(c))
    ensures Finished(Run(c, acts).value) || exists a: Act :: !a.WakesUnasked? && Run(c, acts + [a]).Some?
  {
    RunInv(c, acts);
    MeasureNat(c, Run(c, acts).value);
    if !Finished(Run(c, acts).value) {
      var a := NoDeadlock(c, Run(c, acts).value);
      assert (acts + [a])[..|acts|] == acts;
    }
  }

  /** The mutex excludes: of all threads at most one is where it would hold it. */
  lemma MutualExclusion(c: Config, acts: seq<Act>, i: nat, j: nat)
    requires Run(c, acts).Some? && i < j < c.n
    ensures var s := Run(c, acts).value;
            && !(HasMutex(s.sibs[i].pc) && HasMutex(s.sibs[j].pc))
            && (s.parent.Adjusting? || s.parent.Broadcasting? || s.parent.Unlocking? ==> !HasMutex(s.sibs[i].pc))
  {
    RunInv(c, acts);
  }

  /** No broadcast is lost: when the parent is about to send one, all posts are taken and every sibling
      is waiting, already woken, or finished; without spurious wakeups, before the first broadcast,
      those not waiting are exactly those that reported a failed prctl. */
  lemma NoBroadcastLost(c: Config, acts: seq<Act>, i: nat)
    requires Run(c, acts).Some? && Run(c, acts).value.parent.Broadcasting? && i < c.n
    ensures var s := Run(c, acts).value;
            && s.started == 0
            && (s.sibs[i].pc.Waiting? || s.sibs[i].pc.Woken? || s.sibs[i].pc.Exited?)
            && (!c.spurious && s.parent.phase == 1 ==> s.sibs[i].pc.Waiting? || s.sibs[i].pc == Exited(true))
  {
    RunInv(c, acts);
    var s := Run(c, acts).value;
    CollectedAll(c, s, i);
    assert SiblingOk(c, Stage(s.parent), i, s.sibs[i]);
  }

  /** No wait count ever goes below zero. */
  lemma WaitsNeverNegative(c: Config, acts: seq<Act>, i: nat)
    requires Run(c, acts).Some? && i < c.n
    ensures Run(c, acts).value.sibs[i].numWaits >= 0
  {
    RunInv(c, acts);
    assert SiblingOk(c, Stage(Run(c, acts).value.parent), i, Run(c, acts).value.sibs[i]);
  }

  /** Without spurious wakeups a held sibling never leaves its loop before the second broadcast. */
  lemma HeldUntilSecondBroadcast(c: Config, acts: seq<Act>, i: nat)
    requires Run(c, acts).Some? && i in c.held && i < c.n && !c.spurious
    requires Stage(Run(c, acts).value.parent) <= Stage(Broadcasting(2))
    ensures var s := Run(c, acts).value.sibs[i]; !s.pc.Leaving? && s.pc != Exited(false)
  {
    RunInv(c, acts);
    assert SiblingOk(c, Stage(Run(c, acts).value.parent), i, Run(c, acts).value.sibs[i]);
  }

  /** After the broadcast meant for it, whether or not it ran before, a sibling waits no more: it has one
      wait left to count off when woken, and then leaves. */
  lemma ReleasedLeaves(c: Config, acts: seq<Act>, i: nat)
    requires Run(c, acts).Some? && i < c.n
    requires Released(c, Stage(Run(c, acts).value.parent), i)
    ensures var s := Run(c, acts).value.sibs[i];
            match s.pc
            case Woken => s.numWaits == 1
            case Awake => s.numWaits == 1
            case Tested => s.numWaits == 0
            case _ => s.pc.Leaving? || s.pc.Exited?
  {
    RunInv(c, acts);
    var s := Run(c, acts).value;
    CollectedAll(c, s, i);
    assert SiblingOk(c, Stage(s.parent), i, s.sibs[i]);
  }

  // ----- Failures are reported -----

  /** In this run sibling `i` is a diverging one and its prctl failed. */
  predicate PrctlFailed(c: Config, acts: seq<Act>, i: nat)
    requires i < c.n
    decreases |acts|
  {
    acts != [] &&
    var before := acts[..|acts| - 1];
    || PrctlFailed(c, before, i)
    || (i in c.diverging && acts[|acts| - 1] == SiblingActs(i, true)
        && Run(c, before).Some? && Run(c, before).value.sibs[i].pc == Locked)
  }

  predicate HasFailed(pc: Pc) { pc == Prepared(true) || pc == Posted(true) || pc == Exited(true) }

  lemma FailureStep(c: Config, s: State, a: Act, i: nat)
    requires Inv(c, s) && i < c.n && Next(c, s, a).Some?
    ensures HasFailed(Next(c, s, a).value.sibs[i].pc) <==>
            HasFailed(s.sibs[i].pc) || (i in c.diverging && a == SiblingActs(i, true) && s.sibs[i].pc == Locked)
  {
    assert PlaceOk(c, s.parent, i, s.sibs[i].pc);
  }

  /** A sibling is on its way out with a failure, or out, exactly when it is diverging and its prctl failed;
      so it ends with the failure status exactly then. */
  lemma {:induction false} FailureReported(c: Config, acts: seq<Act>, i: nat)
    requires Run(c, acts).Some? && i < c.n
    ensures HasFailed(Run(c, acts).value.sibs[i].pc) <==> PrctlFailed(c, acts, i)
    ensures Run(c, acts).value.sibs[i].pc.Exited? ==>
              Run(c, acts).value.sibs[i].pc == Exited(PrctlFailed(c, acts, i))
    decreases |acts|
  {
    if acts != [] {
      var before := acts[..|acts| - 1];
      FailureReported(c, before, i);
      RunInv(c, before);
      FailureStep(c, Run(c, before).value, acts[|acts| - 1], i);
    }
  }

  // ----- Exactly when the hold works -----

  /** A run in which sibling `i` is out of its loop although the second broadcast has not been sent. */
  predicate Left(c: Config, acts: seq<Act>, i: nat)
    requires i < c.n
  {
    Run(c, acts).Some? && var s := Run(c, acts).value;
    Stage(s.parent) <= Stage(Broadcasting(2)) && (s.sibs[i].pc.Leaving? || s.sibs[i].pc == Exited(false))
  }

  /** A run after which the parent has just created sibling `i`, which stands as `sib` says. */
  predicate Alone(c: Config, acts: seq<Act>, i: nat, sib: Sibling, owner: Owner)
    requires i < c.n
  {
    Run(c, acts).Some? && var s := Run(c, acts).value;
    s.parent == Starting(i + 1) && s.owner == owner && s.sibs[i] == sib
  }

  lemma RunNext(c: Config, acts: seq<Act>, a: Act)
    requires Run(c, acts).Some?
    ensures Run(c, acts + [a]) == Next(c, Run(c, acts).value, a)
  {
    assert (acts + [a])[..|acts|] == acts;
  }

  /** The parent creates the first `k` siblings before any of them runs. */
  lemma {:induction false} StartUpTo(c: Config, k: nat) returns (acts: seq<Act>)
    requires k <= c.n
    ensures Run(c, acts).Some? && Run(c, acts).value.parent == Starting(k) && Run(c, acts).value.owner == Free
    ensures forall i | 0 <= i < c.n ::
              Run(c, acts).value.sibs[i] == Sibling(if i < k then WantLock else Unborn, 1)
  {
    if k == 0 {
      acts := [];
    } else {
      var before := StartUpTo(c, k - 1);
      RunNext(c, before, ParentActs);
      acts := before + [ParentActs];
    }
  }

  lemma AloneStep(c: Config, acts: seq<Act>, i: nat, sib: Sibling, owner: Owner) returns (acts': seq<Act>)
    requires i < c.n && Alone(c, acts, i, sib, owner) && SiblingNext(c, sib, owner, i, false).Some?
    ensures var m := SiblingNext(c, sib, owner, i, false).value; Alone(c, acts', i, m.sib, m.owner)
  {
    RunNext(c, acts, SiblingActs(i, false));
    acts' := acts + [SiblingActs(i, false)];
  }

  lemma AloneWaits(c: Config, i: nat) returns (acts: seq<Act>)
    requires i < c.n
    ensures Alone(c, acts, i, Sibling(Waiting, 1), Free)
  {
    acts := StartUpTo(c, i + 1);
    acts := AloneStep(c, acts, i, Sibling(WantLock, 1), Free);
    acts := AloneStep(c, acts, i, Sibling(Locked, 1), SiblingOwns(i));
    acts := AloneStep(c, acts, i, Sibling(Prepared(false), 1), SiblingOwns(i));
    acts := AloneStep(c, acts, i, Sibling(Posted(false), 1), SiblingOwns(i));
  }

  lemma AloneTests(c: Config, acts: seq<Act>, i: nat) returns (acts': seq<Act>)
    requires i < c.n && Alone(c, acts, i, Sibling(Woken, 1), Free)
    ensures Alone(c, acts', i, Sibling(Tested, 0), SiblingOwns(i))
  {
    acts' := AloneStep(c, acts, i, Sibling(Woken, 1), Free);
    acts' := AloneStep(c, acts', i, Sibling(Awake, 1), SiblingOwns(i));
  }

  lemma AloneLeaves(c: Config, acts: seq<Act>, i: nat) returns (acts': seq<Act>)
    requires i < c.n && Alone(c, acts, i, Sibling(Tested, 0), SiblingOwns(i))
    ensures Alone(c, acts', i, Sibling(Exited(false), 0), Free)
  {
    acts' := AloneStep(c, acts, i, Sibling(Tested, 0), SiblingOwns(i));
    acts' := AloneStep(c, acts', i, Sibling(Leaving, 0), SiblingOwns(i));
  }

  /** With spurious wakeups any sibling of any configuration can wake unasked and be gone before the
      parent has even collected its post. */
  lemma SpuriousWakeupBreaksHold(c: Config, i: nat) returns (acts: seq<Act>)
    requires i < c.n && c.spurious
    ensures Alone(c, acts, i, Sibling(Exited(false), 0), Free)
  {
    acts := AloneWaits(c, i);
    RunNext(c, acts, WakesUnasked(i));
    acts := AloneTests(c, acts + [WakesUnasked(i)], i);
    acts := AloneLeaves(c, acts, i);
  }

  /** The hold works, in every interleaving, exactly when waits end only on a broadcast. */
  lemma HoldWorksIff(c: Config, i: nat)
    requires i < c.n && i in c.held
    ensures (forall acts: seq<Act> :: !Left(c, acts, i)) <==> !c.spurious
  {
    if c.spurious {
      var acts := SpuriousWakeupBreaksHold(c, i);
      assert Left(c, acts, i);
    } else {
      forall acts: seq<Act> ensures !Left(c, acts, i) {
        if Left(c, acts, i) { HeldUntilSecondBroadcast(c, acts, i); }
      }
    }
  }
}
